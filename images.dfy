/**
 * The image rewrite of handleArticle in main.go: in the rendered HTML, every
 * `src="..."` (or `src='...'`) that names a local file inside the project
 * root is pointed at the `/_local_fs/` file server, by its path relative to the
 * root. Remote sources and files outside the root are left alone.
 *
 * The pattern is `src=["']([^"']+)["']`; its match at a position is unique
 * (the source group takes every non-quote character and must then meet a
 * quote), so Regexp.ReplaceAllStringFunc becomes a left-to-right scan.
 */
module ImageSrc {
  import opened Wrappers
  import opened GoStrings
  import opened GoPaths
  import opened RelRef

  const LocalPrefix := "/_local_fs/"

  /** A `src` attribute found at the start of a text: its opening quote, its value and the match length. */
  datatype SrcAttr = SrcAttr(quote: char, src: string, len: nat)

  /** The end of the run of non-quote characters that starts at `i`. */
  function SkipUnquoted(t: string, i: nat): (j: nat)
    requires i <= |t|
    ensures i <= j <= |t|
    ensures forall k :: i <= k < j ==> !IsQuote(t[k])
    ensures j < |t| ==> IsQuote(t[j])
    decreases |t| - i
  {
    if i < |t| && !IsQuote(t[i]) then SkipUnquoted(t, i + 1) else i
  }

  /** The attribute the pattern matches at the very start of `t`, if any. */
  function SrcMatch(t: string): (r: Option<SrcAttr>)
    ensures r.Some? ==> 6 <= r.value.len <= |t| && HasPrefix(t, "src=")
    ensures r.Some? ==> r.value.src != "" && forall k :: 0 <= k < |r.value.src| ==> !IsQuote(r.value.src[k])
  {
    if !HasPrefix(t, "src=") || |t| < 5 || !IsQuote(t[4]) then None
    else
      var e := SkipUnquoted(t, 5);
      if e == 5 || e == |t| then None
      else Some(SrcAttr(t[4], t[5..e], e + 1))
  }

  /** What a source names on disk: absolute as written, else relative to the article's directory; cleaned. */
  function Resolve(articleDir: string, src: string): (r: string)
    requires IsAbs(articleDir)
    ensures IsAbs(r)
  {
    if IsAbs(src) then Clean(src) else Clean(JoinPath(articleDir, src))
  }

  /** Sources the rewrite never touches: web addresses and protocol-relative URLs. */
  predicate IsRemote(src: string) { HasPrefix(src, "http") || HasPrefix(src, "//") }

  /** The path's elements begin with all of the root's: the path lies in the root's tree. */
  predicate Within(root: string, p: string) { Elements(root) <= Elements(p) }

  /**
   * The new value of a source as the closure computes it, with its
   * containment test as written: a plain string-prefix test on the resolved
   * path. None means the attribute is kept.
   */
  function NewSrcAsWritten(root: string, articleDir: string, src: string): Option<string>
    requires IsAbs(root) && IsAbs(articleDir)
  {
    if IsRemote(src) then None
    else
      var abs := Resolve(articleDir, src);
      if HasPrefix(abs, root) then Some(LocalPrefix + Rel(root, abs)) else None
  }

  /** The new value of a source with the containment test the closure intends: whole path elements. */
  function NewSrc(root: string, articleDir: string, src: string): Option<string>
    requires IsAbs(root) && IsAbs(articleDir)
  {
    if IsRemote(src) then None
    else
      var abs := Resolve(articleDir, src);
      if Within(root, abs) then Some(LocalPrefix + Rel(root, abs)) else None
  }

  /** The rewritten attribute: the new value between two copies of the opening quote. */
  function Attribute(quote: char, value: string): string {
    "src=" + [quote] + value + [quote]
  }

  /** The text the pattern matches: a value between an opening and a closing quote, of either kind. */
  function Matched(open: char, value: string, close: char): string {
    "src=" + [open] + value + [close]
  }

  /** The image rewrite over the whole HTML text. */
  function RewriteImageSources(root: string, articleDir: string, t: string): string
    requires IsAbs(root) && IsAbs(articleDir)
    decreases |t|
  {
    if |t| == 0 then ""
    else match SrcMatch(t)
      case Some(m) =>
        (match NewSrc(root, articleDir, m.src)
         case Some(v) => Attribute(m.quote, v)
         case None => t[..m.len]) +
        RewriteImageSources(root, articleDir, t[m.len..])
      case None => [t[0]] + RewriteImageSources(root, articleDir, t[1..])
  }

  // ---------------------------------------------------------------------
  // Properties of the rewrite.
  // ---------------------------------------------------------------------

  /**
   * An attribute is recognised whatever follows, with its whole value and its
   * opening quote; the closing quote may be either kind.
   */
  lemma SrcMatchAttribute(open: char, src: string, close: char, rest: string)
    requires IsQuote(open) && IsQuote(close)
    requires src != "" && forall k :: 0 <= k < |src| ==> !IsQuote(src[k])
    ensures SrcMatch(Matched(open, src, close) + rest) == Some(SrcAttr(open, src, |src| + 6))
  {
    var t := Matched(open, src, close) + rest;
    assert t[..4] == "src=" && t[4] == open;
    assert forall k :: 0 <= k < |src| ==> t[5 + k] == src[k];
    assert t[5 + |src|] == close;
    SkipUnquotedTo(t, 5, 5 + |src|);
    assert t[5..5 + |src|] == src;
  }

  /** A run of non-quote characters that ends at a quote. */
  lemma {:induction false} SkipUnquotedTo(t: string, i: nat, j: nat)
    requires i <= j < |t| && IsQuote(t[j])
    requires forall k :: i <= k < j ==> !IsQuote(t[k])
    ensures SkipUnquoted(t, i) == j
    decreases j - i
  {
    if i < j {
      SkipUnquotedTo(t, i + 1, j);
    }
  }

  /** Web addresses are never rewritten. */
  lemma RemoteKept(root: string, articleDir: string, src: string)
    requires IsAbs(root) && IsAbs(articleDir)
    requires IsRemote(src)
    ensures NewSrc(root, articleDir, src) == None
    ensures NewSrcAsWritten(root, articleDir, src) == None
  {
  }

  /** Text without an `s` is left exactly as it is. */
  lemma {:induction false} NoAttributeUnchanged(root: string, articleDir: string, t: string)
    requires IsAbs(root) && IsAbs(articleDir)
    requires 's' !in t
    ensures RewriteImageSources(root, articleDir, t) == t
  {
    if |t| > 0 {
      assert t[0] != 's' && !HasPrefix(t, "src=");
      assert 's' !in t[1..];
      NoAttributeUnchanged(root, articleDir, t[1..]);
    }
  }

  /**
   * A matched attribute is replaced by the new value between two copies of its
   * opening quote, whatever the closing quote was, or kept exactly as written;
   * the rewrite then goes on after it.
   */
  lemma AttributeRewritten(root: string, articleDir: string, open: char, src: string, close: char, rest: string)
    requires IsAbs(root) && IsAbs(articleDir)
    requires IsQuote(open) && IsQuote(close)
    requires src != "" && forall k :: 0 <= k < |src| ==> !IsQuote(src[k])
    ensures RewriteImageSources(root, articleDir, Matched(open, src, close) + rest) ==
      (match NewSrc(root, articleDir, src)
       case Some(v) => Attribute(open, v)
       case None => Matched(open, src, close)) +
      RewriteImageSources(root, articleDir, rest)
  {
    var t := Matched(open, src, close) + rest;
    SrcMatchAttribute(open, src, close, rest);
    assert t[..|src| + 6] == Matched(open, src, close);
    assert t[|src| + 6..] == rest;
  }

  /** Text without an `s` before the rest passes through unchanged. */
  lemma {:induction false} PlainTextKept(root: string, articleDir: string, before: string, rest: string)
    requires IsAbs(root) && IsAbs(articleDir)
    requires 's' !in before
    ensures RewriteImageSources(root, articleDir, before + rest) ==
      before + RewriteImageSources(root, articleDir, rest)
  {
    if |before| > 0 {
      var t := before + rest;
      assert t[0] == before[0] != 's' && !HasPrefix(t, "src=");
      assert t[1..] == before[1..] + rest;
      assert 's' !in before[1..];
      PlainTextKept(root, articleDir, before[1..], rest);
      assert [before[0]] + before[1..] == before;
    } else {
      assert before + rest == rest;
    }
  }

  /**
   * A rewritten source serves the very file it named, and from inside the root:
   * the new value is the local prefix and a path that leads from the root back
   * to the resolved file without ever climbing out with `..`.
   */
  lemma NewSrcStaysInside(root: string, articleDir: string, src: string)
    requires IsAbs(root) && IsAbs(articleDir)
    requires NewSrc(root, articleDir, src).Some?
    ensures var abs := Resolve(articleDir, src);
      var rel := Rel(root, abs);
      NewSrc(root, articleDir, src) == Some(LocalPrefix + rel) &&
      JoinPath(root, rel) == abs &&
      ".." !in Split(rel, '/')
  {
    var abs := Resolve(articleDir, src);
    RelRoundTrip(root, abs);
    CleanIdempotentResolve(articleDir, src);
    RelDescends(root, abs);
  }

  /** A resolved path is already clean. */
  lemma CleanIdempotentResolve(articleDir: string, src: string)
    requires IsAbs(articleDir)
    ensures Clean(Resolve(articleDir, src)) == Resolve(articleDir, src)
  {
    var p := if IsAbs(src) then src else JoinPath(articleDir, src);
    CleanIdempotent(p);
  }

  /** From a root to a path inside it, Rel only descends. */
  lemma RelDescends(root: string, p: string)
    requires IsAbs(root) && IsAbs(p) && Within(root, p)
    ensures ".." !in Split(Rel(root, p), '/')
  {
    var b, t := Elements(root), Elements(p);
    if b == t {
      SplitNoSep(".", '/');
    } else {
      var n := CommonPrefix(b, t);
      assert forall k :: 0 <= k < |b| ==> b[k] == t[k];
      assert n == |b|;
      var parts := RelParts(b, t);
      assert parts == [] + t[n..];
      SplitOfJoin(parts, '/');
      assert forall i :: 0 <= i < |parts| ==> parts[i] == t[n + i];
    }
  }

  /**
   * The string-prefix test lets a sibling directory through: with the root
   * `/home/u/blog` (elements `pre + [name]`), an image in `/home/u/blog2`
   * (elements `pre + [name + extra, file]`) passes it and is served as
   * `/_local_fs/../blog2/i.png`, a path that climbs out of the root. The
   * element-wise test keeps such an attribute unchanged.
   */
  lemma PrefixTestEscapesRoot(pre: seq<string>, name: string, extra: string, file: string, articleDir: string)
    requires AllNormal(pre) && Normal(name) && Normal(name + extra) && Normal(file) && extra != ""
    requires IsAbs(articleDir)
    ensures var root, src := "/" + Join(pre + [name], "/"), "/" + Join(pre + [name + extra, file], "/");
      NewSrcAsWritten(root, articleDir, src) == Some(LocalPrefix + Rel(root, src)) &&
      Rel(root, src) == "../" + (name + extra) + "/" + file &&
      NewSrc(root, articleDir, src) == None
  {
    var root, src := "/" + Join(pre + [name], "/"), "/" + Join(pre + [name + extra, file], "/");
    SiblingPaths(pre, name, extra, file);
    assert Resolve(articleDir, src) == src;
  }

  /** The rooted paths of a root and of a file in its sibling directory. */
  lemma SiblingPaths(pre: seq<string>, name: string, extra: string, file: string)
    requires AllNormal(pre) && Normal(name) && Normal(name + extra) && Normal(file) && extra != ""
    ensures var b, t := pre + [name], pre + [name + extra, file];
      var root, src := "/" + Join(b, "/"), "/" + Join(t, "/");
      IsAbs(root) && IsAbs(src) && Clean(src) == src && !IsRemote(src) && HasPrefix(src, root) &&
      !Within(root, src) && Rel(root, src) == "../" + (name + extra) + "/" + file
  {
    var b, t := pre + [name], pre + [name + extra, file];
    var root, src := "/" + Join(b, "/"), "/" + Join(t, "/");
    assert AllNormal(b) && AllNormal(t) by {
      assert forall i :: 0 <= i < |pre| ==> b[i] == pre[i] && t[i] == pre[i];
    }
    CleanRooted(b);
    CleanRooted(t);
    assert !(b <= t) by {
      assert b[|pre|] != t[|pre|] by {
        assert |name + extra| > |name|;
      }
    }
    SiblingJoin(pre, name, extra, file);
    RootedNotRemote(t);
    SiblingRel(pre, name, extra, file);
    assert Rel(root, src) == Join(RelParts(b, t), "/");
  }

  /** The joined sibling path extends the joined root path. */
  lemma SiblingJoin(pre: seq<string>, name: string, extra: string, file: string)
    ensures HasPrefix("/" + Join(pre + [name + extra, file], "/"), "/" + Join(pre + [name], "/"))
  {
    SiblingJoinPieces(pre, name, extra, file);
    var r := "/" + Join(pre + [name], "/");
    var x := extra + "/" + file;
    AppendAssoc("/", Join(pre + [name], "/"), x);
    assert r <= r + x;
  }

  /** The joined sibling path extends the joined root path. */
  lemma SiblingJoinPieces(pre: seq<string>, name: string, extra: string, file: string)
    ensures Join(pre + [name + extra, file], "/") == Join(pre + [name], "/") + (extra + "/" + file)
  {
    assert pre + [name + extra, file] == (pre + [name + extra]) + [file];
    JoinAppend(pre + [name + extra], [file], "/");
    if |pre| == 0 {
      assert pre + [name + extra] == [name + extra] && pre + [name] == [name];
    } else {
      JoinAppend(pre, [name + extra], "/");
      JoinAppend(pre, [name], "/");
    }
  }

  /** A rooted path of normal elements is no protocol-relative or web address. */
  lemma RootedNotRemote(es: seq<string>)
    requires AllNormal(es) && |es| > 0
    ensures !IsRemote("/" + Join(es, "/"))
  {
    var j := Join(es, "/");
    assert es[0] != "" && '/' !in es[0] by { assert Normal(es[0]); }
    JoinHead(es, "/");
    var r := "/" + j;
    assert r[0] == '/' && r[1] == es[0][0] != '/';
    assert !HasPrefix(r, "http") by { assert "http"[0] == 'h'; }
    assert !HasPrefix(r, "//") by { assert "//"[1] == '/'; }
  }

  /** From the root to its sibling: one step up, then down into the sibling. */
  lemma SiblingRel(pre: seq<string>, name: string, extra: string, file: string)
    requires AllNormal(pre + [name]) && AllNormal(pre + [name + extra, file]) && extra != ""
    ensures var b, t := pre + [name], pre + [name + extra, file];
      Join(RelParts(b, t), "/") == "../" + (name + extra) + "/" + file
  {
    var b, t := pre + [name], pre + [name + extra, file];
    var x := name + extra;
    assert CommonPrefix(b, t) == |pre| by {
      assert b[|pre|] != t[|pre|] by {
        assert |x| > |name|;
      }
      assert b[..|pre|] == pre == t[..|pre|];
      CommonPrefixAt(b, t, |pre|);
    }
    assert RelParts(b, t) == ["..", x, file] by {
      assert Repeat("..", 1) == [".."];
      assert t[|pre|..] == [x, file];
    }
    JoinThree("..", x, file, "/");
  }

  /**
   * The correction only withdraws rewrites: on a clean root (filepath.Abs
   * returns one), every source the element-wise test rewrites is rewritten
   * to the same value by the code as written.
   */
  lemma CorrectionOnlyWithdraws(root: string, articleDir: string, src: string)
    requires IsAbs(root) && IsAbs(articleDir) && Clean(root) == root
    requires NewSrc(root, articleDir, src).Some?
    ensures NewSrcAsWritten(root, articleDir, src) == NewSrc(root, articleDir, src)
  {
    var abs := Resolve(articleDir, src);
    CleanIdempotentResolve(articleDir, src);
    WithinIsPrefix(root, abs);
  }

  /** A clean path inside a clean root starts with the root's characters. */
  lemma WithinIsPrefix(root: string, p: string)
    requires IsAbs(root) && IsAbs(p) && Clean(root) == root && Clean(p) == p
    requires Within(root, p)
    ensures HasPrefix(p, root)
  {
    var b, t := Elements(root), Elements(p);
    assert root == "/" + Join(b, "/") && p == "/" + Join(t, "/");
    if |b| == 0 {
      assert root == "/";
    } else {
      JoinExtends(b, t, "/");
      PrefixAfter("/", Join(b, "/"), Join(t, "/"));
    }
  }
}
