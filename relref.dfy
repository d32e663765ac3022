/**
 * replaceRelRef of main.go: Hugo `{{< relref "path" >}}` and `{{< ref "path" >}}`
 * shortcodes are replaced by links to indexed articles.
 *
 * The pattern is `\{\{<\s*(?:relref|ref)\s+["']?([^"'\s}]+)["']?\s*>\}\}`,
 * applied by Regexp.ReplaceAllStringFunc: leftmost, non-overlapping matches,
 * each one the match a backtracking matcher would pick (leftmost-first). For
 * this pattern the backtracking collapses into a deterministic scan (Match):
 * every group but the path takes as much as it can, and the path gives back
 * its last character only when that character is the `>` of a `>}}` that
 * directly follows.
 */
module RelRef {
  import opened Wrappers
  import opened GoStrings
  import opened GoPaths
  import opened Scanner

  /** RE2's `\s`: tab, newline, form feed, carriage return and space. */
  const Spaces: set<char> := {'\t', '\n', '\U{0C}', '\r', ' '}

  predicate IsQuote(c: char) { c == '"' || c == '\'' }

  /** The characters of `[^"'\s}]`, the class of the captured path. */
  predicate IsPathChar(c: char) { c !in Spaces && !IsQuote(c) && c != '}' }

  /** The end of the run of `\s` characters that starts at `i`. */
  function SkipSpaces(t: string, i: nat): (j: nat)
    requires i <= |t|
    ensures i <= j <= |t|
    ensures forall k :: i <= k < j ==> t[k] in Spaces
    ensures j < |t| ==> t[j] !in Spaces
    decreases |t| - i
  {
    if i < |t| && t[i] in Spaces then SkipSpaces(t, i + 1) else i
  }

  /** The end of the run of path characters that starts at `i`. */
  function SkipPath(t: string, i: nat): (j: nat)
    requires i <= |t|
    ensures i <= j <= |t|
    ensures forall k :: i <= k < j ==> IsPathChar(t[k])
    ensures j < |t| ==> !IsPathChar(t[j])
    decreases |t| - i
  {
    if i < |t| && IsPathChar(t[i]) then SkipPath(t, i + 1) else i
  }

  /** A shortcode found at the start of a text: the captured path and the length of the match. */
  datatype Shortcode = Shortcode(path: string, len: nat)

  /**
   * The opening part `\{\{<\s*(?:relref|ref)\s+["']?`: where the path group
   * starts, if the text opens a shortcode.
   */
  function Opening(t: string): (d: Option<nat>)
    ensures d.Some? ==> HasPrefix(t, "{{<") && 3 <= d.value <= |t|
  {
    if !HasPrefix(t, "{{<") then None
    else
      var a := SkipSpaces(t, 3);
      var b := if HasPrefix(t[a..], "relref") then a + 6 else if HasPrefix(t[a..], "ref") then a + 3 else 0;
      if b == 0 then None
      else
        var c := SkipSpaces(t, b);
        if c == b then None
        else if c < |t| && IsQuote(t[c]) then Some(c + 1)
        else Some(c)
  }

  /**
   * The closing part `([^"'\s}]+)["']?\s*>\}\}` at the start of `u`: each
   * group takes as much as it can, except that the path gives back a final
   * `>` when `}}` follows it directly.
   */
  function Closing(u: string): (r: Option<Shortcode>)
    ensures r.Some? ==> 1 <= r.value.len <= |u|
    ensures r.Some? ==> r.value.path != "" && forall k :: 0 <= k < |r.value.path| ==> IsPathChar(r.value.path[k])
  {
    var e := SkipPath(u, 0);
    if e == 0 then None
    else
      var f := if e < |u| && IsQuote(u[e]) then e + 1 else e;
      var g := SkipSpaces(u, f);
      if HasPrefix(u[g..], ">}}") then Some(Shortcode(u[..e], g + 3))
      else if e >= 2 && u[e - 1] == '>' && HasPrefix(u[e..], "}}") then Some(Shortcode(u[..e - 1], e + 2))
      else None
  }

  /** The shortcode the pattern matches at the very start of `t`, if any. */
  function Match(t: string): (r: Option<Shortcode>)
    ensures r.Some? ==> HasPrefix(t, "{{<") && 3 <= r.value.len <= |t|
    ensures r.Some? ==> r.value.path != "" && forall k :: 0 <= k < |r.value.path| ==> IsPathChar(r.value.path[k])
  {
    match Opening(t)
    case None => None
    case Some(d) =>
      match Closing(t[d..])
      case None => None
      case Some(m) => Some(Shortcode(m.path, d + m.len))
  }

  /** The shortcode text a writer would type: keyword, one space, the path between optional quotes. */
  function Render(keyword: string, quote: string, path: string): string {
    "{{< " + keyword + " " + quote + path + quote + " >}}"
  }

  /** The shortcode's path split at its last `#`: the article path and the anchor (with its `#`). */
  function SplitAnchor(ref: string): (r: (string, string))
    ensures r.0 + r.1 == ref
    ensures r.1 == "" <==> '#' !in ref
    ensures r.1 != "" ==> r.1[0] == '#' && '#' !in r.1[1..]
  {
    match LastIndexOf(ref, '#')
    case Some(i) => (ref[..i], ref[i..])
    case None => (ref, "")
  }

  /** findArticle's test of one article: the same relative path, or a path ending in `/` and it. */
  predicate PathMatches(path: string, relPath: string) {
    relPath == path || (HasSuffix(path, relPath) && HasSuffix(path, "/" + relPath))
  }

  /** findArticle: the index of the first article, from `from` on, whose relative path matches. */
  function FindArticle(articles: seq<Article>, path: string, from: nat): (r: Option<nat>)
    requires from <= |articles|
    ensures r.Some? ==> from <= r.value < |articles| && PathMatches(path, articles[r.value].RelPath)
    ensures r.Some? ==> forall k :: from <= k < r.value ==> !PathMatches(path, articles[k].RelPath)
    ensures r.None? ==> forall k :: from <= k < |articles| ==> !PathMatches(path, articles[k].RelPath)
    decreases |articles| - from
  {
    if from == |articles| then None
    else if PathMatches(path, articles[from].RelPath) then Some(from)
    else FindArticle(articles, path, from + 1)
  }

  /**
   * The article a reference resolves to: the path itself, or else the same
   * path with extension `.md`, then `.adoc`, skipping the candidate that is
   * the path itself. A result matches the reference or one of the two
   * candidates; there is none exactly when no article matches the reference
   * and, for a reference with an extension, none matches a candidate other
   * than the reference.
   */
  function Lookup(articles: seq<Article>, refPath: string): (r: Option<nat>)
    ensures var base := TrimSuffix(refPath, Ext(refPath));
      r.Some? ==>
        (r.value < |articles| &&
         (PathMatches(refPath, articles[r.value].RelPath) ||
          PathMatches(base + ".md", articles[r.value].RelPath) ||
          PathMatches(base + ".adoc", articles[r.value].RelPath)))
    ensures var base := TrimSuffix(refPath, Ext(refPath));
      var md, adoc := base + ".md", base + ".adoc";
      r.None? <==>
        (forall k :: 0 <= k < |articles| ==> !PathMatches(refPath, articles[k].RelPath)) &&
        (Ext(refPath) != "" ==> forall k :: 0 <= k < |articles| ==>
          (md != refPath ==> !PathMatches(md, articles[k].RelPath)) &&
          (adoc != refPath ==> !PathMatches(adoc, articles[k].RelPath)))
  {
    match FindArticle(articles, refPath, 0)
    case Some(i) => Some(i)
    case None =>
      var ext := Ext(refPath);
      if ext == "" then None
      else
        var base := TrimSuffix(refPath, ext);
        var md := if base + ".md" == refPath then None else FindArticle(articles, base + ".md", 0);
        if md.Some? then md
        else if base + ".adoc" == refPath then None
        else FindArticle(articles, base + ".adoc", 0)
  }

  const NotFoundPrefix := "#relref-not-found-"

  /** What one shortcode is replaced by: a published URL, a local preview URL, or a broken-link marker. */
  function Link(articles: seq<Article>, baseURL: string, ref: string): string {
    var (path, anchor) := SplitAnchor(ref);
    match Lookup(articles, path)
    case Some(i) =>
      var art := articles[i];
      if baseURL != "" then
        TrimRight(baseURL, {'/'}) + "/posts/" + art.Series + "/" + (if art.Slug == "" then art.ID else art.Slug) + "/" + anchor
      else "/article/" + art.ID + anchor
    case None => NotFoundPrefix + path
  }

  /** replaceRelRef: every shortcode, leftmost first and without overlap, replaced by its link. */
  function ReplaceRelRefs(articles: seq<Article>, baseURL: string, t: string): string
    decreases |t|
  {
    if |t| == 0 then ""
    else match Match(t)
      case Some(m) => Link(articles, baseURL, m.path) + ReplaceRelRefs(articles, baseURL, t[m.len..])
      case None => [t[0]] + ReplaceRelRefs(articles, baseURL, t[1..])
  }

  // ---------------------------------------------------------------------
  // Properties of the rewriting.
  // ---------------------------------------------------------------------

  /** A run of `\s` that ends before a character outside the class. */
  lemma {:induction false} SkipSpacesTo(t: string, i: nat, j: nat)
    requires i <= j < |t| && t[j] !in Spaces
    requires forall k :: i <= k < j ==> t[k] in Spaces
    ensures SkipSpaces(t, i) == j
    decreases j - i
  {
    if i < j {
      SkipSpacesTo(t, i + 1, j);
    }
  }

  /** A run of path characters that ends before a character outside the class. */
  lemma {:induction false} SkipPathTo(t: string, i: nat, j: nat)
    requires i <= j < |t| && !IsPathChar(t[j])
    requires forall k :: i <= k < j ==> IsPathChar(t[k])
    ensures SkipPath(t, i) == j
    decreases j - i
  {
    if i < j {
      SkipPathTo(t, i + 1, j);
    }
  }

  /** The opening of a typed shortcode ends where its path (after the optional quote) begins. */
  lemma OpeningRender(keyword: string, quote: string, u: string)
    requires keyword == "relref" || keyword == "ref"
    requires quote == "" || quote == "\"" || quote == "'"
    requires u != [] && u[0] !in Spaces && (quote == "" ==> !IsQuote(u[0]))
    ensures Opening("{{< " + keyword + " " + quote + u) == Some(5 + |keyword| + |quote|)
  {
    var t := "{{< " + keyword + " " + quote + u;
    var b := 4 + |keyword|;
    assert t[..3] == "{{<";
    assert t[3] == ' ' && t[4] == 'r';
    SkipSpacesTo(t, 3, 4);
    assert t[4..][..|keyword|] == keyword;
    if keyword == "ref" {
      assert t[4..][2] == 'f';
    }
    assert t[b] == ' ';
    assert t[b + 1] == if quote == "" then u[0] else quote[0];
    SkipSpacesTo(t, b, b + 1);
  }

  /** The closing of a typed shortcode captures its whole path, whatever follows. */
  lemma ClosingRender(quote: string, path: string, rest: string)
    requires quote == "" || quote == "\"" || quote == "'"
    requires path != "" && forall k :: 0 <= k < |path| ==> IsPathChar(path[k])
    ensures Closing(path + quote + " >}}" + rest) == Some(Shortcode(path, |path| + |quote| + 4))
  {
    var u := path + quote + " >}}" + rest;
    var e := |path|;
    assert forall k :: 0 <= k < e ==> u[k] == path[k];
    assert u[e] == if quote == "" then ' ' else quote[0];
    SkipPathTo(u, 0, e);
    assert u[..e] == path;
    var f := e + |quote|;
    assert u[f] == ' ' && u[f + 1] == '>';
    SkipSpacesTo(u, f, f + 1);
    assert u[f + 1..][..3] == ">}}";
  }

  /** A typed shortcode followed by more text, cut where the path begins. */
  lemma RenderParts(keyword: string, quote: string, path: string, rest: string)
    ensures var t, d := Render(keyword, quote, path) + rest, 5 + |keyword| + |quote|;
      d <= |t| &&
      t == "{{< " + keyword + " " + quote + (path + quote + " >}}" + rest) &&
      t[d..] == path + quote + " >}}" + rest &&
      |Render(keyword, quote, path)| == d + |path| + |quote| + 4
  {
  }

  /** A shortcode as a writer types it is recognised, whatever follows it, and its path captured whole. */
  lemma MatchRender(keyword: string, quote: string, path: string, rest: string)
    requires keyword == "relref" || keyword == "ref"
    requires quote == "" || quote == "\"" || quote == "'"
    requires path != "" && forall k :: 0 <= k < |path| ==> IsPathChar(path[k])
    ensures Match(Render(keyword, quote, path) + rest) ==
      Some(Shortcode(path, |Render(keyword, quote, path)|))
  {
    var u := path + quote + " >}}" + rest;
    var t := Render(keyword, quote, path) + rest;
    var d := 5 + |keyword| + |quote|;
    var m := Shortcode(path, |path| + |quote| + 4);
    RenderParts(keyword, quote, path, rest);
    assert Opening(t) == Some(d) by {
      OpeningRender(keyword, quote, u);
    }
    assert Closing(t[d..]) == Some(m) by {
      ClosingRender(quote, path, rest);
    }
    MatchOf(t, d, m);
  }

  /** A match is an opening followed by a closing. */
  lemma MatchOf(t: string, d: nat, m: Shortcode)
    requires d <= |t| && Opening(t) == Some(d) && Closing(t[d..]) == Some(m)
    ensures Match(t) == Some(Shortcode(m.path, d + m.len))
  {
  }

  /** Text without `{` is left exactly as it is. */
  lemma {:induction false} NoShortcodeUnchanged(articles: seq<Article>, baseURL: string, t: string)
    requires '{' !in t
    ensures ReplaceRelRefs(articles, baseURL, t) == t
  {
    if |t| > 0 {
      assert t[0] != '{';
      assert '{' !in t[1..];
      NoShortcodeUnchanged(articles, baseURL, t[1..]);
    }
  }

  /**
   * Text before the first shortcode is kept, the shortcode becomes its link
   * and the rest is rewritten in turn.
   */
  lemma {:induction false} ShortcodeReplaced(articles: seq<Article>, baseURL: string,
                                             before: string, keyword: string, quote: string, path: string, rest: string)
    requires '{' !in before
    requires keyword == "relref" || keyword == "ref"
    requires quote == "" || quote == "\"" || quote == "'"
    requires path != "" && forall k :: 0 <= k < |path| ==> IsPathChar(path[k])
    ensures ReplaceRelRefs(articles, baseURL, before + Render(keyword, quote, path) + rest) ==
      before + Link(articles, baseURL, path) + ReplaceRelRefs(articles, baseURL, rest)
  {
    var sc := Render(keyword, quote, path);
    MatchRender(keyword, quote, path, rest);
    assert (sc + rest)[|sc|..] == rest;
    assert ReplaceRelRefs(articles, baseURL, sc + rest) ==
      Link(articles, baseURL, path) + ReplaceRelRefs(articles, baseURL, rest);
    TextKept(articles, baseURL, before, sc + rest);
    AppendAssoc(before, sc, rest);
    AppendAssoc(before, Link(articles, baseURL, path), ReplaceRelRefs(articles, baseURL, rest));
  }

  /** Text without `{` in front of anything is copied as it is. */
  lemma {:induction false} TextKept(articles: seq<Article>, baseURL: string, before: string, t: string)
    requires '{' !in before
    ensures ReplaceRelRefs(articles, baseURL, before + t) == before + ReplaceRelRefs(articles, baseURL, t)
  {
    if |before| > 0 {
      var s := before + t;
      assert s[0] == before[0];
      NoMatchWithoutBrace(s);
      assert s[1..] == before[1..] + t;
      TextKept(articles, baseURL, before[1..], t);
      assert before == [before[0]] + before[1..];
    } else {
      assert before + t == t;
    }
  }

  /** Nothing matches at a character other than `{`. */
  lemma NoMatchWithoutBrace(t: string)
    requires |t| > 0 && t[0] != '{'
    ensures Match(t) == None
  {
    assert !HasPrefix(t, "{{<");
  }

  /** A path given back: `ref foo>}}` with no space before `>}}` captures `foo`, not `foo>`. */
  lemma ClosingBracketGivenBack()
    ensures Closing("foo>}}") == Some(Shortcode("foo", 6))
  {
    var u := "foo>}}";
    SkipPathTo(u, 0, 4);
    SkipSpacesTo(u, 4, 4);
    assert u[4..] == "}}";
    assert !HasPrefix(u[4..], ">}}");
    assert u[..3] == "foo";
  }

  /** findArticle's boundary check: a match is the path itself or the path's tail after a `/`. */
  lemma PathMatchesBoundary(path: string, relPath: string)
    ensures PathMatches(path, relPath) <==> relPath == path || HasSuffix(path, "/" + relPath)
  {
    if HasSuffix(path, "/" + relPath) {
      assert path[|path| - |relPath|..] == path[|path| - |relPath| - 1..][1..];
    }
  }

  /** A Hugo-style reference with any leading directories finds the article: `posts/a/b.md` finds `a/b.md`. */
  lemma PrefixedPathMatches(prefix: string, relPath: string)
    ensures PathMatches(prefix + "/" + relPath, relPath)
  {
    var p := prefix + "/" + relPath;
    assert p[|p| - |relPath| - 1..] == "/" + relPath;
    PathMatchesBoundary(p, relPath);
  }

  /** The boundary check rejects a path that merely ends with the same characters. */
  lemma PartialNameRejected()
    ensures !PathMatches("ba/b.md", "a/b.md")
  {
    var p := "ba/b.md";
    assert p[0] == 'b';
    assert p[|p| - 7..] == p;
  }

  /** Without any matching article, a path with an extension is retried as `.md`, then `.adoc`. */
  lemma LookupFallback(articles: seq<Article>, base: string, ext: string)
    requires ext == ".md" || ext == ".adoc"
    requires FindArticle(articles, base + ext, 0).None?
    ensures ext == ".adoc" ==> Lookup(articles, base + ext) == FindArticle(articles, base + ".md", 0)
    ensures ext == ".md" ==> Lookup(articles, base + ext) == FindArticle(articles, base + ".adoc", 0)
  {
    var p := base + ext;
    assert p == base + "." + ext[1..];
    ExtAfterDot(base, ext[1..]);
    assert p[..|base|] == base;
  }

  /** The extension of a path whose last `.` is followed by `tail`. */
  lemma {:induction false} ExtAfterDot(prefix: string, tail: string)
    requires '.' !in tail && '/' !in tail
    ensures Ext(prefix + "." + tail) == "." + tail
  {
    var p := prefix + "." + tail;
    if tail == [] {
      assert p[|p| - 1] == '.';
    } else {
      var init := tail[..|tail| - 1];
      assert p[..|p| - 1] == prefix + "." + init;
      assert '.' !in init && '/' !in init by {
        assert forall k :: 0 <= k < |init| ==> init[k] == tail[k];
      }
      ExtAfterDot(prefix, init);
      assert p[|p| - 1] == tail[|tail| - 1];
      assert "." + init + [tail[|tail| - 1]] == "." + tail;
    }
  }

  /**
   * The order in which the lookup tries candidates, for every extension: the
   * reference itself; then, when it has an extension, `base.md` and `base.adoc`
   * in that order, each skipped when it is the reference itself.
   */
  lemma LookupOrder(articles: seq<Article>, refPath: string)
    ensures var direct, ext := FindArticle(articles, refPath, 0), Ext(refPath);
      var md, adoc := TrimSuffix(refPath, ext) + ".md", TrimSuffix(refPath, ext) + ".adoc";
      Lookup(articles, refPath) ==
        if direct.Some? then direct
        else if ext == "" then None
        else if md != refPath && FindArticle(articles, md, 0).Some? then FindArticle(articles, md, 0)
        else if adoc != refPath then FindArticle(articles, adoc, 0)
        else None
  {
  }

  /**
   * A reference with an anchor whose path the lookup resolves, directly or
   * through the other extension, renders without a base URL as the preview
   * URL of the article found, followed by the anchor.
   */
  lemma LocalLink(articles: seq<Article>, path: string, anchor: string, i: nat)
    requires anchor == "" ==> '#' !in path
    requires anchor == "" || (anchor[0] == '#' && '#' !in anchor[1..])
    requires Lookup(articles, path) == Some(i)
    ensures i < |articles|
    ensures Link(articles, "", path + anchor) == "/article/" + articles[i].ID + anchor
  {
    AnchorSplit(path, anchor);
  }

  /**
   * With a base URL the link of any resolved reference is the published URL: the base without trailing
   * slashes, the series, the slug (or the identifier when the slug is
   * empty), then a `/` and the anchor.
   */
  lemma PublishedLink(articles: seq<Article>, baseURL: string, path: string, anchor: string, i: nat)
    requires baseURL != ""
    requires anchor == "" ==> '#' !in path
    requires anchor == "" || (anchor[0] == '#' && '#' !in anchor[1..])
    requires Lookup(articles, path) == Some(i)
    ensures i < |articles|
    ensures var a := articles[i];
      Link(articles, baseURL, path + anchor) ==
        TrimRight(baseURL, {'/'}) + "/posts/" + a.Series + "/" + (if a.Slug == "" then a.ID else a.Slug) + "/" + anchor
  {
    AnchorSplit(path, anchor);
  }

  /** An unresolved reference becomes the broken-link marker for its path; the anchor is dropped. */
  lemma MissingLink(articles: seq<Article>, baseURL: string, path: string, anchor: string)
    requires anchor == "" ==> '#' !in path
    requires anchor == "" || (anchor[0] == '#' && '#' !in anchor[1..])
    requires Lookup(articles, path).None?
    ensures Link(articles, baseURL, path + anchor) == NotFoundPrefix + path
  {
    AnchorSplit(path, anchor);
  }

  /**
   * A reference splits at its last `#`: a path (which may itself hold `#`
   * when an anchor follows) and an anchor split back into the two.
   */
  lemma AnchorSplit(path: string, anchor: string)
    requires anchor == "" ==> '#' !in path
    requires anchor == "" || (anchor[0] == '#' && '#' !in anchor[1..])
    ensures SplitAnchor(path + anchor) == (path, anchor)
  {
    var s := path + anchor;
    if anchor == "" {
      assert s == path;
    } else {
      assert s[|path|] == '#';
      assert s[|path| + 1..] == anchor[1..];
      assert forall k :: 0 <= k < |path| ==> s[k] == path[k];
      var j := LastIndexOf(s, '#').value;
      assert j == |path|;
      assert s[..j] == path && s[j..] == anchor;
    }
  }
}
