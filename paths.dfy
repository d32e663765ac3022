/**
 * Go's `path/filepath` on a Unix host (separator '/'): the lexical path
 * operations the blog tool uses to locate articles and images. `ToSlash` is
 * the identity on such a host and does not appear.
 */
module GoPaths {
  import opened Wrappers
  import opened GoStrings

  predicate IsAbs(p: string) { |p| > 0 && p[0] == '/' }

  /** An element that survives cleaning a rooted path. */
  predicate Normal(e: string) { e != "" && e != "." && e != ".." && '/' !in e }

  predicate AllNormal(es: seq<string>) { forall i :: 0 <= i < |es| ==> Normal(es[i]) }

  /** One step of Clean's lexical processing: drop empty and `.` elements, let `..` eat its parent. */
  function PushElem(stack: seq<string>, elem: string, rooted: bool): seq<string> {
    if elem == "" || elem == "." then stack
    else if elem == ".." then
      if |stack| > 0 && stack[|stack| - 1] != ".." then stack[..|stack| - 1]
      else if rooted then stack
      else stack + [".."]
    else stack + [elem]
  }

  function CleanElems(elems: seq<string>, rooted: bool, stack: seq<string>): (r: seq<string>)
    requires forall i :: 0 <= i < |elems| ==> '/' !in elems[i]
    ensures rooted && AllNormal(stack) ==> AllNormal(r)
    decreases |elems|
  {
    if |elems| == 0 then stack
    else CleanElems(elems[1..], rooted, PushElem(stack, elems[0], rooted))
  }

  /** The elements that remain of a path once it is cleaned, in order. */
  function Elements(p: string): (r: seq<string>)
    ensures IsAbs(p) ==> AllNormal(r)
  {
    CleanElems(Split(p, '/'), IsAbs(p), [])
  }

  /**
   * filepath.Clean: no empty or `.` element remains, `..` eats the element
   * before it, `..` at the root is dropped, and an empty relative result is `.`.
   */
  function Clean(p: string): (r: string)
    ensures IsAbs(p) ==> IsAbs(r)
  {
    var body := Join(Elements(p), "/");
    if IsAbs(p) then "/" + body
    else if body == "" then "."
    else body
  }

  /** filepath.Join of two elements: the non-empty ones joined by `/`, then cleaned. */
  function JoinPath(a: string, b: string): (r: string)
    ensures IsAbs(a) ==> IsAbs(r)
  {
    if a == "" && b == "" then ""
    else if a == "" then Clean(b)
    else if b == "" then Clean(a)
    else Clean(a + "/" + b)
  }

  /** filepath.Dir of a rooted path: everything before the last separator, cleaned. */
  function Dir(p: string): (r: string)
    requires IsAbs(p)
    ensures IsAbs(r)
  {
    var i := LastIndexOf(p, '/');
    assert i.Some?;
    Clean(p[..i.value + 1])
  }

  /** filepath.Base: the last element after trailing separators are removed. */
  function Base(p: string): (r: string)
    ensures r != ""
    ensures r != "/" ==> '/' !in r
  {
    if p == "" then "."
    else
      var q := TrimRight(p, {'/'});
      TrimRightSpec(p, {'/'});
      if q == "" then "/"
      else match LastIndexOf(q, '/')
        case Some(i) => q[i + 1..]
        case None => q
  }

  /**
   * filepath.Ext: the suffix from the last `.` of the final element, or ""
   * when that element has no `.`.
   */
  function Ext(p: string): (e: string)
    ensures HasSuffix(p, e)
    ensures e != "" ==> e[0] == '.' && '.' !in e[1..] && '/' !in e
    ensures e == "" ==> forall i :: 0 <= i < |p| && '/' !in p[i..] ==> p[i] != '.'
  {
    if |p| == 0 || p[|p| - 1] == '/' then ""
    else if p[|p| - 1] == '.' then "."
    else
      var e := Ext(p[..|p| - 1]);
      if e == "" then
        assert forall i :: 0 <= i < |p| - 1 ==> p[i..] == p[..|p| - 1][i..] + [p[|p| - 1]];
        ""
      else
        assert p == p[..|p| - 1] + [p[|p| - 1]];
        e + [p[|p| - 1]]
  }

  /** The length of the longest common prefix of two element lists. */
  function CommonPrefix(a: seq<string>, b: seq<string>): (n: nat)
    ensures n <= |a| && n <= |b| && a[..n] == b[..n]
    ensures n < |a| && n < |b| ==> a[n] != b[n]
  {
    if |a| > 0 && |b| > 0 && a[0] == b[0] then
      var n := CommonPrefix(a[1..], b[1..]);
      assert a[..n + 1] == [a[0]] + a[1..][..n];
      assert b[..n + 1] == [b[0]] + b[1..][..n];
      n + 1
    else 0
  }

  /** The common prefix is the first place where the sequences differ. */
  lemma CommonPrefixAt(a: seq<string>, b: seq<string>, n: nat)
    requires n <= |a| && n <= |b| && a[..n] == b[..n]
    requires n < |a| && n < |b| ==> a[n] != b[n]
    ensures CommonPrefix(a, b) == n
  {
    var m := CommonPrefix(a, b);
    assert forall k :: 0 <= k < n ==> a[k] == b[k] by {
      forall k | 0 <= k < n ensures a[k] == b[k] { assert a[..n][k] == b[..n][k]; }
    }
    assert forall k :: 0 <= k < m ==> a[k] == b[k] by {
      forall k | 0 <= k < m ensures a[k] == b[k] { assert a[..m][k] == b[..m][k]; }
    }
  }

  function Repeat(e: string, n: nat): (r: seq<string>)
    ensures |r| == n && forall i :: 0 <= i < n ==> r[i] == e
  {
    if n == 0 then [] else Repeat(e, n - 1) + [e]
  }

  /**
   * filepath.Rel for two rooted paths: climb with `..` out of the elements of
   * `base` not shared with `targ`, then descend into the rest of `targ`.
   * Between rooted paths Go's Rel never reports an error.
   */
  function Rel(base: string, targ: string): (r: string)
    requires IsAbs(base) && IsAbs(targ)
    ensures r != ""
  {
    var b := Elements(base);
    var t := Elements(targ);
    if b == t then "."
    else
      var rel := RelParts(b, t);
      JoinNonEmpty(rel, "/");
      Join(rel, "/")
  }

  /** The elements of a relative path from `b` to `t`: `..` for each unshared element of `b`, then the rest of `t`. */
  function RelParts(b: seq<string>, t: seq<string>): (r: seq<string>)
    requires AllNormal(b) && AllNormal(t) && b != t
    ensures |r| > 0 && r[0] != ""
    ensures forall i :: 0 <= i < |r| ==> '/' !in r[i]
  {
    var n := CommonPrefix(b, t);
    var ups := Repeat("..", |b| - n);
    var down := t[n..];
    assert forall i :: 0 <= i < |down| ==> '/' !in down[i] by {
      forall i | 0 <= i < |down| ensures '/' !in down[i] { assert down[i] == t[n + i] && Normal(t[n + i]); }
    }
    assert |ups| == 0 ==> |down| > 0 && down[0] != "" by {
      if |ups| == 0 {
        assert b == t[..n];
        assert down[0] == t[n] && Normal(t[n]);
      }
    }
    NoCharInConcat(ups, down, '/');
    ups + down
  }

  lemma {:induction false} JoinNonEmpty(parts: seq<string>, sep: string)
    requires |parts| > 0 && parts[0] != ""
    ensures Join(parts, sep) != ""
  {
    if |parts| > 1 {
      assert Join(parts, sep)[..|parts[0]|] == parts[0];
    }
  }

  // ---------------------------------------------------------------------
  // Properties of the lexical operations.
  // ---------------------------------------------------------------------

  lemma {:induction false} JoinAppend(p: seq<string>, q: seq<string>, sep: string)
    requires |p| > 0 && |q| > 0
    ensures Join(p + q, sep) == Join(p, sep) + sep + Join(q, sep)
  {
    if |p| == 1 {
      JoinCons(p[0], q, sep);
      assert p + q == [p[0]] + q;
    } else {
      JoinAppend(p[1..], q, sep);
      assert (p + q)[1..] == p[1..] + q;
    }
  }

  /** Extending a sequence of parts extends their join. */
  lemma JoinExtends(b: seq<string>, t: seq<string>, sep: string)
    requires |b| > 0 && b <= t
    ensures Join(b, sep) <= Join(t, sep)
  {
    var rest := t[|b|..];
    assert t == b + rest;
    if |rest| > 0 {
      JoinAppend(b, rest, sep);
      AppendAssoc(Join(b, sep), sep, Join(rest, sep));
    }
  }

  /** A separator between two texts separates their pieces. */
  lemma SplitAround(a: string, b: string, c: char)
    ensures Split(a + [c] + b, c) == Split(a, c) + Split(b, c)
  {
    var pa, pb := Split(a, c), Split(b, c);
    JoinOfSplit(a, c);
    JoinOfSplit(b, c);
    JoinAppend(pa, pb, [c]);
    SplitOfJoin(pa + pb, c);
  }

  lemma {:induction false} CleanElemsAppend(xs: seq<string>, ys: seq<string>, stack: seq<string>)
    requires forall i :: 0 <= i < |xs| ==> '/' !in xs[i]
    requires forall i :: 0 <= i < |ys| ==> '/' !in ys[i]
    ensures CleanElems(xs + ys, true, stack) == CleanElems(ys, true, CleanElems(xs, true, stack))
  {
    if |xs| > 0 {
      assert (xs + ys)[1..] == xs[1..] + ys;
      CleanElemsAppend(xs[1..], ys, PushElem(stack, xs[0], true));
    } else {
      assert xs + ys == ys;
    }
  }

  /** Cleaning already-normal elements just pushes them. */
  lemma {:induction false} CleanElemsNormal(xs: seq<string>, rooted: bool, stack: seq<string>)
    requires AllNormal(xs)
    ensures CleanElems(xs, rooted, stack) == stack + xs
  {
    if |xs| > 0 {
      CleanElemsNormal(xs[1..], rooted, stack + [xs[0]]);
      assert stack + [xs[0]] + xs[1..] == stack + xs;
    }
  }

  /** Each `..` removes one element, as long as elements remain. */
  lemma {:induction false} CleanElemsUp(n: nat, stack: seq<string>)
    requires AllNormal(stack) && n <= |stack|
    ensures CleanElems(Repeat("..", n), true, stack) == stack[..|stack| - n]
  {
    if n > 0 {
      var ups := Repeat("..", n);
      assert ups == Repeat("..", n - 1) + [".."];
      CleanElemsAppend(Repeat("..", n - 1), [".."], stack);
      CleanElemsUp(n - 1, stack);
      var s := stack[..|stack| - (n - 1)];
      assert PushElem(s, "..", true) == s[..|s| - 1];
      assert s[..|s| - 1] == stack[..|stack| - n];
    }
  }

  /** The pieces of a rooted path `"/" + Join(es)` clean back to `es`. */
  lemma ElementsOfRooted(es: seq<string>)
    requires AllNormal(es)
    ensures Elements("/" + Join(es, "/")) == es
  {
    var j := Join(es, "/");
    var s := "/" + j;
    assert s == [] + ['/'] + j;
    SplitAround([], j, '/');
    if |es| == 0 {
      assert Split(s, '/') == ["", ""];
      assert CleanElems(["", ""], true, []) == CleanElems([""], true, []);
    } else {
      SplitOfJoin(es, '/');
      assert Split(s, '/') == [""] + es;
      CleanElemsAppend([""], es, []);
      CleanElemsNormal(es, true, []);
    }
  }

  /** A rooted path made of normal elements is clean. */
  lemma CleanRooted(es: seq<string>)
    requires AllNormal(es)
    ensures Elements("/" + Join(es, "/")) == es
    ensures Clean("/" + Join(es, "/")) == "/" + Join(es, "/")
  {
    ElementsOfRooted(es);
  }

  /** A relative path of normal elements is already clean. */
  lemma CleanRelative(es: seq<string>)
    requires AllNormal(es) && |es| > 0
    ensures Clean(Join(es, "/")) == Join(es, "/")
  {
    var p := Join(es, "/");
    assert es[0] != "" && es[0][0] != '/' by { assert Normal(es[0]); }
    JoinHead(es, "/");
    assert Split(p, '/') == es by {
      assert "/" == ['/'];
      assert forall i :: 0 <= i < |es| ==> Normal(es[i]);
      SplitOfJoin(es, '/');
    }
    CleanElemsNormal(es, false, []);
    assert [] + es == es;
  }

  /** filepath.Clean is idempotent. */
  lemma CleanIdempotent(p: string)
    requires IsAbs(p)
    ensures Clean(Clean(p)) == Clean(p)
  {
    ElementsOfRooted(Elements(p));
  }

  lemma {:induction false} ElementsOfJoin(dir: string, rel: string)
    requires IsAbs(dir)
    ensures Elements(dir + "/" + rel) == CleanElems(Split(rel, '/'), true, Elements(dir))
  {
    SplitAround(dir, rel, '/');
    assert dir + "/" + rel == dir + ['/'] + rel;
    CleanElemsAppend(Split(dir, '/'), Split(rel, '/'), []);
  }

  /**
   * The promise of filepath.Rel: joining `base` with `Rel(base, targ)` gives
   * a path lexically equal to `targ`.
   */
  lemma RelRoundTrip(base: string, targ: string)
    requires IsAbs(base) && IsAbs(targ)
    ensures JoinPath(base, Rel(base, targ)) == Clean(targ)
  {
    var rel := Rel(base, targ);
    ElementsOfJoin(base, rel);
    assert Elements(base + "/" + rel) == Elements(targ) by {
      if Elements(base) == Elements(targ) {
        SplitNoSep(".", '/');
      } else {
        RelElements(base, targ);
      }
    }
  }

  /** From a directory to a path below it, Rel is the path's remaining elements. */
  lemma RelBelow(base: string, targ: string)
    requires IsAbs(base) && IsAbs(targ)
    requires Elements(base) <= Elements(targ) && Elements(base) != Elements(targ)
    ensures var b, t := Elements(base), Elements(targ);
      |b| < |t| && Rel(base, targ) == Join(t[|b|..], "/")
  {
    var b, t := Elements(base), Elements(targ);
    CommonPrefixAt(b, t, |b|);
    assert RelParts(b, t) == t[|b|..] by {
      assert Repeat("..", 0) == [];
    }
  }

  /** Cleaning the pieces of a differing Rel on top of `base` reaches `targ`. */
  lemma RelElements(base: string, targ: string)
    requires IsAbs(base) && IsAbs(targ) && Elements(base) != Elements(targ)
    ensures CleanElems(Split(Rel(base, targ), '/'), true, Elements(base)) == Elements(targ)
  {
    var b, t := Elements(base), Elements(targ);
    var parts := RelParts(b, t);
    assert Split(Rel(base, targ), '/') == parts by {
      assert Rel(base, targ) == Join(parts, "/");
      assert "/" == ['/'];
      SplitOfJoin(parts, '/');
    }
    RelPartsClean(b, t);
  }

  /** Both parts of a list of normal elements are normal. */
  lemma AllNormalParts(es: seq<string>, n: nat)
    requires AllNormal(es) && n <= |es|
    ensures AllNormal(es[..n]) && AllNormal(es[n..]) && es[..n] + es[n..] == es
  {
    forall i | 0 <= i < n ensures Normal(es[..n][i]) {
      assert es[..n][i] == es[i];
    }
    forall i | 0 <= i < |es| - n ensures Normal(es[n..][i]) {
      assert es[n..][i] == es[n + i];
    }
  }

  /** Cleaning the `..` steps and the rest of `t` on top of `b` reaches `t`. */
  lemma RelPartsClean(b: seq<string>, t: seq<string>)
    requires AllNormal(b) && AllNormal(t) && b != t
    ensures CleanElems(RelParts(b, t), true, b) == t
  {
    var n := CommonPrefix(b, t);
    assert RelParts(b, t) == Repeat("..", |b| - n) + t[n..];
    AllNormalParts(t, n);
    UpThenDown(b, n, t[n..]);
    assert b[..n] + t[n..] == t[..n] + t[n..] == t;
  }

  /** Climbing `|b| - n` levels from `b`, then descending into normal elements, gives `b[..n]` followed by them. */
  lemma UpThenDown(b: seq<string>, n: nat, rest: seq<string>)
    requires AllNormal(b) && n <= |b| && AllNormal(rest)
    ensures CleanElems(Repeat("..", |b| - n) + rest, true, b) == b[..n] + rest
  {
    var ups := Repeat("..", |b| - n);
    AllNormalParts(b, n);
    assert '/' !in "..";
    CleanElemsAppend(ups, rest, b);
    CleanElemsUp(|b| - n, b);
    CleanElemsNormal(rest, true, b[..n]);
  }
}
