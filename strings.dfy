/**
 * The parts of Go's `strings` package the blog tool relies on, over strings of
 * runes. Each function carries the contract Go documents for it, so that the
 * modules modelling the tool can reason about trimming, splitting and
 * replacing without unfolding the definitions.
 */
module GoStrings {
  import opened Wrappers

  /** The Unicode White_Space characters: exactly those Go's unicode.IsSpace accepts. */
  const WhiteSpace: set<char> := {
    '\t', '\n', '\U{0B}', '\U{0C}', '\r', ' ', '\U{85}', '\U{A0}', '\U{1680}',
    '\U{2000}', '\U{2001}', '\U{2002}', '\U{2003}', '\U{2004}', '\U{2005}',
    '\U{2006}', '\U{2007}', '\U{2008}', '\U{2009}', '\U{200A}',
    '\U{2028}', '\U{2029}', '\U{202F}', '\U{205F}', '\U{3000}'
  }

  predicate HasPrefix(s: string, prefix: string) { prefix <= s }

  predicate HasSuffix(s: string, suffix: string) {
    |suffix| <= |s| && s[|s| - |suffix|..] == suffix
  }

  function TrimPrefix(s: string, prefix: string): (r: string)
    ensures HasPrefix(s, prefix) ==> prefix + r == s
    ensures !HasPrefix(s, prefix) ==> r == s
  {
    if HasPrefix(s, prefix) then s[|prefix|..] else s
  }

  function TrimSuffix(s: string, suffix: string): (r: string)
    ensures HasSuffix(s, suffix) ==> r + suffix == s
    ensures !HasSuffix(s, suffix) ==> r == s
  {
    if HasSuffix(s, suffix) then s[..|s| - |suffix|] else s
  }

  /** strings.TrimLeft: drops the longest prefix made of characters of `cut`. */
  function TrimLeft(s: string, cut: set<char>): string {
    if |s| > 0 && s[0] in cut then TrimLeft(s[1..], cut) else s
  }

  /** strings.TrimRight: drops the longest suffix made of characters of `cut`. */
  function TrimRight(s: string, cut: set<char>): string {
    if |s| > 0 && s[|s| - 1] in cut then TrimRight(s[..|s| - 1], cut) else s
  }

  /** strings.Trim: both TrimLeft and TrimRight. */
  function Trim(s: string, cut: set<char>): string {
    TrimRight(TrimLeft(s, cut), cut)
  }

  /** strings.TrimSpace. */
  function TrimSpace(s: string): string {
    Trim(s, WhiteSpace)
  }

  // The contracts of the trimming functions are lemmas, so that texts
  // mentioning a trimmed line do not drag them into every proof.

  /** TrimLeft removes a prefix of `cut` characters, and the longest one. */
  lemma {:induction false} TrimLeftSpec(s: string, cut: set<char>)
    ensures var r := TrimLeft(s, cut);
      |r| <= |s| && r == s[|s| - |r|..] &&
      (forall i :: 0 <= i < |s| - |r| ==> s[i] in cut) &&
      (|r| > 0 ==> r[0] !in cut)
  {
    if |s| > 0 && s[0] in cut {
      TrimLeftSpec(s[1..], cut);
      var r := TrimLeft(s[1..], cut);
      forall i | 0 <= i < |s| - |r| ensures s[i] in cut {
        if i > 0 { assert s[i] == s[1..][i - 1]; }
      }
    }
  }

  /** TrimRight removes a suffix of `cut` characters, and the longest one. */
  lemma {:induction false} TrimRightSpec(s: string, cut: set<char>)
    ensures var r := TrimRight(s, cut);
      |r| <= |s| && r == s[..|r|] &&
      (forall i :: |r| <= i < |s| ==> s[i] in cut) &&
      (|r| > 0 ==> r[|r| - 1] !in cut)
  {
    if |s| > 0 && s[|s| - 1] in cut {
      TrimRightSpec(s[..|s| - 1], cut);
      var r := TrimRight(s[..|s| - 1], cut);
      forall i | |r| <= i < |s| ensures s[i] in cut {
        if i < |s| - 1 { assert s[i] == s[..|s| - 1][i]; }
      }
    }
  }

  /** Trim leaves a factor of `s` neither end of which is in `cut`. */
  lemma TrimSpec(s: string, cut: set<char>)
    ensures var r := Trim(s, cut);
      (|r| > 0 ==> r[0] !in cut && r[|r| - 1] !in cut) && Contains(s, r)
  {
    TrimLeftSpec(s, cut);
    var l := TrimLeft(s, cut);
    TrimRightSpec(l, cut);
    var r := TrimRight(l, cut);
    if |r| > 0 {
      assert r[0] == l[0];
    }
    assert OccursAt(s, r, |s| - |l|);
  }

  /** strings.Join. */
  function Join(parts: seq<string>, sep: string): string {
    if |parts| == 0 then ""
    else if |parts| == 1 then parts[0]
    else parts[0] + sep + Join(parts[1..], sep)
  }

  /** A join starts with the first character of its first part. */
  lemma JoinHead(parts: seq<string>, sep: string)
    requires |parts| > 0 && parts[0] != ""
    ensures |Join(parts, sep)| > 0 && Join(parts, sep)[0] == parts[0][0]
  {
    if |parts| > 1 {
      assert Join(parts, sep) == parts[0] + (sep + Join(parts[1..], sep));
    }
  }

  /** Parts free of a character, concatenated, are still free of it. */
  lemma NoCharInConcat(xs: seq<string>, ys: seq<string>, c: char)
    requires forall i :: 0 <= i < |xs| ==> c !in xs[i]
    requires forall i :: 0 <= i < |ys| ==> c !in ys[i]
    ensures forall i :: 0 <= i < |xs + ys| ==> c !in (xs + ys)[i]
  {
    forall i | 0 <= i < |xs + ys| ensures c !in (xs + ys)[i] {
      if i >= |xs| { assert (xs + ys)[i] == ys[i - |xs|]; }
    }
  }

  /** A common prefix leaves prefixes in place. */
  lemma PrefixAfter<T>(s: seq<T>, x: seq<T>, y: seq<T>)
    requires x <= y
    ensures s + x <= s + y
  {
    assert y == x + y[|x|..];
    AppendAssoc(s, x, y[|x|..]);
  }

  lemma JoinThree(a: string, b: string, c: string, sep: string)
    ensures Join([a, b, c], sep) == a + sep + b + sep + c
  {
    assert [a, b, c][1..] == [b, c];
    assert [b, c][1..] == [c];
    assert Join([b, c], sep) == b + sep + c;
  }

  lemma {:induction false} JoinCons(x: string, rest: seq<string>, sep: string)
    requires |rest| >= 1
    ensures Join([x] + rest, sep) == x + sep + Join(rest, sep)
  {
    assert ([x] + rest)[1..] == rest;
  }

  /**
   * strings.Split with a one-character separator: the pieces hold no
   * separator, and joining them back gives the input (JoinOfSplit). Those
   * two facts determine the result completely (SplitOfJoin).
   */
  function Split(s: string, c: char): (r: seq<string>)
    ensures |r| >= 1
    ensures forall i :: 0 <= i < |r| ==> c !in r[i]
  {
    if |s| == 0 then [""]
    else
      var rest := Split(s[1..], c);
      if s[0] == c then [""] + rest
      else [[s[0]] + rest[0]] + rest[1..]
  }

  /** Growing the first part at its front grows the join at its front. */
  lemma JoinGrowHead(x: string, parts: seq<string>, sep: string)
    requires |parts| >= 1
    ensures Join([x + parts[0]] + parts[1..], sep) == x + Join(parts, sep)
  {
    if |parts| > 1 {
      JoinCons(parts[0], parts[1..], sep);
      JoinCons(x + parts[0], parts[1..], sep);
      assert parts == [parts[0]] + parts[1..];
    }
  }

  /** The pieces of a split, joined by the separator, are the text again. */
  lemma {:induction false} JoinOfSplit(s: string, c: char)
    ensures Join(Split(s, c), [c]) == s
  {
    if |s| > 0 {
      var rest := Split(s[1..], c);
      JoinOfSplit(s[1..], c);
      if s[0] == c {
        JoinCons("", rest, [c]);
        assert s == [c] + s[1..];
      } else {
        JoinGrowHead([s[0]], rest, [c]);
        assert s == [s[0]] + s[1..];
      }
    }
  }

  /** Splitting a join of separator-free pieces gives the pieces back. */
  lemma {:induction false} SplitOfJoin(parts: seq<string>, c: char)
    requires |parts| >= 1
    requires forall i :: 0 <= i < |parts| ==> c !in parts[i]
    ensures Split(Join(parts, [c]), c) == parts
  {
    if |parts| == 1 {
      SplitNoSep(parts[0], c);
    } else {
      var rest := parts[1..];
      JoinCons(parts[0], rest, [c]);
      SplitOfJoin(rest, c);
      SplitAfterPiece(parts[0], Join(rest, [c]), c);
      assert parts == [parts[0]] + rest;
    }
  }

  /** Splitting the join of separator-free pieces with one piece left out gives the others back. */
  lemma SplitOfJoinWithout(parts: seq<string>, t: nat, c: char)
    requires t < |parts|
    requires forall i :: 0 <= i < |parts| ==> c !in parts[i]
    ensures Split(Join(parts[..t] + parts[t + 1..], [c]), c) ==
      if |parts| == 1 then [""] else parts[..t] + parts[t + 1..]
  {
    var rest := parts[..t] + parts[t + 1..];
    if |parts| == 1 {
      assert rest == [];
    } else {
      assert forall i :: 0 <= i < |rest| ==> rest[i] == parts[if i < t then i else i + 1];
      SplitOfJoin(rest, c);
    }
  }

  lemma {:induction false} SplitNoSep(s: string, c: char)
    requires c !in s
    ensures Split(s, c) == [s]
  {
    if |s| > 0 {
      SplitNoSep(s[1..], c);
      assert s == [s[0]] + s[1..];
    }
  }

  lemma {:induction false} SplitAfterPiece(x: string, t: string, c: char)
    requires c !in x
    ensures Split(x + [c] + t, c) == [x] + Split(t, c)
  {
    if |x| == 0 {
      assert x + [c] + t == [c] + t;
      assert ([c] + t)[1..] == t;
    } else {
      SplitAfterPiece(x[1..], t, c);
      assert (x + [c] + t)[1..] == x[1..] + [c] + t;
      assert [x[0]] + x[1..] == x;
    }
  }

  /** The text before the first `c`: `strings.Split(s, c)[0]`. */
  function Before(s: string, c: char): (r: string)
    ensures r <= s
    ensures c !in r
    ensures |r| < |s| ==> s[|r|] == c
  {
    if |s| == 0 || s[0] == c then "" else [s[0]] + Before(s[1..], c)
  }

  lemma {:induction false} BeforeIsFirstPiece(s: string, c: char)
    ensures Before(s, c) == Split(s, c)[0]
  {
    if |s| > 0 {
      BeforeIsFirstPiece(s[1..], c);
    }
  }

  /** The text before the first `c` is pinned down by where that `c` is. */
  lemma {:induction false} BeforeAt(s: string, c: char, n: nat)
    requires n <= |s| && c !in s[..n]
    requires n < |s| ==> s[n] == c
    ensures Before(s, c) == s[..n]
  {
    if n > 0 {
      assert s[0] == s[..n][0];
      assert s[1..][..n - 1] == s[..n][1..];
      BeforeAt(s[1..], c, n - 1);
      assert s[..n] == [s[0]] + s[1..][..n - 1];
    }
  }

  /** strings.LastIndex for a one-character needle. */
  function LastIndexOf(s: string, c: char): (r: Option<nat>)
    ensures r.Some? ==> r.value < |s| && s[r.value] == c && c !in s[r.value + 1..]
    ensures r.None? ==> c !in s
  {
    if |s| == 0 then None
    else if s[|s| - 1] == c then Some(|s| - 1)
    else
      var pre := s[..|s| - 1];
      var r := LastIndexOf(pre, c);
      assert s == pre + [s[|s| - 1]];
      assert r.Some? ==> s[r.value + 1..] == pre[r.value + 1..] + [s[|s| - 1]];
      r
  }

  /** A suffix free of `c` is a suffix of what follows any `c` in the text. */
  lemma SuffixAfter(q: string, i: nat, e: string, c: char)
    requires i < |q| && q[i] == c && HasSuffix(q, e) && c !in e
    ensures HasSuffix(q[i + 1..], e)
  {
    forall j | |q| - |e| <= j < |q| ensures q[j] != c {
      assert q[j] == e[j - (|q| - |e|)];
    }
    assert q[i + 1..][|q| - i - 1 - |e|..] == q[|q| - |e|..];
  }

  predicate OccursAt(s: string, pat: string, i: int) {
    0 <= i && i + |pat| <= |s| && s[i..i + |pat|] == pat
  }

  predicate Contains(s: string, pat: string) {
    exists i :: 0 <= i <= |s| && OccursAt(s, pat, i)
  }

  /**
   * strings.ReplaceAll: non-overlapping occurrences of `pat`, found left to
   * right, are replaced by `repl`. An empty `pat` matches before every rune
   * and at the end.
   */
  function ReplaceAll(s: string, pat: string, repl: string): string
    decreases |s|
  {
    if |pat| == 0 then
      if |s| == 0 then repl else repl + [s[0]] + ReplaceAll(s[1..], pat, repl)
    else if |s| == 0 then ""
    else if pat <= s then repl + ReplaceAll(s[|pat|..], pat, repl)
    else [s[0]] + ReplaceAll(s[1..], pat, repl)
  }

  /** Text without an occurrence of the pattern is left exactly as it is. */
  lemma {:induction false} ReplaceAllAbsent(s: string, pat: string, repl: string)
    requires |pat| > 0 && !Contains(s, pat)
    ensures ReplaceAll(s, pat, repl) == s
  {
    if |s| > 0 {
      assert !OccursAt(s, pat, 0);
      assert !(pat <= s);
      forall i | OccursAt(s[1..], pat, i) ensures false {
        assert s[i + 1..i + 1 + |pat|] == s[1..][i..i + |pat|];
        assert OccursAt(s, pat, i + 1);
      }
      ReplaceAllAbsent(s[1..], pat, repl);
      assert s == [s[0]] + s[1..];
    }
  }

  /** Where the pattern occurs, the replacement occurs in the result. */
  lemma {:induction false} ReplaceAllIntroduces(s: string, pat: string, repl: string)
    requires |pat| > 0 && Contains(s, pat)
    ensures Contains(ReplaceAll(s, pat, repl), repl)
  {
    var r := ReplaceAll(s, pat, repl);
    if pat <= s {
      assert r[0..|repl|] == repl;
      assert OccursAt(r, repl, 0);
    } else {
      var i :| 0 <= i <= |s| && OccursAt(s, pat, i);
      assert i != 0;
      assert s[1..][i - 1..i - 1 + |pat|] == s[i..i + |pat|];
      assert OccursAt(s[1..], pat, i - 1);
      ReplaceAllIntroduces(s[1..], pat, repl);
      var t := ReplaceAll(s[1..], pat, repl);
      var j :| 0 <= j <= |t| && OccursAt(t, repl, j);
      assert r == [s[0]] + t;
      assert r[j + 1..j + 1 + |repl|] == t[j..j + |repl|];
      assert OccursAt(r, repl, j + 1);
    }
  }

  /** Replacing a one-character pattern works piece by piece. */
  lemma {:induction false} ReplaceAllConcat(x: string, y: string, c: char, repl: string)
    ensures ReplaceAll(x + y, [c], repl) == ReplaceAll(x, [c], repl) + ReplaceAll(y, [c], repl)
  {
    if |x| == 0 {
      assert x + y == y;
    } else {
      var xy := x + y;
      ReplaceAllConcat(x[1..], y, c, repl);
      assert xy[1..] == x[1..] + y && xy[0] == x[0];
      SingletonPrefix(c, xy);
      SingletonPrefix(c, x);
    }
  }

  /** A one-character prefix is a test of the first character. */
  lemma SingletonPrefix(c: char, s: string)
    ensures ([c] <= s) == (|s| > 0 && s[0] == c)
  {
    if |s| > 0 {
      assert ([c] == s[..1]) == (c == s[0]);
    }
  }

  /** On a single character: replaced when it is `c`, kept otherwise. */
  lemma ReplaceAllChar(d: char, c: char, repl: string)
    ensures ReplaceAll([d], [c], repl) == if d == c then repl else [d]
  {
    assert [d][1..] == [] && [d][|[c]|..] == [];
    assert [d][..1] == [d] && ([c] == [d] <==> c == d);
    assert ([c] <= [d]) == (c == d);
    assert ReplaceAll([], [c], repl) == "";
  }

  /** After replacing every `c` by a text without `c`, no `c` is left. */
  lemma {:induction false} ReplaceAllRemoves(s: string, c: char, repl: string)
    requires c !in repl
    ensures c !in ReplaceAll(s, [c], repl)
  {
    if |s| > 0 {
      ReplaceAllRemoves(s[1..], c, repl);
    }
  }

  /** A text splits into more than one piece exactly when it holds the separator. */
  lemma SplitManyPieces(s: string, c: char)
    ensures |Split(s, c)| > 1 <==> c in s
  {
    if c in s {
      JoinOfSplit(s, c);
    } else {
      SplitNoSep(s, c);
    }
  }

  /** Concatenation is associative; stated once so that proofs need not rediscover it. */
  lemma AppendAssoc<T>(a: seq<T>, b: seq<T>, c: seq<T>)
    ensures a + b + c == a + (b + c)
  {
  }
}
