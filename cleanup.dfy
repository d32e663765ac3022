/**
 * The two line-based rewriters of main.go that prepare an article for
 * preview and publishing: removeFrontmatter and removeTitle.
 */
module Cleanup {
  import opened Wrappers
  import opened GoStrings
  import opened Lines

  const Bom := "\U{FEFF}"

  /** The lines of a text once CRLF line ends are normalised to LF. */
  function NormalisedLines(c: string): seq<string> {
    Split(ReplaceAll(c, "\r\n", "\n"), '\n')
  }

  /**
   * What removeFrontmatter returns: the text minus a leading byte-order mark
   * and, when it opens with `---` and has two delimiter lines, everything up
   * to and including the second one.
   */
  function WithoutFrontmatter(content: string): string {
    StripBlock(TrimPrefix(content, Bom))
  }

  /** removeFrontmatter once the byte-order mark is gone. */
  function StripBlock(c: string): string {
    if !HasPrefix(TrimSpace(c), Delimiter) then c
    else
      var lines := NormalisedLines(c);
      match FirstLine(lines, DelimiterLine, 0)
      case None => c
      case Some(s) =>
        match FirstLine(lines, DelimiterLine, s + 1)
        case None => c
        case Some(e) => Join(lines[e + 1..], "\n")
  }

  /** removeFrontmatter, with its two-index scan for the delimiter lines. */
  method RemoveFrontmatter(content: string) returns (r: string)
    ensures r == WithoutFrontmatter(content)
  {
    var c := TrimPrefix(content, Bom);
    if !HasPrefix(TrimSpace(c), Delimiter) {
      return c;
    }
    var normalized := ReplaceAll(c, "\r\n", "\n");
    var lines := Split(normalized, '\n');
    var endIndex := -1;
    var startIndex := -1;
    var i := 0;
    while i < |lines|
      invariant 0 <= i <= |lines|
      invariant endIndex == -1
      invariant startIndex == -1 ==> forall k :: 0 <= k < i ==> !Is(DelimiterLine, lines[k])
      invariant startIndex != -1 ==> 0 <= startIndex < i && Is(DelimiterLine, lines[startIndex])
      invariant startIndex != -1 ==> forall k :: 0 <= k < i && k != startIndex ==> !Is(DelimiterLine, lines[k])
    {
      if Is(DelimiterLine, lines[i]) {
        if startIndex == -1 {
          startIndex := i;
        } else {
          endIndex := i;
          break;
        }
      }
      i := i + 1;
    }
    ScanDone(c, startIndex, endIndex);
    if startIndex != -1 && endIndex != -1 {
      return Join(lines[endIndex + 1..], "\n");
    }
    return c;
  }

  /** What the delimiter scan of removeFrontmatter has found once it stops. */
  lemma ScanDone(c: string, startIndex: int, endIndex: int)
    requires HasPrefix(TrimSpace(c), Delimiter)
    requires var lines := NormalisedLines(c);
      -1 <= startIndex < |lines| && -1 <= endIndex < |lines| &&
      (startIndex == -1 ==> endIndex == -1 && forall k :: 0 <= k < |lines| ==> !Is(DelimiterLine, lines[k])) &&
      (startIndex != -1 ==> Is(DelimiterLine, lines[startIndex]) && forall k :: 0 <= k < startIndex ==> !Is(DelimiterLine, lines[k])) &&
      (startIndex != -1 && endIndex == -1 ==> forall k :: startIndex < k < |lines| ==> !Is(DelimiterLine, lines[k])) &&
      (startIndex != -1 && endIndex != -1 ==>
        (startIndex < endIndex && Is(DelimiterLine, lines[endIndex]) &&
         forall k :: startIndex < k < endIndex ==> !Is(DelimiterLine, lines[k])))
    ensures StripBlock(c) == if startIndex != -1 && endIndex != -1 then Join(NormalisedLines(c)[endIndex + 1..], "\n") else c
  {
    var lines := NormalisedLines(c);
    if startIndex == -1 {
      FirstLineNone(lines, DelimiterLine, 0);
    } else {
      FirstLineUnique(lines, DelimiterLine, 0, startIndex);
      if endIndex == -1 {
        FirstLineNone(lines, DelimiterLine, startIndex + 1);
      } else {
        FirstLineUnique(lines, DelimiterLine, startIndex + 1, endIndex);
      }
    }
  }

  /** Text that neither carries a byte-order mark nor opens with `---` comes back unchanged. */
  lemma NoFrontmatterUnchanged(content: string)
    requires !HasPrefix(content, Bom)
    requires !HasPrefix(TrimSpace(content), Delimiter)
    ensures WithoutFrontmatter(content) == content
  {
  }

  /** A leading byte-order mark is dropped whatever else happens. */
  lemma BomDropped(rest: string)
    requires !HasPrefix(rest, Bom)
    ensures WithoutFrontmatter(Bom + rest) == WithoutFrontmatter(rest)
  {
    assert TrimPrefix(Bom + rest, Bom) == rest;
  }

  /**
   * With two delimiter lines `i < j` and no other delimiter before `j`, the
   * result is exactly the lines after `j`, joined by LF.
   */
  lemma BlockRemoved(content: string, lines: seq<string>, i: nat, j: nat)
    requires !HasPrefix(content, Bom) && HasPrefix(TrimSpace(content), Delimiter)
    requires lines == NormalisedLines(content)
    requires i < j < |lines| && Is(DelimiterLine, lines[i]) && Is(DelimiterLine, lines[j])
    requires forall k :: 0 <= k < j && k != i ==> !Is(DelimiterLine, lines[k])
    ensures WithoutFrontmatter(content) == Join(lines[j + 1..], "\n")
  {
    FirstLineUnique(lines, DelimiterLine, 0, i);
    FirstLineUnique(lines, DelimiterLine, i + 1, j);
  }

  /** With fewer than two delimiter lines nothing but the byte-order mark is removed. */
  lemma UnclosedKept(content: string, lines: seq<string>)
    requires lines == NormalisedLines(TrimPrefix(content, Bom))
    requires forall i, j :: 0 <= i < j < |lines| ==> !(Is(DelimiterLine, lines[i]) && Is(DelimiterLine, lines[j]))
    ensures WithoutFrontmatter(content) == TrimPrefix(content, Bom)
  {
    match FirstLine(lines, DelimiterLine, 0)
    case None =>
    case Some(s) =>
      FirstLineNone(lines, DelimiterLine, s + 1);
  }

  /**
   * What removeTitle returns: the lines of the text joined again by LF,
   * without the first title line if there is one.
   */
  function WithoutTitle(content: string): string {
    var lines := Split(content, '\n');
    match FirstLine(lines, TitleLine, 0)
    case Some(t) => Join(lines[..t] + lines[t + 1..], "\n")
    case None => Join(lines, "\n")
  }

  /** removeTitle, which copies every line but the first title line. */
  method RemoveTitle(content: string) returns (r: string)
    ensures r == WithoutTitle(content)
  {
    var lines := Split(content, '\n');
    var newLines: seq<string> := [];
    var removed := false;
    ghost var at := 0;
    for i := 0 to |lines|
      invariant !removed ==> newLines == lines[..i]
      invariant !removed ==> forall k :: 0 <= k < i ==> !Is(TitleLine, lines[k])
      invariant removed ==> at < i && Is(TitleLine, lines[at]) && forall k :: 0 <= k < at ==> !Is(TitleLine, lines[k])
      invariant removed ==> newLines == lines[..at] + lines[at + 1..i]
    {
      if !removed && Is(TitleLine, lines[i]) {
        removed := true;
        at := i;
      } else {
        assert lines[..i + 1] == lines[..i] + [lines[i]];
        assert removed ==> lines[at + 1..i + 1] == lines[at + 1..i] + [lines[i]];
        newLines := newLines + [lines[i]];
      }
    }
    TitleLoopDone(content, newLines, removed, at);
    r := Join(newLines, "\n");
  }

  /** What the copy loop of removeTitle has built once it has seen every line. */
  lemma TitleLoopDone(content: string, newLines: seq<string>, removed: bool, at: nat)
    requires var lines := Split(content, '\n');
      (!removed ==> newLines == lines[..|lines|] && forall k :: 0 <= k < |lines| ==> !Is(TitleLine, lines[k])) &&
      (removed ==>
        (at < |lines| && Is(TitleLine, lines[at]) && (forall k :: 0 <= k < at ==> !Is(TitleLine, lines[k])) &&
         newLines == lines[..at] + lines[at + 1..|lines|]))
    ensures Join(newLines, "\n") == WithoutTitle(content)
  {
    var lines := Split(content, '\n');
    if removed {
      FirstLineUnique(lines, TitleLine, 0, at);
      assert lines[at + 1..|lines|] == lines[at + 1..];
    } else {
      FirstLineNone(lines, TitleLine, 0);
      assert lines[..|lines|] == lines;
    }
  }

  /** Without a title line the text comes back exactly as it was. */
  lemma NoTitleUnchanged(content: string)
    requires forall k :: 0 <= k < |Split(content, '\n')| ==> !Is(TitleLine, Split(content, '\n')[k])
    ensures WithoutTitle(content) == content
  {
    FirstLineNone(Split(content, '\n'), TitleLine, 0);
    JoinOfSplit(content, '\n');
    assert "\n" == ['\n'];
  }

  /**
   * With the first title line at `t`, the lines of the result are the other
   * lines in their order (a text that was only a title becomes one empty line).
   */
  lemma FirstTitleRemoved(content: string, t: nat)
    requires t < |Split(content, '\n')| && Is(TitleLine, Split(content, '\n')[t])
    requires forall k :: 0 <= k < t ==> !Is(TitleLine, Split(content, '\n')[k])
    ensures var lines := Split(content, '\n');
      Split(WithoutTitle(content), '\n') ==
        if |lines| == 1 then [""] else lines[..t] + lines[t + 1..]
  {
    var lines := Split(content, '\n');
    FirstLineUnique(lines, TitleLine, 0, t);
    assert WithoutTitle(content) == Join(lines[..t] + lines[t + 1..], "\n");
    assert "\n" == ['\n'];
    SplitOfJoinWithout(lines, t, '\n');
  }

}
