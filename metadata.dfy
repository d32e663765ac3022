/**
 * extractMetadata of main.go: the title and slug of an article, read from
 * YAML frontmatter `title:` / `slug:` lines, with the first Markdown `# ` or
 * AsciiDoc `= ` heading as the fallback title.
 */
module Metadata {
  import opened Wrappers
  import opened GoStrings
  import opened Lines

  const TitleKey := "title:"
  const SlugKey := "slug:"
  /** The characters strings.Trim(val, "\"'") removes from both ends of a value. */
  const Quotes: set<char> := {'"', '\''}

  /** A frontmatter line that sets `key`: its trimmed form starts with the key. */
  predicate HasKey(line: string, key: string) { HasPrefix(TrimSpace(line), key) }

  /** The value a `key` line assigns: trimmed, then stripped of quote characters at both ends. */
  function FieldValue(line: string, key: string): string {
    Trim(TrimSpace(TrimPrefix(TrimSpace(line), key)), Quotes)
  }

  /**
   * The value the frontmatter loop leaves for `key` after reading `block`:
   * that of the last line setting it (FieldInLast), or "" if none does.
   */
  function FieldIn(block: seq<string>, key: string): string {
    if |block| == 0 then ""
    else if HasKey(block[|block| - 1], key) then FieldValue(block[|block| - 1], key)
    else FieldIn(block[..|block| - 1], key)
  }

  /**
   * The lines the frontmatter loop reads: only when the text starts with
   * `---`, from the second line up to (excluding) the next delimiter line.
   */
  function FrontmatterBlock(content: string): seq<string> {
    if !HasPrefix(content, Delimiter) then []
    else
      var lines := Split(content, '\n');
      match FirstLine(lines, DelimiterLine, 1)
      case Some(e) => lines[1..e]
      case None => lines[1..]
  }

  /** The text of a heading line, without its marker. */
  function HeadingText(line: string): string {
    var t := TrimSpace(line);
    if HasPrefix(t, "# ") then TrimPrefix(t, "# ") else TrimPrefix(t, "= ")
  }

  /** The fallback title: the text of the first heading line of the whole text, or "". */
  function Heading(content: string): string {
    var lines := Split(content, '\n');
    match FirstLine(lines, HeadingLine, 0)
    case Some(i) => HeadingText(lines[i])
    case None => ""
  }

  /** The title extractMetadata reports. */
  function Title(content: string): string {
    var t := FieldIn(FrontmatterBlock(content), TitleKey);
    if t == "" then Heading(content) else t
  }

  /** The slug extractMetadata reports. */
  function Slug(content: string): string {
    FieldIn(FrontmatterBlock(content), SlugKey)
  }

  /** Reading one more line updates a field exactly when that line sets it. */
  lemma FieldInSnoc(block: seq<string>, line: string, key: string)
    ensures FieldIn(block + [line], key) ==
      if HasKey(line, key) then FieldValue(line, key) else FieldIn(block, key)
  {
    assert (block + [line])[..|block|] == block;
  }

  /** The value the frontmatter loop holds for `key` before reading line `i`, the first line being skipped. */
  function FieldTo(lines: seq<string>, i: nat, key: string): string
    requires i <= |lines|
  {
    if i <= 1 then ""
    else if HasKey(lines[i - 1], key) then FieldValue(lines[i - 1], key)
    else FieldTo(lines, i - 1, key)
  }

  lemma {:induction false} FieldToIn(lines: seq<string>, i: nat, key: string)
    requires 1 <= i <= |lines|
    ensures FieldTo(lines, i, key) == FieldIn(lines[1..i], key)
  {
    if i > 1 {
      FieldToIn(lines, i - 1, key);
      assert lines[1..i][..i - 2] == lines[1..i - 1];
    }
  }

  /** extractMetadata: the frontmatter loop, then the heading loop when no title was found. */
  method ExtractMetadata(content: string) returns (title: string, slug: string)
    ensures title == Title(content)
    ensures slug == Slug(content)
  {
    title, slug := ReadFrontmatter(content);
    if title == "" {
      title := FirstHeading(content);
    }
  }

  /** The frontmatter loop of extractMetadata: the last `title:` and `slug:` values of the block. */
  method ReadFrontmatter(content: string) returns (title: string, slug: string)
    ensures title == FieldIn(FrontmatterBlock(content), TitleKey)
    ensures slug == FieldIn(FrontmatterBlock(content), SlugKey)
  {
    title, slug := "", "";
    if HasPrefix(content, Delimiter) {
      var lines := Split(content, '\n');
      var i := 1;
      while i < |lines|
        invariant 1 <= i <= |lines|
        invariant forall k :: 1 <= k < i ==> !Is(DelimiterLine, lines[k])
        invariant title == FieldTo(lines, i, TitleKey)
        invariant slug == FieldTo(lines, i, SlugKey)
      {
        if Is(DelimiterLine, lines[i]) {
          break;
        }
        if HasKey(lines[i], TitleKey) {
          title := FieldValue(lines[i], TitleKey);
        }
        if HasKey(lines[i], SlugKey) {
          slug := FieldValue(lines[i], SlugKey);
        }
        i := i + 1;
      }
      FieldToIn(lines, i, TitleKey);
      FieldToIn(lines, i, SlugKey);
      BlockRead(content, i);
    }
  }

  /** Where the frontmatter loop stops: at a delimiter line, or at the end of the text. */
  lemma BlockRead(content: string, i: nat)
    requires HasPrefix(content, Delimiter)
    requires 1 <= i <= |Split(content, '\n')|
    requires forall k :: 1 <= k < i ==> !Is(DelimiterLine, Split(content, '\n')[k])
    requires i < |Split(content, '\n')| ==> Is(DelimiterLine, Split(content, '\n')[i])
    ensures FrontmatterBlock(content) == Split(content, '\n')[1..i]
  {
    var lines := Split(content, '\n');
    if i < |lines| {
      BlockEndsAtDelimiter(content, i);
    } else {
      BlockToEnd(content);
      assert lines[1..i] == lines[1..];
    }
  }

  /** The heading loop of extractMetadata: the text of the first `# ` or `= ` line. */
  method FirstHeading(content: string) returns (title: string)
    ensures title == Heading(content)
  {
    var lines := Split(content, '\n');
    for i := 0 to |lines|
      invariant forall k :: 0 <= k < i ==> !Is(HeadingLine, lines[k])
    {
      var line := TrimSpace(lines[i]);
      if HasPrefix(line, "# ") {
        FirstLineUnique(lines, HeadingLine, 0, i);
        return TrimPrefix(line, "# ");
      }
      if HasPrefix(line, "= ") {
        FirstLineUnique(lines, HeadingLine, 0, i);
        return TrimPrefix(line, "= ");
      }
    }
    FirstLineNone(lines, HeadingLine, 0);
    return "";
  }

  // ---------------------------------------------------------------------
  // Properties of the extracted metadata.
  // ---------------------------------------------------------------------

  /** A frontmatter value never starts or ends with a quote character. */
  lemma FieldValueUnquoted(line: string, key: string)
    ensures var v := FieldValue(line, key);
      |v| > 0 ==> v[0] !in Quotes && v[|v| - 1] !in Quotes
  {
    TrimSpec(TrimSpace(TrimPrefix(TrimSpace(line), key)), Quotes);
  }

  /** The last line that sets `key` decides its value. */
  lemma {:induction false} FieldInLast(block: seq<string>, key: string, j: nat)
    requires j < |block| && HasKey(block[j], key)
    requires forall k :: j < k < |block| ==> !HasKey(block[k], key)
    ensures FieldIn(block, key) == FieldValue(block[j], key)
  {
    if j < |block| - 1 {
      var b := block[..|block| - 1];
      assert forall k :: j < k < |b| ==> b[k] == block[k];
      FieldInLast(b, key, j);
    }
  }

  /** Without a line that sets `key` the value is "". */
  lemma {:induction false} FieldInAbsent(block: seq<string>, key: string)
    requires forall k :: 0 <= k < |block| ==> !HasKey(block[k], key)
    ensures FieldIn(block, key) == ""
  {
    if |block| > 0 {
      var b := block[..|block| - 1];
      assert forall k :: 0 <= k < |b| ==> b[k] == block[k];
      FieldInAbsent(b, key);
    }
  }

  /** A later assignment overrides everything before it: only the block from a key line on matters. */
  lemma {:induction false} LaterFieldOverrides(block: seq<string>, key: string, j: nat)
    requires j < |block| && HasKey(block[j], key)
    ensures FieldIn(block, key) == FieldIn(block[j..], key)
  {
    if j < |block| - 1 {
      var b := block[..|block| - 1];
      assert b[j..] == block[j..][..|block[j..]| - 1];
      LaterFieldOverrides(b, key, j);
    }
  }

  /** Without a leading `---` there is no slug and the title comes from the first heading. */
  lemma NoFrontmatter(content: string)
    requires !HasPrefix(content, Delimiter)
    ensures Slug(content) == ""
    ensures Title(content) == Heading(content)
  {
  }

  /** The frontmatter ends at the first delimiter line after the opening one: later lines are never read as fields. */
  lemma BlockEndsAtDelimiter(content: string, e: nat)
    requires HasPrefix(content, Delimiter)
    requires 1 <= e < |Split(content, '\n')| && Is(DelimiterLine, Split(content, '\n')[e])
    requires forall k :: 1 <= k < e ==> !Is(DelimiterLine, Split(content, '\n')[k])
    ensures FrontmatterBlock(content) == Split(content, '\n')[1..e]
  {
    FirstLineUnique(Split(content, '\n'), DelimiterLine, 1, e);
  }

  /** An unclosed frontmatter runs to the end of the text. */
  lemma BlockToEnd(content: string)
    requires HasPrefix(content, Delimiter)
    requires forall k :: 1 <= k < |Split(content, '\n')| ==> !Is(DelimiterLine, Split(content, '\n')[k])
    ensures FrontmatterBlock(content) == Split(content, '\n')[1..]
  {
    FirstLineNone(Split(content, '\n'), DelimiterLine, 1);
  }

  /** With no non-empty frontmatter title, the title is the text of the first heading line. */
  lemma TitleFromHeading(content: string, i: nat)
    requires FieldIn(FrontmatterBlock(content), TitleKey) == ""
    requires i < |Split(content, '\n')| && Is(HeadingLine, Split(content, '\n')[i])
    requires forall k :: 0 <= k < i ==> !Is(HeadingLine, Split(content, '\n')[k])
    ensures Title(content) == HeadingText(Split(content, '\n')[i])
  {
    FirstLineUnique(Split(content, '\n'), HeadingLine, 0, i);
  }

  /** With neither a non-empty frontmatter title nor a heading line, the title is "". */
  lemma NoTitle(content: string)
    requires FieldIn(FrontmatterBlock(content), TitleKey) == ""
    requires forall k :: 0 <= k < |Split(content, '\n')| ==> !Is(HeadingLine, Split(content, '\n')[k])
    ensures Title(content) == ""
  {
    FirstLineNone(Split(content, '\n'), HeadingLine, 0);
  }

  /** A non-empty frontmatter title wins over any heading. */
  lemma FrontmatterTitleWins(content: string)
    requires FieldIn(FrontmatterBlock(content), TitleKey) != ""
    ensures Title(content) == FieldIn(FrontmatterBlock(content), TitleKey)
  {
  }
}
