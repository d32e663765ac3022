/**
 * Line-level notions shared by the metadata extractor and the content
 * rewriters of main.go: the frontmatter delimiter and "the first line that
 * satisfies a test".
 */
module Lines {
  import opened Wrappers
  import opened GoStrings

  const Delimiter := "---"

  /**
   * The kinds of line main.go looks for, each tested on the line with
   * surrounding whitespace trimmed: a frontmatter delimiter `---`, a Markdown
   * title `# ...` (removeTitle), and a Markdown or AsciiDoc heading `# ...` /
   * `= ...` (the fallback title of extractMetadata).
   */
  datatype LineKind = DelimiterLine | TitleLine | HeadingLine

  predicate Is(kind: LineKind, line: string) {
    var t := TrimSpace(line);
    match kind
    case DelimiterLine => t == Delimiter
    case TitleLine => HasPrefix(t, "# ")
    case HeadingLine => HasPrefix(t, "# ") || HasPrefix(t, "= ")
  }

  /** The index of the first line at or after `from` of the given kind. */
  function FirstLine(lines: seq<string>, kind: LineKind, from: nat): (r: Option<nat>)
    requires from <= |lines|
    ensures r.Some? ==> from <= r.value < |lines| && Is(kind, lines[r.value])
    ensures r.Some? ==> forall k :: from <= k < r.value ==> !Is(kind, lines[k])
    ensures r.None? ==> forall k :: from <= k < |lines| ==> !Is(kind, lines[k])
    decreases |lines| - from
  {
    if from == |lines| then None
    else if Is(kind, lines[from]) then Some(from)
    else FirstLine(lines, kind, from + 1)
  }

  /** The contract of FirstLine pins its answer down: any first witness is the one it returns. */
  lemma FirstLineUnique(lines: seq<string>, kind: LineKind, from: nat, i: nat)
    requires from <= i < |lines| && Is(kind, lines[i])
    requires forall k :: from <= k < i ==> !Is(kind, lines[k])
    ensures FirstLine(lines, kind, from) == Some(i)
  {
  }

  /** Without a line of the kind from `from` on, FirstLine finds nothing. */
  lemma FirstLineNone(lines: seq<string>, kind: LineKind, from: nat)
    requires from <= |lines|
    requires forall k :: from <= k < |lines| ==> !Is(kind, lines[k])
    ensures FirstLine(lines, kind, from) == None
  {
  }
}
