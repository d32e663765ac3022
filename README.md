# markdown-preview in Dafny

markdown-preview is a small Go web server. It indexes a directory of Markdown
and AsciiDoc posts, renders them for preview, and publishes a post's local
images to a GitHub repository that is served through the jsDelivr CDN. This
project models the text-processing and publishing core of that program and
proves properties of the model:

- **Cleanup** (`main.go`, removeFrontmatter and removeTitle): stripping a
  YAML frontmatter block and the first `# ` title from a post.
- **Metadata** (`main.go`, extractMetadata): the title and slug of a post,
  read from its frontmatter, with the first heading as a fallback title.
- **Scanner** (`main.go`, scanArticles): the article index, built by a
  directory walk. It derives an identifier, a series, a slug and a
  modification time for every article, then sorts the index newest first.
  `Scanner.ArticleIndex` is a class whose `articles` field the scan resets
  and appends to, as the Go code does with the global slice.
- **RelRef** (`main.go`, replaceRelRef and its findArticle): Hugo
  `{{< relref "..." >}}` and `{{< ref "..." >}}` shortcodes become links to
  indexed articles.
- **ImageSrc** (`main.go`, the `src=` rewrite closure of handleArticle):
  local image sources inside the project root are pointed at the
  `/_local_fs/` file server.
- **Publisher** (`services/publisher.go`, PublishArticle): every distinct
  local image referenced by the post is uploaded once, errors are collected,
  and every `(local` is replaced by `(remote`.
- **Uploader** (`services/uploader.go`, Upload and getCDNUrl): the GET / PUT /
  re-check exchange with the GitHub contents API, as a state machine driven by
  the responses.
- **Config** (`config/config.go`, Load): normalisation of the environment
  variables.

The helper modules GoStrings and GoPaths model the parts of Go's `strings`
and `path/filepath` packages that the core uses. This includes Split, Join,
TrimSpace, ReplaceAll, Clean, Join, Dir, Base, Ext and Rel, on
`/`-separated paths.

What the model takes as parameters instead of doing I/O:

- The directory walk is a sequence of `Scanner.Entry` values. Each carries
  the relative path, the directory flag, the walk error, the result of
  `os.ReadFile`, the result of `d.Info()`, and the reading `now` that
  `time.Now()` gives when the callback reaches that entry. Each callback reads
  the clock anew, so two entries without a modification time may get
  different times.
- For PublishArticle, `Publisher.Env` gives:
  - the post's path and the project root;
  - the path prefix;
  - a predicate telling whether `os.Stat` reports a path as not existing;
  - a function standing for the uploader.
  `read` is the result of reading the post.
- For Upload, `replies(i)` is the response to the i-th HTTP request of the
  call. The requests sent are returned in order.
- For Load, `getenv` is the process environment.
- Go's regular expressions are modelled, pattern by pattern, as
  deterministic scanners. Each scanner picks the match Go's leftmost-first
  semantics picks, and leftmost non-overlapping matches are consumed left to
  right, as `ReplaceAllStringFunc` and `FindAllStringSubmatch` do.
- Go's random map iteration order is modelled in the PublishArticle method by
  a nondeterministic choice of the next key. Its contract holds for SOME
  enumeration of the keys.

Strings are sequences of characters (Go runes). The file system is Unix: the
separator is `/` and `filepath.ToSlash` is the identity.

## Model

| member | source | states |
|---|---|---|
| `Lines.FirstLine` | main.go:300-313 | the index of the first line of a kind (delimiter, `# ` title, `# `/`= ` heading, each tested after TrimSpace) at or after `from`, with no earlier such line; None exactly when there is none |
| `Lines.FirstLineUnique` | main.go:425-435 | any first witness of a line kind is the one the scan reports |
| `Lines.FirstLineNone` | main.go:443-455 | without a line of the kind, nothing is found |
| `Cleanup.WithoutFrontmatter` | main.go:412-440 | reference definition of removeFrontmatter: drop a leading BOM; if the trimmed text starts with `---`, cut everything through the second delimiter line of the CRLF-normalised lines, otherwise keep the text; its behaviour is stated by NoFrontmatterUnchanged, BomDropped, BlockRemoved and UnclosedKept |
| `Cleanup.RemoveFrontmatter` | main.go:412-440 | the two-index loop returns WithoutFrontmatter: BOM dropped, everything through the second delimiter line removed if there is one |
| `Cleanup.ScanDone` | main.go:424-439 | once the delimiter scan has finished, the lines after the closing delimiter are the result, or the text is kept when the block is not closed |
| `Cleanup.NoFrontmatterUnchanged` | main.go:413-416 | text with no BOM that does not start (after trimming) with `---` comes back unchanged |
| `Cleanup.BomDropped` | main.go:413 | a leading byte-order mark is removed before anything else is decided |
| `Cleanup.BlockRemoved` | main.go:419-437 | with delimiter lines at i < j and none other before j, the result is exactly the CRLF-normalised lines after j joined by LF |
| `Cleanup.UnclosedKept` | main.go:426-439 | with fewer than two delimiter lines only the BOM is removed |
| `Cleanup.WithoutTitle` | main.go:443-455 | reference definition of removeTitle: the lines joined again by LF, without the first line whose trimmed form starts with `# `; stated by NoTitleUnchanged and FirstTitleRemoved |
| `Cleanup.RemoveTitle` | main.go:443-455 | the copy loop returns WithoutTitle: every line except the first `# ` title line |
| `Cleanup.TitleLoopDone` | main.go:443-455 | once every line has been copied, the joined copy is the text without its first title line |
| `Cleanup.NoTitleUnchanged` | main.go:443-455 | without a title line the text comes back exactly as it was |
| `Cleanup.FirstTitleRemoved` | main.go:447-453 | the lines of the result are the lines before and after the first title line, in order |
| `Metadata.FrontmatterBlock` | main.go:280-287 | the lines the frontmatter loop reads: none unless the text starts with `---`, else from the second line up to the next delimiter line or the end; stated by NoFrontmatter, BlockEndsAtDelimiter and BlockToEnd |
| `Metadata.FieldIn` | main.go:283-296 | the value a key has after the loop reads a block: that of the last line setting it, "" if none; stated by FieldInSnoc, FieldInLast, FieldInAbsent and LaterFieldOverrides |
| `Metadata.Title` | main.go:276-316 | the title extractMetadata returns: the frontmatter title, or the first heading when that is empty; stated by TitleFromHeading, NoTitle and FrontmatterTitleWins |
| `Metadata.Slug` | main.go:280-297 | the slug extractMetadata returns: the frontmatter `slug:` value, "" without frontmatter (NoFrontmatter) |
| `Metadata.ExtractMetadata` | main.go:276-316 | returns Title and Slug of the text: the frontmatter values, with the first heading standing in for an empty title |
| `Metadata.ReadFrontmatter` | main.go:280-297 | the frontmatter loop returns the value of the last `title:` and the last `slug:` line of the block, "" for a key no line sets |
| `Metadata.FirstHeading` | main.go:300-313 | the heading loop returns the text of the first `# ` or `= ` line, "" when there is none |
| `Metadata.FieldToIn` | main.go:283-296 | the value the loop holds after i lines is the field value of the block lines read so far |
| `Metadata.BlockRead` | main.go:283-287 | the lines the loop has read when it stops are exactly the frontmatter block |
| `Metadata.FieldInSnoc` | main.go:288-295 | reading one more frontmatter line changes a field exactly when that line sets it |
| `Metadata.FieldValueUnquoted` | main.go:289-290 | a frontmatter value never starts or ends with `"` or `'` |
| `Metadata.FieldInLast` | main.go:283-296 | the last line that sets a key decides its value |
| `Metadata.FieldInAbsent` | main.go:277 | a key that no line sets has value "" |
| `Metadata.LaterFieldOverrides` | main.go:283-296 | only the block from a key line on matters for that key |
| `Metadata.NoFrontmatter` | main.go:280 | without a leading `---` the slug is "" and the title is the first heading |
| `Metadata.BlockEndsAtDelimiter` | main.go:283-287 | the frontmatter ends at the first delimiter line after the first line; later lines are never read as fields |
| `Metadata.BlockToEnd` | main.go:283 | an unclosed frontmatter runs to the end of the text |
| `Metadata.TitleFromHeading` | main.go:300-313 | with no non-empty frontmatter title, the title is the text of the first `# ` or `= ` line |
| `Metadata.NoTitle` | main.go:300-315 | with neither a frontmatter title nor a heading the title is "" |
| `Metadata.FrontmatterTitleWins` | main.go:300 | a non-empty frontmatter title wins over any heading |
| `Scanner.Indexable` | main.go:213-217 | only non-directories whose extension is `.md` or `.adoc` become articles |
| `Scanner.ArticleId` | main.go:250-252 | the identifier: the relative path without its extension, `/` replaced by `_`; stated by IdHasNoSeparator and IdCollision |
| `Scanner.SeriesOf` | main.go:235-240 | the series: the first element of the relative path, or `其他` at the top level; stated by SeriesIsFirstDirectory |
| `Scanner.Derive` | main.go:219-261 | the article built for an entry, with the base-name, slug and clock fallbacks stated by DeriveDefaults |
| `Scanner.Walk` | main.go:208-266 | the walk over the entries in order, stopping at the first error; stated by WalkAt, WalkBounded, WalkFromEntries, WalkComplete and WalkStops |
| `Scanner.Step` | main.go:208-265 | one callback contributes at most one article, and none when it reports an error |
| `Scanner.Insert` | main.go:268-270 | inserting into a newest-first list keeps it newest first and adds exactly the element |
| `Scanner.SortNewestFirst` | main.go:268-270 | the result is ordered by UpdatedAt, newest first, and is a permutation of the input |
| `Scanner.ArticleIndex.constructor` | main.go:206 | the index starts empty |
| `Scanner.ArticleIndex.Scan` | main.go:205-273 | the index becomes the walk's articles sorted newest first, and the walk's error is returned |
| `Scanner.ArticleIndex.Visit` | main.go:208-265 | one callback appends the entry's article, if any, to the index and returns its error |
| `Scanner.WalkAt` | main.go:208-211 | the walk is the first entry's step followed by the walk of the rest, unless that step failed |
| `Scanner.WalkBounded` | main.go:254-262 | the walk collects at most one article per entry |
| `Scanner.WalkFromEntries` | main.go:213-262 | every collected article is derived from an indexable, readable entry of the walk |
| `Scanner.WalkComplete` | main.go:209-223 | without walk or read errors there is no error and one article per indexable entry |
| `Scanner.WalkStops` | main.go:209-223 | the first walk or read error stops the walk: later entries are never looked at |
| `Scanner.SeriesIsFirstDirectory` | main.go:236-241 | the series is the first directory of the relative path, or `其他` for a file directly in the posts directory |
| `Scanner.IdHasNoSeparator` | main.go:251-252 | an identifier never contains `/` |
| `Scanner.IdCollision` | main.go:251-252 | `<dir>/<name>.md` and `<dir>_<name>.md` get the same identifier |
| `Scanner.DeriveDefaults` | main.go:225-248 | base name for a missing title, base name without extension for a missing slug, the entry's own clock reading for a missing modification time, otherwise the values found |
| `Scanner.BaseEndsWithExt` | main.go:232 | the base name ends with the extension, so the slug fallback removes exactly it |
| `RelRef.Match` | main.go:322 | a match starts with `{{<` and its path group is non-empty and free of quotes, blanks and `}` |
| `RelRef.MatchRender` | main.go:322 | a shortcode written as `{{< relref "path" >}}` (either keyword, any quote) is matched whole, with its path |
| `RelRef.MatchOf` | main.go:322 | the match is the opening part followed by the closing part |
| `RelRef.ClosingBracketGivenBack` | main.go:322 | in `foo>}}` the path gives back its `>` so that `>}}` can match |
| `RelRef.NoShortcodeUnchanged` | main.go:323 | text without `{` is left unchanged |
| `RelRef.ReplaceRelRefs` | main.go:319-409 | replaceRelRef: every leftmost, non-overlapping shortcode match replaced by its Link and all other text kept; stated by NoShortcodeUnchanged, ShortcodeReplaced and TextKept |
| `RelRef.ShortcodeReplaced` | main.go:323-408 | text before the first shortcode is kept, the shortcode becomes its link, the rest is rewritten in turn |
| `RelRef.TextKept` | main.go:323 | text without `{` before the rest is kept as it is |
| `RelRef.NoMatchWithoutBrace` | main.go:322 | no match starts at a character other than `{` |
| `RelRef.SplitAnchor` | main.go:331-335 | path and anchor concatenate back to the reference; the anchor is empty exactly when there is no `#`, or starts at the last `#` |
| `RelRef.AnchorSplit` | main.go:331-335 | a reference splits at its last `#`: any path (holding `#` itself only when an anchor follows) and an anchor `#...` without a further `#` split back into the two, so `a#b#c` is path `a#b` and anchor `#c` |
| `RelRef.FindArticle` | main.go:338-364 | the first article whose relative path equals the path or is a `/`-bounded suffix of it; None when none matches |
| `RelRef.PathMatchesBoundary` | main.go:347-360 | a path matches an article exactly when equal to its relative path or ending in `/` plus it |
| `RelRef.PrefixedPathMatches` | main.go:351-355 | `posts/a/b.md` finds the article `a/b.md` |
| `RelRef.PartialNameRejected` | main.go:356-358 | `ba/b.md` does not find the article `a/b.md` |
| `RelRef.Lookup` | main.go:367-385 | a found article matches the reference, `base.md` or `base.adoc`; nothing is found exactly when no article matches the reference and, for a reference with an extension, none matches a candidate other than the reference |
| `RelRef.LookupOrder` | main.go:367-385 | for every extension: the reference is tried first; with an empty extension nothing else is tried; otherwise `base.md` and then `base.adoc` are tried, each skipped when it is the reference itself |
| `RelRef.LookupFallback` | main.go:370-385 | a `.adoc` reference that is not found falls back to `.md`, and the other way round |
| `RelRef.ExtAfterDot` | main.go:371-373 | the extension is the text after the last dot of the last element |
| `RelRef.Link` | main.go:330-407 | what one shortcode becomes: with a lookup hit, the published URL when a base URL is set, else the preview URL; without one, the not-found marker; stated by LocalLink, PublishedLink and MissingLink |
| `RelRef.LocalLink` | main.go:387-401 | without a base URL the link of every resolved reference, found directly or through the other extension, is `/article/<id><anchor>` of the article Lookup finds, for every split of the reference at its last `#` (so `a#b#c` gives `/article/<id>#c`) |
| `RelRef.PublishedLink` | main.go:387-397 | with a base URL the link of every resolved reference is base without trailing `/`, `/posts/`, series, `/`, slug or else id, `/`, anchor, for every split of the reference at its last `#` |
| `RelRef.MissingLink` | main.go:404-407 | an unresolved reference becomes `#relref-not-found-<path>`, without its anchor, for every split at the last `#` (so an unresolved `a#b#c` gives `#relref-not-found-a#b`) |
| `ImageSrc.SrcMatch` | main.go:530 | a match starts with `src=` and its value is non-empty and free of quotes |
| `ImageSrc.SrcMatchAttribute` | main.go:530-539 | an attribute `src=` opening quote, value, closing quote of either kind (`src="v'` too) is matched whole with its opening quote and value |
| `ImageSrc.NewSrcAsWritten` | main.go:541-567 | the closure's new value with its test as written: None for a remote source, else `/_local_fs/` + Rel(root, resolved path) whenever the resolved path has the root as a string prefix; PrefixTestEscapesRoot shows it escaping the root |
| `ImageSrc.NewSrc` | main.go:541-567 | the corrected new value: the same, but only when the resolved path lies in the root's tree element by element (Within); stated by RemoteKept, NewSrcStaysInside and CorrectionOnlyWithdraws |
| `ImageSrc.RewriteImageSources` | main.go:530-570 | the `src` rewrite over the whole HTML: each leftmost `src=` match replaced by its attribute with the new value, other text kept. It uses the corrected element-wise test NewSrc, not the string-prefix test of main.go:556; NewSrcAsWritten is the as-written counterpart. Stated by AttributeRewritten (an attribute is replaced by the one NewSrc gives, with the original opening quote, or kept as written) and PlainTextKept (text without an `s` before the next match is kept) |
| `ImageSrc.Resolve` | main.go:547-553 | the resolved image path is absolute |
| `ImageSrc.RemoteKept` | main.go:541-544 | a source starting with `http` or `//` is never rewritten |
| `ImageSrc.AttributeRewritten` | main.go:532-567 | a matched `src=` attribute, with either closing quote, becomes `src=` opening quote, new value, opening quote when NewSrc gives a value and stays as written otherwise; the rest of the text is rewritten on its own |
| `ImageSrc.PlainTextKept` | main.go:530-570 | text without an `s` in front of the rest is copied unchanged, and the rewrite continues on the rest |
| `ImageSrc.NoAttributeUnchanged` | main.go:532-570 | HTML without an `s` is left unchanged |
| `ImageSrc.NewSrcStaysInside` | main.go:556-565 | a rewritten source is `/_local_fs/` plus a path that leads from the root back to the resolved file and contains no `..` |
| `ImageSrc.RelDescends` | main.go:557-562 | the path of a file under the root relative to the root never climbs with `..` |
| `ImageSrc.PrefixTestEscapesRoot` | main.go:556-565 | the string-prefix test as written rewrites an image in a sibling directory to a `/_local_fs/../` path |
| `ImageSrc.CorrectionOnlyWithdraws` | main.go:556-565 | on a clean root, every source the element-wise test rewrites is rewritten to the same value by the code as written |
| `ImageSrc.WithinIsPrefix` | main.go:556 | for clean absolute paths, lying under the root implies the string-prefix test |
| `Publisher.AltEnd` | services/publisher.go:34 | the lazy alt group ends at the first `](` on the line |
| `Publisher.TargetEnd` | services/publisher.go:34 | the lazy target group ends at the first `)` on the line |
| `Publisher.ImageAt` | services/publisher.go:34 | a match starts with `![`, is at least 5 characters long, and its target contains no `)` and no newline |
| `Publisher.Targets` | services/publisher.go:35 | every target found is free of `)` and newlines |
| `Publisher.ImageMatched` | services/publisher.go:34 | `![alt](target)` with such alt and target is matched whole, with its target |
| `Publisher.NoImageWithoutBang` | services/publisher.go:34 | no match starts at a character other than `!` |
| `Publisher.TargetsSkipText` | services/publisher.go:35 | text without `!` yields no targets and does not disturb what follows |
| `Publisher.NoImages` | services/publisher.go:35 | text without `!` has no image targets |
| `Publisher.ImageFound` | services/publisher.go:35 | an image after plain text yields its target, then the targets of the rest |
| `Publisher.CleanPathDropsTitle` | services/publisher.go:65-66 | a title after the path is not part of the clean path |
| `Publisher.CleanPathWithoutTitle` | services/publisher.go:65-66 | a target without a space is its own clean path |
| `Publisher.AbsPath` | services/publisher.go:69-70 | the image file's path is absolute |
| `Publisher.Step` | services/publisher.go:55-104 | one iteration of the upload loop: skip a remote target, report a missing file, skip a repeated image, else call the uploader once and record its URL or its error; stated by RemoteSkipped, MissingRepeated, RepeatIgnored, StepErrors and CallsKeptAdd |
| `Publisher.Run` | services/publisher.go:50-105 | the upload loop over the targets in order; stated by RunSnoc, CallsAreExisting, OutcomesOfCalls, MissingReported and OutcomesPartition |
| `Publisher.ReplaceEach` | services/publisher.go:108-118 | the replacement loop in a given key order: one ReplaceAll of `(local` by `(remote` per key; stated by SingleReplacement and NothingUploadedUnchanged |
| `Publisher.PublishArticle` | services/publisher.go:26-120 | a failed read is returned; otherwise the result holds the text read, the upload loop's URLs and errors, and the text after replacing `(local` by `(remote` for every uploaded image in some order of the map |
| `Publisher.UploadImages` | services/publisher.go:50-105 | the upload loop leaves the URL map, the uploaded URLs, the errors and the uploader calls that processing the targets one after another defines |
| `Publisher.ReplaceImages` | services/publisher.go:108-118 | the replacement loop applies one ReplaceAll per uploaded image, in some enumeration of the map's keys |
| `Publisher.CallsKeptAdd` | services/publisher.go:81-84 | recording a new image both as seen and as uploaded keeps the calls distinct and equal to the images seen |
| `Publisher.RunSnoc` | services/publisher.go:50-105 | the first loop processes the targets one after another |
| `Publisher.MessageKinds` | services/publisher.go:76-102 | "Image not found" and "Upload failed" messages are told apart by their prefix |
| `Publisher.CallsAreExisting` | services/publisher.go:75-97 | the uploader is called once for each distinct local image that exists, and for nothing else |
| `Publisher.OutcomesOfCalls` | services/publisher.go:97-104 | UploadedImages holds the URLs of the successful calls in call order, the failures are reported in call order, and the URL map holds exactly the successful paths with their URLs |
| `Publisher.StepErrors` | services/publisher.go:75-104 | one iteration adds a "not found" message for a missing file and otherwise at most one "Upload failed" message |
| `Publisher.MissingReported` | services/publisher.go:75-79 | each missing image is reported once per reference, in order, and every other error is a failed upload |
| `Publisher.SucceededPlusFailed` | services/publisher.go:97-104 | every upload call either succeeds or fails |
| `Publisher.OutcomesPartition` | services/publisher.go:81-104 | each distinct existing local image ends up in UploadedImages or in one "Upload failed" error, never both |
| `Publisher.RemoteSkipped` | services/publisher.go:59-62 | a remote target changes nothing |
| `Publisher.RepeatIgnored` | services/publisher.go:81-84 | a further reference to an image already seen changes nothing |
| `Publisher.MissingRepeated` | services/publisher.go:75-79 | a missing image is reported again at every reference, and nothing else changes |
| `Publisher.RemotePathLocates` | services/publisher.go:88-94 | without a prefix, the remote path leads from the project root back to the image file |
| `Publisher.RemotePathPrefixed` | services/publisher.go:86-94 | with a clean relative prefix and an image below the project root, the remote path is the prefix, `/`, and the root-relative path |
| `Publisher.EnumerationLength` | services/publisher.go:108 | an iteration over the map visits as many keys as it holds |
| `Publisher.SingleReplacement` | services/publisher.go:108-118 | with one uploaded image the replacement is a single ReplaceAll, whatever the order |
| `Publisher.NothingUploadedUnchanged` | services/publisher.go:108-118 | when nothing was uploaded the published text is the original text |
| `Uploader.Upload` | services/uploader.go:22-105 | nothing is sent without configuration or when the read fails; otherwise a GET, then a PUT if not found, then a re-check GET after 409/422; every success answers the CDN URL, every request goes to the contents URL, and each error case returns its message |
| `Uploader.CdnUrlPath` | services/uploader.go:107-112 | a CDN URL is the repository/branch prefix followed by the remote path |
| `Uploader.CdnUrlInjective` | services/uploader.go:107-112 | distinct remote paths get distinct CDN URLs |
| `Config.Load` | config/config.go:22-47 | each field is copied from its variable, the repository loses one trailing `.git`, an empty branch becomes `main`, and a warning is raised exactly when the token is empty |

## Left out

- The web layer: the gin server, its handlers, the templates, JavaScript,
  the `/_local_fs/` file server and the handler that serves one article are
  not part of this model, except for the `src=` rewrite closure.
- Rendering with goldmark and AsciiDoc, and the regex post-processing of
  `<li>` and `<strong>` in the rendered HTML, are not part of this model.
- findProjectRoot is not modelled. It walks up from the posts directory and
  stops at the first directory holding any of `.git`, `hugo.yaml`,
  `hugo.toml`, `go.mod` or `package.json` (main.go:174-192), and returns ""
  when none is found, in which case main falls back to the posts directory
  (main.go:120-123). The posts directory is made absolute by filepath.Abs
  (main.go:105-110), which also cleans it, and filepath.Dir keeps a path
  clean, so the root is always absolute and clean. The project root is a
  parameter, and `IsAbs(root)` and `Clean(root) == root` are required of it
  for that reason.
- File-system calls, the clock, HTTP, JSON, base64, `.env` loading and
  logging are parameters or are left out, as listed above.
- Windows paths: the separator is `/`. filepath.ToSlash and the separator
  replacement in identifiers are modelled for `/` only.
- Scanner.SortNewestFirst: sort.Slice is not stable, so Go leaves the order
  of articles with equal UpdatedAt unspecified. The model fixes one order
  (input order). Only the newest-first order and the permutation reflect the
  source.
- Publisher.PublishArticle: the check `len(match) < 3` (publisher.go:51-53)
  is not modelled, because a match of a pattern with two groups always has
  three elements.
- Publisher.PublishArticle: the text replacement is stated for some order of
  the URL map. No lemma says the result is independent of that order. For
  overlapping local paths it is not.
- Publisher.PublishArticle: the uploader is a pure function of the absolute
  and remote path. Its own HTTP exchange is modelled separately in
  Uploader.Upload.
- Publisher.RemotePathPrefixed: stated only for a clean relative prefix and
  an image strictly below the project root. For an image outside the root,
  filepath.Join lets the leading `..` of the relative path consume elements
  of the prefix; no lemma describes that case.
- Uploader.Upload: the file's bytes, their base64 encoding and the JSON
  request and response bodies are opaque. The response body is only used as
  the text of an error. The PUT is described by its URL, commit message and
  branch.
- Scanner.ArticleIndex.Scan: the walk order and the set of entries come from
  the caller. WalkDir's lexical order is not modelled.

The model follows the code where a description of the tool promises
otherwise:

- A relref link with a base URL always ends in `/` followed by the anchor
  (`<base>/posts/<series>/<slug>/`), as main.go:397 formats it.
- removeFrontmatter is not idempotent. Text made of four `---` lines loses
  two of them on the first call and the other two on a second call.
  Cleanup.BlockRemoved states which lines go.
- The publisher skips only link targets that start with `http`
  (publisher.go:59), so a `//host/x.png` target is joined to the post's
  directory, looked up on disk and may be uploaded, while the `src` rewrite
  skips `//` targets as well (main.go:542). Publisher.Remote follows the
  publisher's code.

## Findings

| source | as written | input that shows it | evidently intended | confidence | as-written member | corrected member |
|---|---|---|---|---|---|---|
| main.go:556 | `strings.HasPrefix(absImgPath, projectRoot)` decides whether an image lies inside the project root | root `/home/u/blog`, image `/home/u/blog2/i.png`: the test passes and the source becomes `/_local_fs/../blog2/i.png` | only files under the root, compared element by element, are rewritten; others are left unchanged | not executed | `ImageSrc.PrefixTestEscapesRoot` | `ImageSrc.NewSrcStaysInside` |

ImageSrc.NewSrcAsWritten models the test as written. ImageSrc.NewSrc is the
corrected definition, and ImageSrc.RewriteImageSources uses it.
ImageSrc.CorrectionOnlyWithdraws shows that the correction changes no
rewrite the code makes correctly.
