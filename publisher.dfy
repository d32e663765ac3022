/**
 * services/publisher.go: PublishArticle prepares a post for publication.
 * Every local Markdown image it references is uploaded once, and every
 * `(local` in the text becomes `(remote`.
 *
 * The outside world is a parameter: `read` is what os.ReadFile returned for
 * the post, `notExist` says for an absolute path whether os.Stat reported
 * os.IsNotExist, and `upload` stands for GitHubUploader.Upload, mapping the
 * absolute and the remote path to the CDN URL or an error message.
 */
module Publisher {
  import opened Wrappers
  import opened GoStrings
  import opened GoPaths

  // ---------------------------------------------------------------------
  // The image pattern `!\[(.*?)\]\((.*?)\)`, as FindAllStringSubmatch
  // applies it: leftmost, non-overlapping matches, `.` never crossing a
  // newline. Both groups are lazy, so at a given `![` the alt text ends at
  // the first `](` of the line and the target at the first `)` after it;
  // giving the alt text more cannot help, because the target would then have
  // to find its `)` in a shorter stretch of the same line.
  // ---------------------------------------------------------------------

  /** The first `](` from `i` on, provided no newline comes before it. */
  function AltEnd(t: string, i: nat): (r: Option<nat>)
    requires i <= |t|
    ensures r.Some? ==> i <= r.value && r.value + 1 < |t| && t[r.value] == ']' && t[r.value + 1] == '('
    decreases |t| - i
  {
    if i + 1 >= |t| || t[i] == '\n' then None
    else if t[i] == ']' && t[i + 1] == '(' then Some(i)
    else AltEnd(t, i + 1)
  }

  /** The first `)` from `i` on, provided no newline comes before it. */
  function TargetEnd(t: string, i: nat): (r: Option<nat>)
    requires i <= |t|
    ensures r.Some? ==> i <= r.value < |t| && t[r.value] == ')'
    ensures r.Some? ==> forall k :: i <= k < r.value ==> t[k] != ')' && t[k] != '\n'
    decreases |t| - i
  {
    if i == |t| || t[i] == '\n' then None
    else if t[i] == ')' then Some(i)
    else TargetEnd(t, i + 1)
  }

  /** An image reference found at the start of a text: its target (group 2) and the length of the match. */
  datatype Image = Image(target: string, len: nat)

  /** The image reference the pattern matches at the very start of `t`, if any. */
  function ImageAt(t: string): (r: Option<Image>)
    ensures r.Some? ==> HasPrefix(t, "![") && 5 <= r.value.len <= |t|
    ensures r.Some? ==> ')' !in r.value.target && '\n' !in r.value.target
  {
    if !HasPrefix(t, "![") then None
    else match AltEnd(t, 2)
      case None => None
      case Some(k) =>
        match TargetEnd(t, k + 2)
        case None => None
        case Some(m) => Some(Image(t[k + 2..m], m + 1))
  }

  /** The targets (`match[2]`) of all matches in the text, in order. */
  function Targets(t: string): (r: seq<string>)
    ensures forall i :: 0 <= i < |r| ==> ')' !in r[i] && '\n' !in r[i]
    decreases |t|
  {
    if |t| == 0 then []
    else match ImageAt(t)
      case Some(img) => [img.target] + Targets(t[img.len..])
      case None => Targets(t[1..])
  }

  /** The Markdown an author writes for an image. */
  function ImageText(alt: string, target: string): string {
    "![" + alt + "](" + target + ")"
  }

  // ---------------------------------------------------------------------
  // One pass over the matches.
  // ---------------------------------------------------------------------

  const NotFoundPrefix := "Image not found: "
  const UploadFailedPrefix := "Upload failed for "

  function NotFoundMessage(cleanPath: string): string { NotFoundPrefix + cleanPath }

  function FailureMessage(cleanPath: string, err: string): string { UploadFailedPrefix + cleanPath + ": " + err }

  /** What PublishArticle works with besides the post's text. */
  datatype Env = Env(
    postPath: string,
    projectRoot: string,
    pathPrefix: string,                              // config GitHubPathPrefix
    notExist: string -> bool,                        // os.IsNotExist of os.Stat
    upload: (string, string) -> Result<string, string>)

  /** Both paths are absolute: the post comes from the scanned index, the root from an absolute posts directory. */
  predicate ValidEnv(env: Env) { IsAbs(env.postPath) && IsAbs(env.projectRoot) }

  /** Targets starting with `http` are left alone. */
  predicate Remote(imgURL: string) { HasPrefix(imgURL, "http") }

  /** The path without a title: the text before the first space. */
  function CleanPath(imgURL: string): string { Before(imgURL, ' ') }

  /** The image file: the path taken relative to the post's directory. */
  function AbsPath(env: Env, cleanPath: string): (r: string)
    requires ValidEnv(env)
    ensures IsAbs(r)
  {
    JoinPath(Dir(env.postPath), cleanPath)
  }

  /** The path in the repository: relative to the project root, under the configured prefix if there is one. */
  function RemotePath(env: Env, absPath: string): string
    requires ValidEnv(env) && IsAbs(absPath)
  {
    var rel := Rel(env.projectRoot, absPath);
    if env.pathPrefix != "" then JoinPath(env.pathPrefix, rel) else rel
  }

  /** What the uploader answers for a local image. */
  function UploadOf(env: Env, cleanPath: string): Result<string, string>
    requires ValidEnv(env)
  {
    var abs := AbsPath(env, cleanPath);
    env.upload(abs, RemotePath(env, abs))
  }

  /**
   * What the first loop learns about a local image, keyed by its clean path:
   * whether its file is missing, and what the uploader answers. The loop
   * depends on the environment only through these two.
   */
  datatype Oracle = Oracle(missing: string -> bool, answer: string -> Result<string, string>)

  function OracleOf(env: Env): Oracle
    requires ValidEnv(env)
  {
    Oracle(c => env.notExist(AbsPath(env, c)), c => UploadOf(env, c))
  }

  /**
   * The state of the first loop: the two maps (uniquePaths as the set of its
   * keys), the two lists of the result, and the clean paths handed to the
   * uploader, in order.
   */
  datatype Progress = Progress(
    urlMap: map<string, string>,
    uniquePaths: set<string>,
    calls: seq<string>,
    uploaded: seq<string>,
    errors: seq<string>)

  const Start := Progress(map[], {}, [], [], [])

  /** One iteration of the first loop. */
  function Step(o: Oracle, p: Progress, imgURL: string): Progress
  {
    if Remote(imgURL) then p
    else
      var c := CleanPath(imgURL);
      if o.missing(c) then p.(errors := p.errors + [NotFoundMessage(c)])
      else if c in p.uniquePaths then p
      else
        var q := p.(uniquePaths := p.uniquePaths + {c}, calls := p.calls + [c]);
        match o.answer(c)
        case Err(e) => q.(errors := q.errors + [FailureMessage(c, e)])
        case Ok(url) => q.(urlMap := q.urlMap[c := url], uploaded := q.uploaded + [url])
  }

  /** The first loop over a list of targets. */
  function Run(o: Oracle, ts: seq<string>): Progress
  {
    if |ts| == 0 then Start else Step(o, Run(o, ts[..|ts| - 1]), ts[|ts| - 1])
  }

  /** The second loop, visiting the keys of `m` in the order `ord`. */
  function ReplaceEach(s: string, ord: seq<string>, m: map<string, string>): string
    requires forall i :: 0 <= i < |ord| ==> ord[i] in m
  {
    if |ord| == 0 then s
    else
      var local := ord[|ord| - 1];
      ReplaceAll(ReplaceEach(s, ord[..|ord| - 1], m), "(" + local, "(" + m[local])
  }

  predicate Distinct(xs: seq<string>) {
    forall i, j :: 0 <= i < j < |xs| ==> xs[i] != xs[j]
  }

  /** `ord` lists every key of a map once: one of the orders Go's map iteration may take. */
  predicate Enumerates(ord: seq<string>, keys: set<string>) {
    Distinct(ord) && (forall i :: 0 <= i < |ord| ==> ord[i] in keys) && (forall k :: k in keys ==> k in ord)
  }

  datatype PublishResult = PublishResult(
    OriginalContent: string,
    PublishContent: string,
    UploadedImages: seq<string>,
    Errors: seq<string>)

  /**
   * PublishArticle. A failed read is returned as the error. Otherwise the
   * result holds the text as read, the outcome of the first loop over the
   * image targets, and the text after the second loop, in the order in which
   * the map happened to be visited. `calls` lists the clean paths of the
   * images handed to the uploader.
   */
  method PublishArticle(env: Env, read: Result<string, string>) returns (res: Result<PublishResult, string>, calls: seq<string>)
    requires ValidEnv(env)
    ensures read.Err? ==> res == Err(read.error) && calls == []
    ensures read.Ok? ==> res.Ok? && res.value.OriginalContent == read.value
    ensures read.Ok? ==> var p := Run(OracleOf(env), Targets(read.value));
      calls == p.calls && res.value.UploadedImages == p.uploaded && res.value.Errors == p.errors &&
      exists ord :: Enumerates(ord, p.urlMap.Keys) && res.value.PublishContent == ReplaceEach(read.value, ord, p.urlMap)
  {
    if read.Err? {
      return Err(read.error), [];
    }
    var content := read.value;
    var urlMap, uploaded, errors;
    urlMap, uploaded, errors, calls := UploadImages(env, Targets(content));
    var newContent := ReplaceImages(content, urlMap);
    res := Ok(PublishResult(content, newContent, uploaded, errors));
  }

  /**
   * The first loop of PublishArticle: every distinct local image whose file
   * exists is handed to the uploader once; the URL map, the uploaded URLs,
   * the errors and the uploader calls are those of Run.
   */
  method UploadImages(env: Env, matches: seq<string>)
    returns (urlMap: map<string, string>, uploaded: seq<string>, errors: seq<string>, calls: seq<string>)
    requires ValidEnv(env)
    ensures var p := Run(OracleOf(env), matches);
      urlMap == p.urlMap && uploaded == p.uploaded && errors == p.errors && calls == p.calls
  {
    urlMap, uploaded, errors, calls := map[], [], [], [];
    var uniquePaths: set<string> := {};
    ghost var o := OracleOf(env);
    for i := 0 to |matches|
      invariant Progress(urlMap, uniquePaths, calls, uploaded, errors) == Run(o, matches[..i])
    {
      assert matches[..i + 1][..i] == matches[..i];
      var imgURL := matches[i];
      if HasPrefix(imgURL, "http") {
        continue;
      }
      var parts := Split(imgURL, ' ');
      var cleanPath := parts[0];
      BeforeIsFirstPiece(imgURL, ' ');
      var absPath := JoinPath(Dir(env.postPath), cleanPath);
      if env.notExist(absPath) {
        errors := errors + [NotFoundPrefix + cleanPath];
        continue;
      }
      if cleanPath in uniquePaths {
        continue;
      }
      uniquePaths := uniquePaths + {cleanPath};
      var remotePath := Rel(env.projectRoot, absPath);
      if env.pathPrefix != "" {
        remotePath := JoinPath(env.pathPrefix, remotePath);
      }
      calls := calls + [cleanPath];
      var outcome := env.upload(absPath, remotePath);
      assert outcome == o.answer(cleanPath);
      match outcome {
        case Err(e) =>
          errors := errors + [UploadFailedPrefix + cleanPath + ": " + e];
        case Ok(cdnURL) =>
          urlMap := urlMap[cleanPath := cdnURL];
          uploaded := uploaded + [cdnURL];
      }
    }
    assert matches[..|matches|] == matches;
  }

  /**
   * The second loop of PublishArticle: `(local` becomes `(remote` for every
   * entry of the map, visiting the keys in whatever order the map hands them
   * out.
   */
  method ReplaceImages(content: string, urlMap: map<string, string>) returns (newContent: string)
    ensures exists ord :: Enumerates(ord, urlMap.Keys) && newContent == ReplaceEach(content, ord, urlMap)
  {
    newContent := content;
    var remaining := urlMap.Keys;
    ghost var done: seq<string> := [];
    while remaining != {}
      invariant remaining <= urlMap.Keys
      invariant forall k :: k in done ==> k in urlMap && k !in remaining
      invariant forall k :: k in urlMap ==> k in done || k in remaining
      invariant Distinct(done)
      invariant newContent == ReplaceEach(content, done, urlMap)
      decreases |remaining|
    {
      var local :| local in remaining;
      var remote := urlMap[local];
      newContent := ReplaceAll(newContent, "(" + local, "(" + remote);
      assert (done + [local])[..|done|] == done;
      done := done + [local];
      remaining := remaining - {local};
    }
    assert Enumerates(done, urlMap.Keys);
  }

  // ---------------------------------------------------------------------
  // The matcher.
  // ---------------------------------------------------------------------

  lemma {:induction false} AltEndAt(t: string, i: nat, j: nat)
    requires i <= j && j + 1 < |t| && t[j] == ']' && t[j + 1] == '('
    requires forall k :: i <= k < j ==> t[k] != '\n' && t[k] != ']'
    ensures AltEnd(t, i) == Some(j)
    decreases j - i
  {
    if i < j {
      AltEndAt(t, i + 1, j);
    }
  }

  lemma {:induction false} TargetEndAt(t: string, i: nat, j: nat)
    requires i <= j < |t| && t[j] == ')'
    requires forall k :: i <= k < j ==> t[k] != ')' && t[k] != '\n'
    ensures TargetEnd(t, i) == Some(j)
    decreases j - i
  {
    if i < j {
      TargetEndAt(t, i + 1, j);
    }
  }

  /** An image whose alt text has no `]` and whose target has no `)`, both on one line, is matched whole. */
  lemma ImageMatched(alt: string, target: string, rest: string)
    requires ']' !in alt && '\n' !in alt
    requires ')' !in target && '\n' !in target
    ensures ImageAt(ImageText(alt, target) + rest) == Some(Image(target, |alt| + |target| + 5))
  {
    var t := ImageText(alt, target) + rest;
    var j := 2 + |alt|;
    var m := j + 2 + |target|;
    assert t[..2] == "![";
    assert forall k :: 2 <= k < j ==> t[k] == alt[k - 2];
    assert t[j] == ']' && t[j + 1] == '(';
    AltEndAt(t, 2, j);
    assert forall k :: j + 2 <= k < m ==> t[k] == target[k - j - 2];
    assert t[m] == ')';
    TargetEndAt(t, j + 2, m);
    assert t[j + 2..m] == target;
  }

  /** Nothing matches at a character other than `!`. */
  lemma NoImageWithoutBang(t: string)
    requires |t| > 0 && t[0] != '!'
    ensures ImageAt(t) == None
  {
    assert !HasPrefix(t, "![");
  }

  /** Text without `!` yields no target and does not disturb what follows. */
  lemma {:induction false} TargetsSkipText(before: string, t: string)
    requires '!' !in before
    ensures Targets(before + t) == Targets(t)
  {
    if |before| > 0 {
      var s := before + t;
      assert s[0] == before[0];
      NoImageWithoutBang(s);
      assert s[1..] == before[1..] + t;
      TargetsSkipText(before[1..], t);
    } else {
      assert before + t == t;
    }
  }

  /** A text without `!` has no image targets. */
  lemma NoImages(t: string)
    requires '!' !in t
    ensures Targets(t) == []
  {
    TargetsSkipText(t, "");
    assert t + "" == t;
  }

  /** An image after plain text yields its target, then the targets of the rest. */
  lemma ImageFound(before: string, alt: string, target: string, rest: string)
    requires '!' !in before
    requires ']' !in alt && '\n' !in alt
    requires ')' !in target && '\n' !in target
    ensures Targets(before + ImageText(alt, target) + rest) == [target] + Targets(rest)
  {
    var img := ImageText(alt, target);
    AppendAssoc(before, img, rest);
    TargetsSkipText(before, img + rest);
    ImageMatched(alt, target, rest);
    assert |img| == |alt| + |target| + 5;
    assert (img + rest)[|img|..] == rest;
  }

  /** A title after the path is not part of the clean path. */
  lemma CleanPathDropsTitle(path: string, title: string)
    requires ' ' !in path
    ensures CleanPath(path + " " + title) == path
  {
    var s := path + " " + title;
    assert s[..|path|] == path;
    BeforeAt(s, ' ', |path|);
  }

  /** A target without a space is its own clean path. */
  lemma CleanPathWithoutTitle(imgURL: string)
    requires ' ' !in imgURL
    ensures CleanPath(imgURL) == imgURL
  {
    assert imgURL[..|imgURL|] == imgURL;
    BeforeAt(imgURL, ' ', |imgURL|);
  }

  // ---------------------------------------------------------------------
  // Reference descriptions of the first loop's outcome.
  // ---------------------------------------------------------------------

  /** The distinct images to upload: the clean paths of the local targets whose file exists. */
  function Existing(o: Oracle, ts: seq<string>): set<string>
  {
    set t | t in ts && !Remote(t) && !o.missing(CleanPath(t)) :: CleanPath(t)
  }

  /** The clean paths of the local targets whose file is missing, once per occurrence. */
  function MissingPaths(o: Oracle, ts: seq<string>): seq<string>
  {
    if |ts| == 0 then []
    else
      var t := ts[|ts| - 1];
      MissingPaths(o, ts[..|ts| - 1]) +
        (if !Remote(t) && o.missing(CleanPath(t)) then [CleanPath(t)] else [])
  }

  function NotFoundMessages(paths: seq<string>): seq<string> {
    if |paths| == 0 then [] else NotFoundMessages(paths[..|paths| - 1]) + [NotFoundMessage(paths[|paths| - 1])]
  }

  /** The URLs the uploader returns for `cs`, in order, leaving out the failures. */
  function Succeeded(o: Oracle, cs: seq<string>): seq<string>
  {
    if |cs| == 0 then []
    else
      Succeeded(o, cs[..|cs| - 1]) +
        match o.answer(cs[|cs| - 1])
        case Ok(url) => [url]
        case Err(_) => []
  }

  /** The messages for the uploads of `cs` that fail, in order. */
  function Failed(o: Oracle, cs: seq<string>): seq<string>
  {
    if |cs| == 0 then []
    else
      var c := cs[|cs| - 1];
      Failed(o, cs[..|cs| - 1]) +
        match o.answer(c)
        case Ok(_) => []
        case Err(e) => [FailureMessage(c, e)]
  }

  /** The elements of `xs` that start with `pre`, in order. */
  function WithPrefix(xs: seq<string>, pre: string): seq<string> {
    if |xs| == 0 then []
    else WithPrefix(xs[..|xs| - 1], pre) + (if HasPrefix(xs[|xs| - 1], pre) then [xs[|xs| - 1]] else [])
  }

  // ---------------------------------------------------------------------
  // Properties of the first loop.
  // ---------------------------------------------------------------------

  lemma RunSnoc(o: Oracle, ts: seq<string>, t: string)
    ensures Run(o, ts + [t]) == Step(o, Run(o, ts), t)
  {
    assert (ts + [t])[..|ts|] == ts;
  }

  /** The two kinds of error message each carry their own prefix. */
  lemma MessageKinds(c: string, e: string)
    ensures HasPrefix(NotFoundMessage(c), NotFoundPrefix) && !HasPrefix(NotFoundMessage(c), UploadFailedPrefix)
    ensures HasPrefix(FailureMessage(c, e), UploadFailedPrefix) && !HasPrefix(FailureMessage(c, e), NotFoundPrefix)
  {
    var m, f := NotFoundMessage(c), FailureMessage(c, e);
    assert m[..|NotFoundPrefix|] == NotFoundPrefix;
    assert m[0] == 'I' && UploadFailedPrefix[0] == 'U';
    AppendAssoc(UploadFailedPrefix, c, ": ");
    AppendAssoc(UploadFailedPrefix, c + ": ", e);
    assert f == UploadFailedPrefix + (c + ": " + e);
    assert f[..|UploadFailedPrefix|] == UploadFailedPrefix;
    assert f[0] == 'U' && NotFoundPrefix[0] == 'I';
  }

  lemma ExistingSnoc(o: Oracle, ts: seq<string>, t: string)
    ensures Existing(o, ts + [t]) ==
      Existing(o, ts) + (if !Remote(t) && !o.missing(CleanPath(t)) then {CleanPath(t)} else {})
  {
    assert forall u :: u in ts + [t] <==> u in ts || u == t;
  }

  lemma WithPrefixSnoc(xs: seq<string>, x: string, pre: string)
    ensures WithPrefix(xs + [x], pre) == WithPrefix(xs, pre) + (if HasPrefix(x, pre) then [x] else [])
  {
    assert (xs + [x])[..|xs|] == xs;
  }

  lemma SucceededSnoc(o: Oracle, cs: seq<string>, c: string)
    ensures Succeeded(o, cs + [c]) == Succeeded(o, cs) + (match o.answer(c) case Ok(url) => [url] case Err(_) => [])
  {
    assert (cs + [c])[..|cs|] == cs;
  }

  lemma FailedSnoc(o: Oracle, cs: seq<string>, c: string)
    ensures Failed(o, cs + [c]) == Failed(o, cs) + (match o.answer(c) case Ok(_) => [] case Err(e) => [FailureMessage(c, e)])
  {
    assert (cs + [c])[..|cs|] == cs;
  }

  /** The uploader calls so far are distinct and are exactly the keys of uniquePaths. */
  ghost predicate CallsKept(p: Progress) {
    Distinct(p.calls) && |p.calls| == |p.uniquePaths| && forall c :: c in p.calls <==> c in p.uniquePaths
  }

  /** One iteration keeps CallsKept and adds the target's clean path to uniquePaths when its file exists. */
  lemma StepCalls(o: Oracle, p: Progress, t: string)
    requires CallsKept(p)
    ensures CallsKept(Step(o, p, t))
    ensures Step(o, p, t).uniquePaths ==
      p.uniquePaths + (if !Remote(t) && !o.missing(CleanPath(t)) then {CleanPath(t)} else {})
  {
    if !Remote(t) && !o.missing(CleanPath(t)) && CleanPath(t) !in p.uniquePaths {
      var c := CleanPath(t);
      CallsKeptAdd(p, c);
      var q := p.(uniquePaths := p.uniquePaths + {c}, calls := p.calls + [c]);
      assert Step(o, p, t).calls == q.calls && Step(o, p, t).uniquePaths == q.uniquePaths;
    }
  }

  /** Handing a new path to the uploader keeps the calls and uniquePaths in step. */
  lemma CallsKeptAdd(p: Progress, c: string)
    requires CallsKept(p) && c !in p.uniquePaths
    ensures CallsKept(p.(uniquePaths := p.uniquePaths + {c}, calls := p.calls + [c]))
  {
    var cs := p.calls + [c];
    assert forall i :: 0 <= i < |p.calls| ==> cs[i] == p.calls[i];
    assert forall x :: x in cs <==> x in p.calls || x == c;
  }

  /**
   * The uploader is called once for each distinct existing local path and
   * for nothing else; those paths are the keys of uniquePaths.
   */
  lemma {:induction false} CallsAreExisting(o: Oracle, ts: seq<string>)
    ensures CallsKept(Run(o, ts)) && Run(o, ts).uniquePaths == Existing(o, ts)
  {
    if |ts| > 0 {
      var ts', t := ts[..|ts| - 1], ts[|ts| - 1];
      assert ts == ts' + [t];
      CallsAreExisting(o, ts');
      StepCalls(o, Run(o, ts'), t);
      ExistingSnoc(o, ts', t);
    }
  }

  /**
   * UploadedImages lists the URLs of the successful uploads in call order,
   * the "Upload failed" errors the failures in call order, and urlMap maps
   * exactly the successfully uploaded paths to their URLs.
   */
  ghost predicate OutcomesKept(o: Oracle, p: Progress)
  {
    p.uploaded == Succeeded(o, p.calls) &&
    WithPrefix(p.errors, UploadFailedPrefix) == Failed(o, p.calls) &&
    (forall c :: c in p.urlMap <==> c in p.calls && o.answer(c).Ok?) &&
    (forall c :: c in p.urlMap ==> p.urlMap[c] == o.answer(c).value && p.urlMap[c] in p.uploaded)
  }

  lemma StepOutcomes(o: Oracle, p: Progress, t: string)
    requires CallsKept(p) && OutcomesKept(o, p)
    ensures OutcomesKept(o, Step(o, p, t))
  {
    if !Remote(t) {
      var c := CleanPath(t);
      if o.missing(c) {
        MessageKinds(c, "");
        WithPrefixSnoc(p.errors, NotFoundMessage(c), UploadFailedPrefix);
      } else if c !in p.uniquePaths {
        match o.answer(c)
        case Err(e) => UploadFails(o, p, c, e);
        case Ok(url) => UploadSucceeds(o, p, c, url);
      }
    }
  }

  lemma UploadFails(o: Oracle, p: Progress, c: string, e: string)
    requires CallsKept(p) && OutcomesKept(o, p)
    requires c !in p.uniquePaths && o.answer(c) == Err(e)
    ensures OutcomesKept(o, p.(uniquePaths := p.uniquePaths + {c}, calls := p.calls + [c], errors := p.errors + [FailureMessage(c, e)]))
  {
    SucceededSnoc(o, p.calls, c);
    FailedSnoc(o, p.calls, c);
    MessageKinds(c, e);
    WithPrefixSnoc(p.errors, FailureMessage(c, e), UploadFailedPrefix);
    assert forall x :: x in p.calls + [c] <==> x in p.calls || x == c;
  }

  lemma UploadSucceeds(o: Oracle, p: Progress, c: string, url: string)
    requires CallsKept(p) && OutcomesKept(o, p)
    requires c !in p.uniquePaths && o.answer(c) == Ok(url)
    ensures OutcomesKept(o, p.(urlMap := p.urlMap[c := url], uniquePaths := p.uniquePaths + {c},
                                 calls := p.calls + [c], uploaded := p.uploaded + [url]))
  {
    SucceededSnoc(o, p.calls, c);
    FailedSnoc(o, p.calls, c);
    UrlMapAdd(o, p.urlMap, p.calls, p.uploaded, c, url);
  }

  /** Recording a successful call keeps the URL map equal to the successful calls and their URLs. */
  lemma UrlMapAdd(o: Oracle, m: map<string, string>, calls: seq<string>, uploaded: seq<string>, c: string, url: string)
    requires forall x :: x in m <==> x in calls && o.answer(x).Ok?
    requires forall x :: x in m ==> m[x] == o.answer(x).value && m[x] in uploaded
    requires o.answer(c) == Ok(url)
    ensures forall x :: x in m[c := url] <==> x in calls + [c] && o.answer(x).Ok?
    ensures forall x :: x in m[c := url] ==> m[c := url][x] == o.answer(x).value && m[c := url][x] in uploaded + [url]
  {
    forall x ensures x in m[c := url] <==> x in calls + [c] && o.answer(x).Ok? {
      assert x in calls + [c] <==> x in calls || x == c;
    }
    forall x | x in m[c := url] ensures m[c := url][x] == o.answer(x).value && m[c := url][x] in uploaded + [url] {
      if x != c {
        assert m[c := url][x] == m[x] && m[x] in uploaded;
      }
    }
  }

  lemma {:induction false} OutcomesOfCalls(o: Oracle, ts: seq<string>)
    ensures OutcomesKept(o, Run(o, ts))
  {
    if |ts| > 0 {
      var ts' := ts[..|ts| - 1];
      OutcomesOfCalls(o, ts');
      CallsAreExisting(o, ts');
      StepOutcomes(o, Run(o, ts'), ts[|ts| - 1]);
    }
  }

  /** What one iteration adds to the errors: a "not found" message for a missing file, otherwise at most a failed upload. */
  lemma StepErrors(o: Oracle, p: Progress, t: string)
    ensures var q, missing := Step(o, p, t), !Remote(t) && o.missing(CleanPath(t));
      WithPrefix(q.errors, NotFoundPrefix) ==
        WithPrefix(p.errors, NotFoundPrefix) + (if missing then [NotFoundMessage(CleanPath(t))] else []) &&
      |q.errors| + |Failed(o, p.calls)| == |p.errors| + (if missing then 1 else 0) + |Failed(o, q.calls)|
  {
    if !Remote(t) {
      var c := CleanPath(t);
      if o.missing(c) {
        MessageKinds(c, "");
        WithPrefixSnoc(p.errors, NotFoundMessage(c), NotFoundPrefix);
      } else if c !in p.uniquePaths {
        FailedSnoc(o, p.calls, c);
        match o.answer(c)
        case Err(e) =>
          MessageKinds(c, e);
          WithPrefixSnoc(p.errors, FailureMessage(c, e), NotFoundPrefix);
        case Ok(url) =>
      }
    }
  }

  /**
   * Each missing file is reported once per reference, in order, and every
   * error is either such a report or a failed upload.
   */
  lemma {:induction false} MissingReported(o: Oracle, ts: seq<string>)
    ensures var p := Run(o, ts);
      WithPrefix(p.errors, NotFoundPrefix) == NotFoundMessages(MissingPaths(o, ts)) &&
      |p.errors| == |MissingPaths(o, ts)| + |Failed(o, p.calls)|
  {
    if |ts| > 0 {
      var ts', t := ts[..|ts| - 1], ts[|ts| - 1];
      MissingReported(o, ts');
      StepErrors(o, Run(o, ts'), t);
      var ms := MissingPaths(o, ts');
      if !Remote(t) && o.missing(CleanPath(t)) {
        assert (ms + [CleanPath(t)])[..|ms|] == ms;
      } else {
        assert ms + [] == ms;
      }
    }
  }

  lemma {:induction false} SucceededPlusFailed(o: Oracle, cs: seq<string>)
    ensures |Succeeded(o, cs)| + |Failed(o, cs)| == |cs|
  {
    if |cs| > 0 {
      SucceededPlusFailed(o, cs[..|cs| - 1]);
    }
  }

  /**
   * Every distinct existing local image ends up either in UploadedImages or
   * in one "Upload failed" error, never both.
   */
  lemma OutcomesPartition(o: Oracle, ts: seq<string>)
    ensures var p := Run(o, ts);
      |p.uploaded| + |WithPrefix(p.errors, UploadFailedPrefix)| == |Existing(o, ts)|
  {
    CallsAreExisting(o, ts);
    OutcomesOfCalls(o, ts);
    SucceededPlusFailed(o, Run(o, ts).calls);
  }

  /** A remote target changes nothing: no error, no upload, no mapping. */
  lemma RemoteSkipped(o: Oracle, ts: seq<string>, t: string)
    requires Remote(t)
    ensures Run(o, ts + [t]) == Run(o, ts)
  {
    RunSnoc(o, ts, t);
  }

  /** A further reference to an existing image already seen changes nothing. */
  lemma RepeatIgnored(o: Oracle, ts: seq<string>, t: string)
    requires !Remote(t) && CleanPath(t) in Existing(o, ts)
    ensures Run(o, ts + [t]) == Run(o, ts)
  {
    RunSnoc(o, ts, t);
    CallsAreExisting(o, ts);
  }

  /** A missing image is reported again at every reference, and nothing else changes. */
  lemma MissingRepeated(o: Oracle, ts: seq<string>, t: string)
    requires !Remote(t) && o.missing(CleanPath(t))
    ensures Run(o, ts + [t]) == Run(o, ts).(errors := Run(o, ts).errors + [NotFoundMessage(CleanPath(t))])
  {
    RunSnoc(o, ts, t);
  }

  /** Without a path prefix, the remote path leads from the project root back to the image. */
  lemma RemotePathLocates(env: Env, cleanPath: string)
    requires ValidEnv(env) && env.pathPrefix == ""
    ensures JoinPath(env.projectRoot, RemotePath(env, AbsPath(env, cleanPath))) == AbsPath(env, cleanPath)
  {
    var dir := Dir(env.postPath);
    var abs := AbsPath(env, cleanPath);
    RelRoundTrip(env.projectRoot, abs);
    if cleanPath == "" {
      CleanIdempotent(dir);
    } else {
      CleanIdempotent(dir + "/" + cleanPath);
    }
  }

  /**
   * With a clean relative path prefix, the remote path of an image below the
   * project root is the prefix, `/`, and the image's path relative to the root.
   */
  lemma RemotePathPrefixed(env: Env, cleanPath: string, ps: seq<string>)
    requires ValidEnv(env) && AllNormal(ps) && |ps| > 0 && env.pathPrefix == Join(ps, "/")
    requires var abs := AbsPath(env, cleanPath);
      Elements(env.projectRoot) <= Elements(abs) && Elements(env.projectRoot) != Elements(abs)
    ensures var abs := AbsPath(env, cleanPath);
      RemotePath(env, abs) == env.pathPrefix + "/" + Rel(env.projectRoot, abs)
  {
    var abs := AbsPath(env, cleanPath);
    var b, t := Elements(env.projectRoot), Elements(abs);
    RelBelow(env.projectRoot, abs);
    var rest := t[|b|..];
    assert AllNormal(rest) by { AllNormalParts(t, |b|); }
    JoinNonEmpty(ps, "/");
    JoinAppend(ps, rest, "/");
    assert AllNormal(ps + rest) by {
      assert forall i :: 0 <= i < |ps + rest| ==> (ps + rest)[i] == if i < |ps| then ps[i] else rest[i - |ps|];
    }
    CleanRelative(ps + rest);
  }

  // ---------------------------------------------------------------------
  // Properties of the second loop.
  // ---------------------------------------------------------------------

  /** An enumeration of a key set is as long as the set is large. */
  lemma {:induction false} EnumerationLength(ord: seq<string>, keys: set<string>)
    requires Enumerates(ord, keys)
    ensures |ord| == |keys|
  {
    if |ord| > 0 {
      var last := ord[|ord| - 1];
      var ord' := ord[..|ord| - 1];
      assert forall i :: 0 <= i < |ord'| ==> ord'[i] != last;
      assert Enumerates(ord', keys - {last}) by {
        forall k | k in keys - {last} ensures k in ord' {
          var i :| 0 <= i < |ord| && ord[i] == k;
          assert i < |ord| - 1;
          assert ord'[i] == k;
        }
      }
      EnumerationLength(ord', keys - {last});
    }
  }

  /** With a single uploaded image, the second loop is one ReplaceAll, whatever the order. */
  lemma SingleReplacement(s: string, ord: seq<string>, m: map<string, string>, local: string)
    requires m.Keys == {local} && Enumerates(ord, m.Keys)
    ensures ReplaceEach(s, ord, m) == ReplaceAll(s, "(" + local, "(" + m[local])
  {
    EnumerationLength(ord, m.Keys);
    assert ord[0] in m.Keys;
    assert ord[..0] == [];
  }

  /** When nothing was uploaded, the published text is the original text. */
  lemma NothingUploadedUnchanged(o: Oracle, ts: seq<string>, s: string, ord: seq<string>)
    requires Run(o, ts).uploaded == []
    requires Enumerates(ord, Run(o, ts).urlMap.Keys)
    ensures ReplaceEach(s, ord, Run(o, ts).urlMap) == s
  {
    OutcomesOfCalls(o, ts);
    assert Run(o, ts).urlMap.Keys == {};
    EnumerationLength(ord, Run(o, ts).urlMap.Keys);
  }
}
