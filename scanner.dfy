/**
 * scanArticles of main.go: the article index. The directory walk is an
 * input: one Entry per visited path, in walk order, carrying what WalkDir,
 * os.ReadFile and d.Info() would have reported for it.
 */
module Scanner {
  import opened Wrappers
  import opened GoStrings
  import opened GoPaths
  import opened Metadata

  /** An indexed article; UpdatedAt is a timestamp, larger meaning later. */
  datatype Article = Article(
    ID: string,
    Title: string,
    Series: string,
    Path: string,
    RelPath: string,
    Slug: string,
    UpdatedAt: int)

  /**
   * One visited path: its path relative to the posts directory, whether it is
   * a directory, the error WalkDir passed with it, what reading the file gives,
   * its modification time when d.Info() succeeds, and what time.Now() reads
   * when the callback reaches it (each callback reads the clock anew).
   */
  datatype Entry = Entry(
    relPath: string,
    isDir: bool,
    walkErr: Option<string>,
    content: Result<string, string>,
    modTime: Option<int>,
    now: int)

  /** The series of articles directly in the posts directory. */
  const OtherSeries := "其他"

  /** Only regular files with extension `.md` or `.adoc` become articles. */
  predicate Indexable(postsDir: string, e: Entry) {
    var ext := Ext(JoinPath(postsDir, e.relPath));
    !e.isDir && (ext == ".md" || ext == ".adoc")
  }

  /** The identifier: the relative path without extension, separators replaced by `_`. */
  function ArticleId(relPath: string, ext: string): string {
    ReplaceAll(TrimSuffix(relPath, ext), "/", "_")
  }

  /** The series: the first directory of the relative path, or the fallback bucket. */
  function SeriesOf(relPath: string): string {
    var parts := Split(relPath, '/');
    if |parts| > 1 then parts[0] else OtherSeries
  }

  /** The article the walk callback appends for an indexable entry whose file reads as `content`. */
  function Derive(postsDir: string, e: Entry, content: string): Article {
    var path := JoinPath(postsDir, e.relPath);
    var ext := Ext(path);
    var title := Title(content);
    var slug := Slug(content);
    Article(
      ArticleId(e.relPath, ext),
      if title == "" then Base(path) else title,
      SeriesOf(e.relPath),
      path,
      e.relPath,
      if slug == "" then TrimSuffix(Base(path), ext) else slug,
      e.modTime.GetOr(e.now))
  }

  /**
   * What the WalkDir callback does with one entry: pass on a walk error, skip
   * what is not an article, pass on a read error, or contribute one article.
   */
  function Step(postsDir: string, e: Entry): (r: (seq<Article>, Option<string>))
    ensures r.1.Some? ==> r.0 == []
    ensures |r.0| <= 1
  {
    if e.walkErr.Some? then ([], e.walkErr)
    else if !Indexable(postsDir, e) then ([], None)
    else match e.content
      case Err(m) => ([], Some(m))
      case Ok(c) => ([Derive(postsDir, e, c)], None)
  }

  /**
   * The walk: entries are visited in order; the first error stops it and is
   * reported along with the articles collected so far.
   */
  function Walk(postsDir: string, entries: seq<Entry>): (seq<Article>, Option<string>) {
    if |entries| == 0 then ([], None)
    else
      var one := Step(postsDir, entries[0]);
      if one.1.Some? then one
      else
        var rest := Walk(postsDir, entries[1..]);
        (one.0 + rest.0, rest.1)
  }

  /** Descending by UpdatedAt: the newest article first. */
  predicate NewestFirst(a: seq<Article>) {
    forall i, j :: 0 <= i < j < |a| ==> a[i].UpdatedAt >= a[j].UpdatedAt
  }

  /** Places `x` into a newest-first list before the first article not newer than it. */
  function Insert(x: Article, a: seq<Article>): (r: seq<Article>)
    requires NewestFirst(a)
    ensures |r| == |a| + 1 && NewestFirst(r)
    ensures multiset(r) == multiset(a) + multiset{x}
    ensures r[0] == x || (|a| > 0 && r[0] == a[0])
  {
    if |a| == 0 then [x]
    else if x.UpdatedAt >= a[0].UpdatedAt then
      ConsNewestFirst(x, a);
      [x] + a
    else
      var t := Insert(x, a[1..]);
      assert a == [a[0]] + a[1..];
      assert a[0].UpdatedAt >= t[0].UpdatedAt;
      ConsNewestFirst(a[0], t);
      [a[0]] + t
  }

  /** An article at least as new as the head of a newest-first list can go in front. */
  lemma ConsNewestFirst(h: Article, t: seq<Article>)
    requires NewestFirst(t) && (|t| > 0 ==> h.UpdatedAt >= t[0].UpdatedAt)
    ensures NewestFirst([h] + t)
  {
    var r := [h] + t;
    forall i, j | 0 <= i < j < |r| ensures r[i].UpdatedAt >= r[j].UpdatedAt {
      if i > 0 {
        assert r[i] == t[i - 1] && r[j] == t[j - 1];
      } else {
        assert r[j] == t[j - 1];
      }
    }
  }

  /**
   * The order sort.Slice leaves the index in: newest first, a permutation of
   * the input (SortedNewestFirst). sort.Slice is not stable, so only the order
   * of articles with different UpdatedAt is determined; this one fixes ties
   * in input order.
   */
  function SortNewestFirst(a: seq<Article>): (r: seq<Article>)
    ensures NewestFirst(r)
    ensures multiset(r) == multiset(a)
  {
    if |a| == 0 then []
    else
      assert a == [a[0]] + a[1..];
      Insert(a[0], SortNewestFirst(a[1..]))
  }

  /** The global `articles` of main.go, rebuilt by each scan. */
  class ArticleIndex {
    var articles: seq<Article>

    constructor()
      ensures articles == []
    {
      articles := [];
    }

    /**
     * scanArticles: reset the index, walk the entries appending one article per
     * indexable file, sort newest first, and report the walk's error if any.
     */
    method Scan(postsDir: string, entries: seq<Entry>) returns (err: Option<string>)
      modifies this
      ensures articles == SortNewestFirst(Walk(postsDir, entries).0)
      ensures err == Walk(postsDir, entries).1
    {
      articles := [];
      err := None;
      ghost var w := Walk(postsDir, entries);
      var i := 0;
      assert entries[0..] == entries;
      while i < |entries|
        invariant 0 <= i <= |entries|
        invariant err.None?
        invariant w.0 == articles + Walk(postsDir, entries[i..]).0
        invariant w.1 == Walk(postsDir, entries[i..]).1
      {
        WalkAt(postsDir, entries, i);
        ghost var before := articles;
        err := Visit(postsDir, entries[i]);
        if err.Some? {
          break;
        }
        ghost var one, rest := Step(postsDir, entries[i]), Walk(postsDir, entries[i + 1..]);
        assert articles == before + one.0;
        AppendAssoc(before, one.0, rest.0);
        i := i + 1;
      }
      if err.None? {
        assert entries[i..] == [];
      }
      assert articles == w.0;
      articles := SortNewestFirst(articles);
    }

    /**
     * The WalkDir callback for one entry: pass on a walk error, skip what is
     * not an article, pass on a read error, or append the entry's article.
     */
    method Visit(postsDir: string, e: Entry) returns (err: Option<string>)
      modifies this
      ensures articles == old(articles) + Step(postsDir, e).0
      ensures err == Step(postsDir, e).1
    {
      if e.walkErr.Some? {
        return e.walkErr;
      }
      var path := JoinPath(postsDir, e.relPath);
      var ext := Ext(path);
      if e.isDir || (ext != ".md" && ext != ".adoc") {
        return None;
      }
      if e.content.Err? {
        return Some(e.content.error);
      }
      var content := e.content.value;
      var title, slug := ExtractMetadata(content);
      if title == "" {
        title := Base(path);
      }
      if slug == "" {
        slug := TrimSuffix(Base(path), ext);
      }
      var parts := Split(e.relPath, '/');
      var series := OtherSeries;
      if |parts| > 1 {
        series := parts[0];
      }
      var updatedAt := e.now;
      if e.modTime.Some? {
        updatedAt := e.modTime.value;
      }
      var id := TrimSuffix(e.relPath, ext);
      id := ReplaceAll(id, "/", "_");
      articles := articles + [Article(id, title, series, path, e.relPath, slug, updatedAt)];
      return None;
    }
  }

  // ---------------------------------------------------------------------
  // Properties of the index.
  // ---------------------------------------------------------------------

  /** The walk from entry `i` on: that entry's step, then, unless it failed, the walk from `i + 1`. */
  lemma WalkAt(postsDir: string, entries: seq<Entry>, i: nat)
    requires i < |entries|
    ensures var one, rest := Step(postsDir, entries[i]), Walk(postsDir, entries[i + 1..]);
      Walk(postsDir, entries[i..]) == if one.1.Some? then one else (one.0 + rest.0, rest.1)
  {
    assert entries[i..][0] == entries[i] && entries[i..][1..] == entries[i + 1..];
  }

  /** The walk collects no more articles than it visits entries. */
  lemma {:induction false} WalkBounded(postsDir: string, entries: seq<Entry>)
    ensures |Walk(postsDir, entries).0| <= |entries|
  {
    if |entries| > 0 {
      WalkBounded(postsDir, entries[1..]);
    }
  }

  /** Every article collected is derived from an indexable entry of the walk whose file could be read. */
  lemma {:induction false} WalkFromEntries(postsDir: string, entries: seq<Entry>)
    ensures forall a :: a in Walk(postsDir, entries).0 ==>
      exists e :: e in entries && Indexable(postsDir, e) && e.content.Ok? &&
        a == Derive(postsDir, e, e.content.value)
  {
    if |entries| > 0 {
      WalkFromEntries(postsDir, entries[1..]);
      assert forall e :: e in entries[1..] ==> e in entries;
    }
  }

  /** The number of entries that become articles when nothing fails. */
  function CountIndexable(postsDir: string, entries: seq<Entry>): nat {
    if |entries| == 0 then 0
    else (if Indexable(postsDir, entries[0]) then 1 else 0) + CountIndexable(postsDir, entries[1..])
  }

  /** Without errors, every indexable entry yields exactly one article and the walk reports nothing. */
  lemma {:induction false} WalkComplete(postsDir: string, entries: seq<Entry>)
    requires forall i :: 0 <= i < |entries| ==> entries[i].walkErr.None?
    requires forall i :: 0 <= i < |entries| && Indexable(postsDir, entries[i]) ==> entries[i].content.Ok?
    ensures Walk(postsDir, entries).1 == None
    ensures |Walk(postsDir, entries).0| == CountIndexable(postsDir, entries)
  {
    if |entries| > 0 {
      assert forall i :: 0 <= i < |entries[1..]| ==> entries[1..][i] == entries[i + 1];
      WalkComplete(postsDir, entries[1..]);
    }
  }

  /** A walk error stops the scan: the entries after the failing one are never looked at. */
  lemma {:induction false} WalkStops(postsDir: string, entries: seq<Entry>, i: nat, more: seq<Entry>)
    requires i < |entries|
    requires entries[i].walkErr.Some? ||
      (Indexable(postsDir, entries[i]) && entries[i].content.Err?)
    ensures Walk(postsDir, entries[..i + 1] + more) == Walk(postsDir, entries)
    ensures Walk(postsDir, entries).1.Some?
  {
    if i == 0 {
      assert (entries[..1] + more)[0] == entries[0];
    } else {
      assert (entries[..i + 1] + more)[1..] == entries[1..][..i] + more;
      assert entries[1..][i - 1] == entries[i];
      WalkStops(postsDir, entries[1..], i - 1, more);
      assert (entries[..i + 1] + more)[0] == entries[0];
    }
  }

  /** The series is the text before the first separator, or the fallback for a top-level file. */
  lemma SeriesIsFirstDirectory(relPath: string)
    ensures '/' in relPath ==> SeriesOf(relPath) == Before(relPath, '/')
    ensures '/' !in relPath ==> SeriesOf(relPath) == OtherSeries
  {
    SplitManyPieces(relPath, '/');
    BeforeIsFirstPiece(relPath, '/');
  }

  /** An identifier never contains a separator. */
  lemma IdHasNoSeparator(relPath: string, ext: string)
    ensures '/' !in ArticleId(relPath, ext)
  {
    ReplaceAllRemoves(TrimSuffix(relPath, ext), '/', "_");
  }

  /**
   * Identifiers are not unique: `<dir>/<name>` and `<dir>_<name>` with the same
   * extension get the same identifier, and handleArticle then serves the first.
   */
  lemma IdCollision(dir: string, name: string, ext: string)
    ensures ArticleId(dir + "/" + name + ext, ext) == ArticleId(dir + "_" + name + ext, ext)
  {
    var a, b := dir + "/" + name, dir + "_" + name;
    assert (a + ext)[|a + ext| - |ext|..] == ext && (b + ext)[|b + ext| - |ext|..] == ext;
    assert TrimSuffix(a + ext, ext) == a && TrimSuffix(b + ext, ext) == b;
    ReplaceAllConcat(dir + "/", name, '/', "_");
    ReplaceAllConcat(dir, "/", '/', "_");
    ReplaceAllConcat(dir + "_", name, '/', "_");
    ReplaceAllConcat(dir, "_", '/', "_");
    ReplaceAllChar('/', '/', "_");
    ReplaceAllChar('_', '/', "_");
  }

  /** The defaults of an article: base name for a missing title, base name without extension for a missing slug. */
  lemma DeriveDefaults(postsDir: string, e: Entry, content: string)
    ensures var a := Derive(postsDir, e, content);
      (Title(content) == "" ==> a.Title == Base(a.Path)) &&
      (Title(content) != "" ==> a.Title == Title(content)) &&
      (Slug(content) == "" ==> a.Slug + Ext(a.Path) == Base(a.Path)) &&
      (Slug(content) != "" ==> a.Slug == Slug(content)) &&
      (e.modTime.Some? ==> a.UpdatedAt == e.modTime.value) &&
      (e.modTime.None? ==> a.UpdatedAt == e.now)
  {
    var path := JoinPath(postsDir, e.relPath);
    if Slug(content) == "" {
      BaseEndsWithExt(path);
    }
  }

  /** The extension of a path is a suffix of its base name. */
  lemma BaseEndsWithExt(p: string)
    ensures HasSuffix(Base(p), Ext(p))
  {
    var e := Ext(p);
    if e != "" {
      var q := TrimRight(p, {'/'});
      TrimRightSpec(p, {'/'});
      assert p[|p| - 1] != '/';
      assert q == p;
      match LastIndexOf(q, '/')
      case Some(i) => SuffixAfter(q, i, e, '/');
      case None =>
    }
  }
}
