/**
  The article scraper: the article file layout, delta detection against the previous run's
  metadata, and the scrape loop that saves new and updated articles (slugs are in `Slug`,
  the Markdown clean-up in `Markdown`). The HTTP fetch, SHA-256 and the HTML-to-Markdown
  converter stay outside: the fetched articles are a parameter, and the hash and the
  converter are function parameters.
 */
module Scraper {
  import opened Wrappers
  import opened Text
  import opened Slug
  import opened Markdown

  /** An article record from the help-center API. Apart from the id, each field may be
      missing from the record; `Title()` etc. give the value the scraper reads with `.get`. */
  datatype Article = Article(
    id: string,
    title: Option<string>,
    updatedAt: Option<string>,
    body: Option<string>,
    htmlUrl: Option<string>)
  {
    function Title(): string { title.GetOr(DefaultTitle) }
    function UpdatedAt(): string { updatedAt.GetOr("") }
    function Body(): string { body.GetOr("") }
    function Url(): string { htmlUrl.GetOr("") }
  }

  /** One entry of `article_metadata.json`. A file written by another version may lack the
      hash, hence the option. */
  datatype ArticleMeta = ArticleMeta(title: string, updatedAt: string, contentHash: Option<string>, slug: string)

  /** Article id to metadata; the whole metadata file. */
  type Metadata = map<string, ArticleMeta>

  datatype Change = New | Updated | Unchanged

  /** An entry of the `files` list returned by a scrape and handed to the uploader. */
  datatype ProcessedFile = ProcessedFile(filename: string, content: string, articleId: string, title: Option<string>)

  datatype ScrapeResult = ScrapeResult(added: nat, updated: nat, skipped: nat, files: seq<ProcessedFile>)

  // ---------------------------------------------------------------------------------------
  // Article files

  /** The saved file: a level-one heading, the Markdown, and the article's URL. */
  function ArticleContent(title: string, markdown: string, url: string): string {
    "# " + title + "\n\n" + markdown + "\n\nArticle URL: " + url
  }

  /** The heading and the URL can be read back from a saved file: its first line is the
      heading and its last line the URL line. */
  lemma {:induction false} ArticleContentLines(title: string, markdown: string, url: string)
    requires '\n' !in title && '\n' !in url
    ensures var lines := Split(ArticleContent(title, markdown, url), '\n');
      lines[0] == "# " + title && lines[|lines| - 1] == "Article URL: " + url
  {
    var heading := "# " + title;
    var urlLine := "Article URL: " + url;
    assert ArticleContent(title, markdown, url) == heading + ['\n'] + ("\n" + markdown + "\n") + ['\n'] + urlLine;
    FirstAndLastParts(heading, "\n" + markdown + "\n", urlLine, '\n');
  }

  /** The file name `save_article` writes an article with the given title to. */
  function FileName(title: string): (name: string)
    ensures |name| >= 3 && name[|name| - 3..] == ".md"
  {
    var slug := GenerateSlug(title);
    assert (slug + ".md")[|slug + ".md"| - 3..] == ".md";
    slug + ".md"
  }

  /** The processed-file record `scrape_articles` keeps for an article it saved. */
  function FileFor(article: Article, markdownify: string -> string): (f: ProcessedFile)
    ensures f.articleId == article.id && f.title == article.title
    ensures |f.filename| >= 3 && f.filename[|f.filename| - 3..] == ".md"
  {
    var title := article.Title();
    ProcessedFile(
      FileName(title),
      ArticleContent(title, CleanedMarkdown(article.Body(), markdownify), article.Url()),
      article.id,
      article.title)
  }

  /** An article without a title is saved as `untitled.md`. */
  lemma UntitledFile(article: Article, markdownify: string -> string)
    requires article.title.None?
    ensures FileFor(article, markdownify).filename == "untitled.md"
  {
    UntitledFileName();
  }

  lemma UntitledFileName()
    ensures FileName(DefaultTitle) == "untitled.md"
  {
    UntitledSlug();
    UntitledSlugFileName(DefaultTitle);
  }

  lemma UntitledSlugFileName(title: string)
    requires GenerateSlug(title) == "untitled"
    ensures FileName(title) == "untitled.md"
  {
  }

  /** `FileFor` as a function value, for the specifications below. */
  function FileMaker(markdownify: string -> string): Article -> ProcessedFile {
    article => FileFor(article, markdownify)
  }

  /** The records `save` makes of the articles whose write succeeded; `writeSucceeds(start + i)`
      says whether the write of `articles[i]` succeeds. */
  function SavedFiles(articles: seq<Article>, start: nat, writeSucceeds: nat -> bool, save: Article -> ProcessedFile): seq<ProcessedFile>
  {
    if articles == [] then []
    else
      var n := |articles| - 1;
      SavedFiles(articles[..n], start, writeSucceeds, save)
      + (if writeSucceeds(start + n) then [save(articles[n])] else [])
  }

  /** Saving one more article adds its file when its write succeeds. */
  lemma SavedFilesExtend(articles: seq<Article>, i: nat, writeSucceeds: nat -> bool, save: Article -> ProcessedFile)
    requires i < |articles|
    ensures SavedFiles(articles[..i + 1], 0, writeSucceeds, save)
         == SavedFiles(articles[..i], 0, writeSucceeds, save) + (if writeSucceeds(i) then [save(articles[i])] else [])
  {
    assert articles[..i + 1][..i] == articles[..i];
  }

  /** Saving `a + b` saves the files of `a` first, then those of `b`. */
  lemma {:induction false} SavedFilesAppend(a: seq<Article>, b: seq<Article>, start: nat, writeSucceeds: nat -> bool, save: Article -> ProcessedFile)
    ensures SavedFiles(a + b, start, writeSucceeds, save)
         == SavedFiles(a, start, writeSucceeds, save) + SavedFiles(b, start + |a|, writeSucceeds, save)
  {
    if b != [] {
      var n := |b| - 1;
      var last := if writeSucceeds(start + |a| + n) then [save(b[n])] else [];
      SavedFilesAppend(a, b[..n], start, writeSucceeds, save);
      assert (a + b)[..|a + b| - 1] == a + b[..n];
      assert (a + b)[|a + b| - 1] == b[n];
      assert SavedFiles(a + b, start, writeSucceeds, save)
          == SavedFiles(a + b[..n], start, writeSucceeds, save) + last;
      assert SavedFiles(b, start + |a|, writeSucceeds, save)
          == SavedFiles(b[..n], start + |a|, writeSucceeds, save) + last;
    } else {
      assert a + b == a;
    }
  }

  /** At most one file per article, and every saved file belongs to an article whose
      write succeeded. */
  lemma {:induction false} SavedFilesAreTheSuccesses(articles: seq<Article>, start: nat, writeSucceeds: nat -> bool, save: Article -> ProcessedFile)
    ensures |SavedFiles(articles, start, writeSucceeds, save)| <= |articles|
    ensures forall j | 0 <= j < |SavedFiles(articles, start, writeSucceeds, save)| :: exists i | 0 <= i < |articles| ::
      writeSucceeds(start + i) && SavedFiles(articles, start, writeSucceeds, save)[j] == save(articles[i])
  {
    if articles != [] {
      var n := |articles| - 1;
      var init := articles[..n];
      SavedFilesAreTheSuccesses(init, start, writeSucceeds, save);
      var files := SavedFiles(articles, start, writeSucceeds, save);
      var initFiles := SavedFiles(init, start, writeSucceeds, save);
      assert files == initFiles + (if writeSucceeds(start + n) then [save(articles[n])] else []);
      forall j | 0 <= j < |files| ensures exists i | 0 <= i < |articles| ::
          writeSucceeds(start + i) && files[j] == save(articles[i]) {
        if j < |initFiles| {
          assert files[j] == initFiles[j];
          var i :| 0 <= i < |init| && writeSucceeds(start + i) && initFiles[j] == save(init[i]);
          assert articles[i] == init[i];
        } else {
          assert writeSucceeds(start + n) && files[j] == save(articles[n]);
        }
      }
    }
  }

  /** Every article whose write succeeds has its record among the saved files. */
  lemma {:induction false} SavedFilesIncludeTheSuccesses(articles: seq<Article>, start: nat, writeSucceeds: nat -> bool, save: Article -> ProcessedFile, i: nat)
    requires i < |articles| && writeSucceeds(start + i)
    ensures save(articles[i]) in SavedFiles(articles, start, writeSucceeds, save)
  {
    var n := |articles| - 1;
    if i < n {
      SavedFilesIncludeTheSuccesses(articles[..n], start, writeSucceeds, save, i);
      assert articles[..n][i] == articles[i];
    }
  }

  /** When every write succeeds, every article is saved, in order. */
  lemma {:induction false} AllSavesSucceed(articles: seq<Article>, start: nat, writeSucceeds: nat -> bool, save: Article -> ProcessedFile)
    requires forall k | start <= k < start + |articles| :: writeSucceeds(k)
    ensures |SavedFiles(articles, start, writeSucceeds, save)| == |articles|
    ensures forall i | 0 <= i < |articles| :: SavedFiles(articles, start, writeSucceeds, save)[i] == save(articles[i])
  {
    if articles != [] {
      var n := |articles| - 1;
      AllSavesSucceed(articles[..n], start, writeSucceeds, save);
      assert writeSucceeds(start + n);
    }
  }

  /** The article directory after writing `files` in order (a later file with the same
      name replaces an earlier one). */
  function WriteAll(dir: map<string, string>, files: seq<ProcessedFile>): map<string, string>
  {
    if files == [] then dir
    else
      var last := files[|files| - 1];
      WriteAll(dir, files[..|files| - 1])[last.filename := last.content]
  }

  // ---------------------------------------------------------------------------------------
  // Delta detection

  /** Python's `s[:n]`; a negative `n` counts from the end. */
  function PrefixSlice<T>(s: seq<T>, n: int): seq<T>
  {
    if n >= 0 then (if n <= |s| then s[..n] else s)
    else if |s| + n >= 0 then s[..|s| + n] else []
  }

  /** The articles `detect_changes` looks at: all of them unless `limit` is truthy, the
      slice `articles[:limit]` otherwise. */
  function Considered(articles: seq<Article>, limit: Option<int>): (considered: seq<Article>)
    ensures considered <= articles
    ensures limit == None || limit == Some(0) ==> considered == articles
    ensures limit.Some? && limit.value > 0 ==>
      |considered| == if limit.value < |articles| then limit.value else |articles|
    ensures limit.Some? && limit.value < 0 ==>
      |considered| == if |articles| + limit.value > 0 then |articles| + limit.value else 0
  {
    if limit.Some? && limit.value != 0 then PrefixSlice(articles, limit.value) else articles
  }

  /** How an article compares with the previous run's metadata. The hash is of the raw
      HTML body. */
  function Classify(previous: Metadata, article: Article, contentHash: string -> string): Change
  {
    if article.id !in previous then New
    else if previous[article.id].contentHash != Some(contentHash(article.Body())) then Updated
    else Unchanged
  }

  /** The articles classified as `change`, in source order. */
  function Bucket(articles: seq<Article>, previous: Metadata, contentHash: string -> string, change: Change): seq<Article>
  {
    Filter(articles, article => Classify(previous, article, contentHash) == change)
  }

  /** The elements of `xs` that satisfy `p`, in order: the line filter's `MapFilter` with
      nothing mapped. */
  function Filter<T>(xs: seq<T>, p: T -> bool): seq<T>
  {
    MapFilter(xs, x => x, p)
  }

  /** The metadata entry written for an article. */
  function MetaFor(article: Article, contentHash: string -> string): ArticleMeta
  {
    ArticleMeta(article.Title(), article.UpdatedAt(), Some(contentHash(article.Body())), GenerateSlug(article.Title()))
  }

  /** The metadata `detect_changes` writes: one entry per considered id, the last article
      with that id winning. */
  function CurrentMetadata(articles: seq<Article>, contentHash: string -> string): Metadata
  {
    IndexById(articles, article => MetaFor(article, contentHash))
  }

  /** The map from each id in `articles` to `entry` of the last article with that id. */
  function IndexById<V>(articles: seq<Article>, entry: Article -> V): map<string, V>
  {
    if articles == [] then map[]
    else
      var last := articles[|articles| - 1];
      IndexById(articles[..|articles| - 1], entry)[last.id := entry(last)]
  }

  /** No later article has the same id as `articles[i]`. */
  predicate IsLastWithId(articles: seq<Article>, i: nat)
    requires i < |articles|
  {
    forall j | i < j < |articles| :: articles[j].id != articles[i].id
  }

  predicate DistinctIds(articles: seq<Article>) {
    forall i, j | 0 <= i < j < |articles| :: articles[i].id != articles[j].id
  }

  /** Filtering respects concatenation, so it keeps the order of the input. */
  lemma {:induction false} FilterAppend<T>(a: seq<T>, b: seq<T>, p: T -> bool)
    ensures Filter(a + b, p) == Filter(a, p) + Filter(b, p)
  {
    if b == [] {
      assert a + b == a;
    } else {
      var n := |b| - 1;
      FilterAppend(a, b[..n], p);
      assert (a + b)[..|a + b| - 1] == a + b[..n];
      assert (a + b)[|a + b| - 1] == b[n];
    }
  }

  /** An element is kept exactly when it is in the input and satisfies `p`. */
  lemma FilterMembership<T>(xs: seq<T>, p: T -> bool, x: T)
    ensures x in Filter(xs, p) <==> x in xs && p(x)
  {
    MapFilterMembership(xs, x => x, p, x);
  }

  lemma {:induction false} FilterKeepsAll<T>(xs: seq<T>, p: T -> bool)
    requires forall i | 0 <= i < |xs| :: p(xs[i])
    ensures Filter(xs, p) == xs
  {
    if xs != [] {
      FilterKeepsAll(xs[..|xs| - 1], p);
      assert xs == xs[..|xs| - 1] + [xs[|xs| - 1]];
    }
  }

  lemma {:induction false} FilterKeepsNone<T>(xs: seq<T>, p: T -> bool)
    requires forall i | 0 <= i < |xs| :: !p(xs[i])
    ensures Filter(xs, p) == []
  {
    if xs != [] {
      FilterKeepsNone(xs[..|xs| - 1], p);
    }
  }

  /** Filtering by three conditions of which every element meets exactly one splits the input:
      the sizes add up and, as multisets, the three parts sum to the input. */
  lemma {:induction false} FilterThreeWays<T>(xs: seq<T>, p: T -> bool, q: T -> bool, r: T -> bool)
    requires forall x :: (p(x) && !q(x) && !r(x)) || (!p(x) && q(x) && !r(x)) || (!p(x) && !q(x) && r(x))
    ensures |Filter(xs, p)| + |Filter(xs, q)| + |Filter(xs, r)| == |xs|
    ensures multiset(Filter(xs, p)) + multiset(Filter(xs, q)) + multiset(Filter(xs, r)) == multiset(xs)
  {
    if xs != [] {
      var init := xs[..|xs| - 1];
      FilterThreeWays(init, p, q, r);
      assert xs == init + [xs[|xs| - 1]];
    }
  }

  /** An article is in a bucket exactly when it was considered and classified that way. */
  lemma BucketMembership(articles: seq<Article>, previous: Metadata, contentHash: string -> string, change: Change, a: Article)
    ensures a in Bucket(articles, previous, contentHash, change)
       <==> a in articles && Classify(previous, a, contentHash) == change
  {
    FilterMembership(articles, article => Classify(previous, article, contentHash) == change, a);
  }

  /** The three buckets partition the considered articles: sizes add up and, as multisets,
      the buckets sum to the input. */
  lemma PartitionIsTotal(articles: seq<Article>, previous: Metadata, contentHash: string -> string)
    ensures var added := Bucket(articles, previous, contentHash, New);
      var changed := Bucket(articles, previous, contentHash, Updated);
      var same := Bucket(articles, previous, contentHash, Unchanged);
      && |added| + |changed| + |same| == |articles|
      && multiset(added) + multiset(changed) + multiset(same) == multiset(articles)
  {
    FilterThreeWays(articles,
      article => Classify(previous, article, contentHash) == New,
      article => Classify(previous, article, contentHash) == Updated,
      article => Classify(previous, article, contentHash) == Unchanged);
  }

  /** The new metadata holds exactly the considered ids; each entry describes the last
      considered article with that id. Entries of ids not considered are dropped. */
  lemma CurrentMetadataDescribesConsidered(articles: seq<Article>, contentHash: string -> string)
    ensures CurrentMetadata(articles, contentHash).Keys == set a | a in articles :: a.id
    ensures forall i | 0 <= i < |articles| && IsLastWithId(articles, i) ::
      CurrentMetadata(articles, contentHash)[articles[i].id] == MetaFor(articles[i], contentHash)
  {
    IndexByIdDescribes(articles, article => MetaFor(article, contentHash));
  }

  lemma {:induction false} IndexByIdDescribes<V>(articles: seq<Article>, entry: Article -> V)
    ensures IndexById(articles, entry).Keys == set a | a in articles :: a.id
    ensures forall i | 0 <= i < |articles| && IsLastWithId(articles, i) ::
      IndexById(articles, entry)[articles[i].id] == entry(articles[i])
  {
    if articles != [] {
      var n := |articles| - 1;
      var init := articles[..n];
      IndexByIdDescribes(init, entry);
      assert articles == init + [articles[n]];
      forall i | 0 <= i < |articles| && IsLastWithId(articles, i)
        ensures IndexById(articles, entry)[articles[i].id] == entry(articles[i])
      {
        if i < n {
          assert articles[n].id != articles[i].id;
          assert IsLastWithId(init, i) by {
            forall j | i < j < |init| ensures init[j].id != init[i].id {
              assert init[j] == articles[j];
            }
          }
        }
      }
    }
  }

  /** Considering one more article adds it to its bucket. */
  lemma BucketExtend(articles: seq<Article>, i: nat, previous: Metadata, contentHash: string -> string, change: Change)
    requires i < |articles|
    ensures Bucket(articles[..i + 1], previous, contentHash, change)
         == Bucket(articles[..i], previous, contentHash, change)
          + (if Classify(previous, articles[i], contentHash) == change then [articles[i]] else [])
  {
    assert articles[..i + 1][..i] == articles[..i];
  }

  /** Considering one more article records its entry under its id. */
  lemma CurrentMetadataExtend(articles: seq<Article>, i: nat, contentHash: string -> string)
    requires i < |articles|
    ensures CurrentMetadata(articles[..i + 1], contentHash)
         == CurrentMetadata(articles[..i], contentHash)[articles[i].id := MetaFor(articles[i], contentHash)]
  {
    assert articles[..i + 1][..i] == articles[..i];
  }

  /** With nothing stored from earlier runs, every considered article is new. */
  lemma FirstRunAllNew(articles: seq<Article>, contentHash: string -> string)
    ensures Bucket(articles, map[], contentHash, New) == articles
    ensures Bucket(articles, map[], contentHash, Updated) == []
    ensures Bucket(articles, map[], contentHash, Unchanged) == []
  {
    FilterKeepsAll(articles, article => Classify(map[], article, contentHash) == New);
    FilterKeepsNone(articles, article => Classify(map[], article, contentHash) == Updated);
    FilterKeepsNone(articles, article => Classify(map[], article, contentHash) == Unchanged);
  }

  lemma AllUnchangedBucket(articles: seq<Article>, previous: Metadata, contentHash: string -> string)
    requires forall i | 0 <= i < |articles| :: Classify(previous, articles[i], contentHash) == Unchanged
    ensures Bucket(articles, previous, contentHash, Unchanged) == articles
    ensures Bucket(articles, previous, contentHash, New) == []
    ensures Bucket(articles, previous, contentHash, Updated) == []
  {
    FilterKeepsAll(articles, article => Classify(previous, article, contentHash) == Unchanged);
    FilterKeepsNone(articles, article => Classify(previous, article, contentHash) == New);
    FilterKeepsNone(articles, article => Classify(previous, article, contentHash) == Updated);
  }

  /** In articles with distinct ids, each id's entry in the run's metadata is its own. */
  lemma {:induction false} DistinctIdsOwnEntries(articles: seq<Article>, contentHash: string -> string)
    requires DistinctIds(articles)
    ensures forall i | 0 <= i < |articles| ::
      articles[i].id in CurrentMetadata(articles, contentHash)
      && CurrentMetadata(articles, contentHash)[articles[i].id] == MetaFor(articles[i], contentHash)
  {
    CurrentMetadataDescribesConsidered(articles, contentHash);
    forall i | 0 <= i < |articles| ensures articles[i].id in CurrentMetadata(articles, contentHash) {
      assert articles[i] in articles;
    }
  }

  /** Idempotence: rerunning on the same articles (distinct ids) against the metadata the
      run produced finds nothing new or updated and everything unchanged. */
  lemma {:induction false} RerunFindsNoChanges(articles: seq<Article>, contentHash: string -> string)
    requires DistinctIds(articles)
    ensures var stored := CurrentMetadata(articles, contentHash);
      && Bucket(articles, stored, contentHash, New) == []
      && Bucket(articles, stored, contentHash, Updated) == []
      && Bucket(articles, stored, contentHash, Unchanged) == articles
  {
    DistinctIdsOwnEntries(articles, contentHash);
    AllUnchangedBucket(articles, CurrentMetadata(articles, contentHash), contentHash);
  }

  /** A second run in which one article's body changed (to one with a different hash)
      reports exactly that article as updated and the others as unchanged. */
  lemma {:induction false} OneEditIsUpdated(articles: seq<Article>, i: nat, edited: Article, contentHash: string -> string)
    requires DistinctIds(articles) && i < |articles|
    requires edited.id == articles[i].id
    requires contentHash(edited.Body()) != contentHash(articles[i].Body())
    ensures var stored := CurrentMetadata(articles, contentHash);
      var rerun := articles[i := edited];
      && Bucket(rerun, stored, contentHash, New) == []
      && Bucket(rerun, stored, contentHash, Updated) == [edited]
      && Bucket(rerun, stored, contentHash, Unchanged) == articles[..i] + articles[i + 1..]
  {
    var stored := CurrentMetadata(articles, contentHash);
    var before := articles[..i];
    var after := articles[i + 1..];
    assert articles[i := edited] == before + [edited] + after;
    OneEditClassified(articles, i, edited, contentHash, before, after);
    OneUpdatedAmongUnchanged(before, edited, after, stored, contentHash);
  }

  /** How the articles of `OneEditIsUpdated` compare with the stored metadata. */
  lemma OneEditClassified(articles: seq<Article>, i: nat, edited: Article, contentHash: string -> string,
                          before: seq<Article>, after: seq<Article>)
    requires DistinctIds(articles) && i < |articles|
    requires edited.id == articles[i].id
    requires contentHash(edited.Body()) != contentHash(articles[i].Body())
    requires before == articles[..i] && after == articles[i + 1..]
    ensures var stored := CurrentMetadata(articles, contentHash);
      && (forall j | 0 <= j < |before| :: Classify(stored, before[j], contentHash) == Unchanged)
      && (forall j | 0 <= j < |after| :: Classify(stored, after[j], contentHash) == Unchanged)
      && Classify(stored, edited, contentHash) == Updated
  {
    var stored := CurrentMetadata(articles, contentHash);
    DistinctIdsOwnEntries(articles, contentHash);
    forall j | 0 <= j < |before| ensures Classify(stored, before[j], contentHash) == Unchanged {
      assert before[j] == articles[j];
    }
    forall j | 0 <= j < |after| ensures Classify(stored, after[j], contentHash) == Unchanged {
      assert after[j] == articles[i + 1 + j];
    }
  }

  /** Articles all unchanged except one updated one: the buckets are exactly that split. */
  lemma {:induction false} OneUpdatedAmongUnchanged(before: seq<Article>, x: Article, after: seq<Article>, previous: Metadata, contentHash: string -> string)
    requires forall j | 0 <= j < |before| :: Classify(previous, before[j], contentHash) == Unchanged
    requires forall j | 0 <= j < |after| :: Classify(previous, after[j], contentHash) == Unchanged
    requires Classify(previous, x, contentHash) == Updated
    ensures Bucket(before + [x] + after, previous, contentHash, New) == []
    ensures Bucket(before + [x] + after, previous, contentHash, Updated) == [x]
    ensures Bucket(before + [x] + after, previous, contentHash, Unchanged) == before + after
  {
    AllUnchangedBucket(before, previous, contentHash);
    AllUnchangedBucket(after, previous, contentHash);
    assert Bucket(before + [x] + after, previous, contentHash, New) == [] + [] + [] by {
      BucketAround(before, x, after, previous, contentHash, New);
    }
    assert Bucket(before + [x] + after, previous, contentHash, Updated) == [] + [x] + [] by {
      BucketAround(before, x, after, previous, contentHash, Updated);
    }
    assert Bucket(before + [x] + after, previous, contentHash, Unchanged) == before + [] + after by {
      BucketAround(before, x, after, previous, contentHash, Unchanged);
    }
  }

  /** The bucket of `before + [x] + after` is that of `before`, then `x` if it belongs, then
      that of `after`. */
  lemma BucketAround(before: seq<Article>, x: Article, after: seq<Article>, previous: Metadata, contentHash: string -> string, change: Change)
    ensures Bucket(before + [x] + after, previous, contentHash, change)
         == Bucket(before, previous, contentHash, change)
          + (if Classify(previous, x, contentHash) == change then [x] else [])
          + Bucket(after, previous, contentHash, change)
  {
    var p := article => Classify(previous, article, contentHash) == change;
    FilterAppend(before, [x], p);
    FilterAppend(before + [x], after, p);
    assert [x][..0] == [];
  }

  // ---------------------------------------------------------------------------------------
  // The scraper object

  class OptiSignsScraper {
    /** `calculate_content_hash`: a deterministic digest of the raw body, not assumed
        collision-free. */
    const contentHash: string -> string
    /** The HTML-to-Markdown converter. */
    const markdownify: string -> string
    /** Contents of `article_metadata.json`; `{}` when the file is missing or unreadable. */
    var metadataFile: Metadata
    /** The `articles/` directory: file name to content. */
    var articlesDir: map<string, string>

    constructor (contentHash: string -> string, markdownify: string -> string, metadataFile: Metadata, articlesDir: map<string, string>)
      ensures this.contentHash == contentHash && this.markdownify == markdownify
      ensures this.metadataFile == metadataFile && this.articlesDir == articlesDir
    {
      this.contentHash := contentHash;
      this.markdownify := markdownify;
      this.metadataFile := metadataFile;
      this.articlesDir := articlesDir;
    }

    /** `detect_changes`: classify the considered articles against the stored metadata and
        replace the stored metadata with that of the considered articles. */
    method DetectChanges(articles: seq<Article>, limit: Option<int>)
      returns (newArticles: seq<Article>, updatedArticles: seq<Article>, unchangedArticles: seq<Article>)
      modifies this`metadataFile
      ensures var considered := Considered(articles, limit);
        && newArticles == Bucket(considered, old(metadataFile), contentHash, New)
        && updatedArticles == Bucket(considered, old(metadataFile), contentHash, Updated)
        && unchangedArticles == Bucket(considered, old(metadataFile), contentHash, Unchanged)
        && metadataFile == CurrentMetadata(considered, contentHash)
    {
      var previous := metadataFile;
      var current: Metadata := map[];
      var considered := articles;
      if limit.Some? && limit.value != 0 {
        considered := PrefixSlice(articles, limit.value);
      }
      newArticles, updatedArticles, unchangedArticles := [], [], [];
      for i := 0 to |considered|
        invariant newArticles == Bucket(considered[..i], previous, contentHash, New)
        invariant updatedArticles == Bucket(considered[..i], previous, contentHash, Updated)
        invariant unchangedArticles == Bucket(considered[..i], previous, contentHash, Unchanged)
        invariant current == CurrentMetadata(considered[..i], contentHash)
      {
        BucketExtend(considered, i, previous, contentHash, New);
        BucketExtend(considered, i, previous, contentHash, Updated);
        BucketExtend(considered, i, previous, contentHash, Unchanged);
        CurrentMetadataExtend(considered, i, contentHash);
        var article := considered[i];
        var title := article.Title();
        var bodyHash := contentHash(article.Body());
        current := current[article.id := ArticleMeta(title, article.UpdatedAt(), Some(bodyHash), GenerateSlug(title))];
        if article.id !in previous {
          newArticles := newArticles + [article];
        } else if previous[article.id].contentHash != Some(bodyHash) {
          updatedArticles := updatedArticles + [article];
        } else {
          unchangedArticles := unchangedArticles + [article];
        }
      }
      assert considered[..|considered|] == considered;
      metadataFile := current;
    }

    /** `save_article`: build the file name and content and write the file; a failed write
        raises, which the model reports as `None` with the directory untouched. */
    method SaveArticle(article: Article, writeSucceeds: bool) returns (saved: Option<(string, string)>)
      modifies this`articlesDir
      ensures var f := FileFor(article, markdownify);
        if writeSucceeds then saved == Some((f.filename, f.content)) && articlesDir == old(articlesDir)[f.filename := f.content]
        else saved == None && articlesDir == old(articlesDir)
    {
      var title := article.Title();
      var filename := GenerateSlug(title) + ".md";
      var markdown := CleanHtmlToMarkdown(article.Body(), markdownify);
      var content := ArticleContent(title, markdown, article.Url());
      if !writeSucceeds {
        return None;
      }
      articlesDir := articlesDir[filename := content];
      saved := Some((filename, content));
    }

    /** The saving loop of `scrape_articles`: save each article in turn, keeping the record
        of each one whose write succeeds and skipping the others. */
    method SaveChangedArticles(toProcess: seq<Article>, writeSucceeds: nat -> bool) returns (files: seq<ProcessedFile>)
      modifies this`articlesDir
      ensures files == SavedFiles(toProcess, 0, writeSucceeds, FileMaker(markdownify))
      ensures articlesDir == WriteAll(old(articlesDir), files)
    {
      files := [];
      for i := 0 to |toProcess|
        invariant files == SavedFiles(toProcess[..i], 0, writeSucceeds, FileMaker(markdownify))
        invariant articlesDir == WriteAll(old(articlesDir), files)
      {
        SavedFilesExtend(toProcess, i, writeSucceeds, FileMaker(markdownify));
        var article := toProcess[i];
        var saved := SaveArticle(article, writeSucceeds(i));
        if saved.Some? {
          var (filename, content) := saved.value;
          files := files + [ProcessedFile(filename, content, article.id, article.title)];
        }
      }
      assert toProcess[..|toProcess|] == toProcess;
    }

    /** `scrape_articles` on the fetched `articles`: detect changes, then save the new and
        the updated articles, tolerating failed writes. The counts are the bucket sizes
        whatever the writes do. */
    method ScrapeArticles(articles: seq<Article>, limit: Option<int>, writeSucceeds: nat -> bool) returns (result: ScrapeResult)
      modifies this
      ensures articles == [] ==>
        result == ScrapeResult(0, 0, 0, []) && metadataFile == old(metadataFile) && articlesDir == old(articlesDir)
      ensures articles != [] ==>
        var considered := Considered(articles, limit);
        var added := Bucket(considered, old(metadataFile), contentHash, New);
        var changed := Bucket(considered, old(metadataFile), contentHash, Updated);
        var same := Bucket(considered, old(metadataFile), contentHash, Unchanged);
        && result == ScrapeResult(|added|, |changed|, |same|, SavedFiles(added + changed, 0, writeSucceeds, FileMaker(markdownify)))
        && metadataFile == CurrentMetadata(considered, contentHash)
        && articlesDir == WriteAll(old(articlesDir), result.files)
    {
      if articles == [] {
        return ScrapeResult(0, 0, 0, []);
      }
      var newArticles, updatedArticles, unchangedArticles := DetectChanges(articles, limit);
      var toProcess := newArticles + updatedArticles;
      if toProcess == [] {
        return ScrapeResult(0, 0, |unchangedArticles|, []);
      }
      var files := SaveChangedArticles(toProcess, writeSucceeds);
      result := ScrapeResult(|newArticles|, |updatedArticles|, |unchangedArticles|, files);
    }
  }
}
