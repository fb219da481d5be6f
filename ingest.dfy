// `main` of src/bin/process_data.rs: scan the dump record by record, cache every
// article whose body parses, and flush both buffers when the input is exhausted.
// The lines of the dump are an input; the file, the final rename and the progress
// messages are not modelled. A panic ends the run where it happens, so the rows still
// buffered then are never written.

module ProcessData {
  import opened Text
  import opened TitleIdentity
  import opened LinkExtraction
  import opened BatchInsert
  import opened CorpusScan
  import opened Ingestor

  const BatchSize: nat := 1000
  const PagesInsertThreshold: nat := 1_000_000
  const LinksInsertThreshold: nat := 75_000_000

  /** The page rows of `articles`, in order. */
  function PageRows(hash: Hasher, articles: seq<Article>): (rows: seq<PageRow>)
    decreases |articles|
  {
    if articles == [] then []
    else
      var a := articles[|articles| - 1];
      PageRows(hash, articles[..|articles| - 1]) + [PageOf(hash, a.title, a.isRedirect)]
  }

  /** The edge rows of `articles`, in order. */
  function LinkRows(hash: Hasher, articles: seq<Article>): (rows: seq<LinkRow>)
    decreases |articles|
  {
    if articles == [] then []
    else
      var a := articles[|articles| - 1];
      LinkRows(hash, articles[..|articles| - 1]) + EdgesOf(hash, a.title, a.links)
  }

  /** One page row per article: row `i` has the id and the original-case title of
      article `i`. */
  lemma {:induction false} PageRowsOfArticles(hash: Hasher, articles: seq<Article>)
    decreases |articles|
    ensures |PageRows(hash, articles)| == |articles|
    ensures forall i :: 0 <= i < |articles| ==>
      PageRows(hash, articles)[i] == PageRow(TitleId(hash, articles[i].title), articles[i].title, articles[i].isRedirect)
  {
    if articles != [] {
      var init := articles[..|articles| - 1];
      PageRowsOfArticles(hash, init);
      assert forall i :: 0 <= i < |init| ==> articles[i] == init[i];
    }
  }

  /** The ids of the pages cached and every edge's source are the ids of article titles. */
  lemma {:induction false} LinkRowsFromArticles(hash: Hasher, articles: seq<Article>)
    decreases |articles|
    ensures forall r :: r in LinkRows(hash, articles) ==>
      exists a :: a in articles && r.source == TitleId(hash, a.title)
  {
    if articles != [] {
      var init := articles[..|articles| - 1];
      var a := articles[|articles| - 1];
      LinkRowsFromArticles(hash, init);
      EdgesOfRows(hash, a.title, a.links);
      forall r | r in LinkRows(hash, articles)
        ensures exists b :: b in articles && r.source == TitleId(hash, b.title)
      {
        if r in LinkRows(hash, init) {
          var b :| b in init && r.source == TitleId(hash, b.title);
          assert b in articles;
        } else {
          assert r in EdgesOf(hash, a.title, a.links);
        }
      }
    }
  }

  lemma AppendLast<T>(s: seq<T>, x: T)
    ensures (s + [x])[..|s|] == s && (s + [x])[|s|] == x
  {
  }

  /** The run from a record that was read in full: what it caches, then the rest. */
  lemma IngestRead(lines: seq<string>, pos: nat, done: seq<Article>, title: string, body: string, n: nat)
    requires pos <= |lines| && NextRecord(lines, pos) == Read(title, body, n)
    ensures n <= |lines|
    ensures Run(done + Ingest(lines, pos).articles, Ingest(lines, pos).panicked)
      == Run((done + Cached(title, body)) + Ingest(lines, n).articles, Ingest(lines, n).panicked)
  {
    var c, rest := Cached(title, body), Ingest(lines, n);
    assert Ingest(lines, pos) == Run(c + rest.articles, rest.panicked);
    assert done + (c + rest.articles) == (done + c) + rest.articles;
  }

  /** The rows `db` has been given so far are those of `done`, and its tables agree
      with the rows written. */
  ghost predicate Holds(db: DB, done: seq<Article>)
    reads db
  {
    db.Valid()
    && db.pagesWritten + db.pagesToInsert == PageRows(db.hash, done)
    && db.linksWritten + db.linksToInsert == LinkRows(db.hash, done)
    && db.PagesConsistent(db.pages, db.pagesWritten, db.pagesLog)
    && db.LinksConsistent(db.links, db.linksWritten, db.linksLog)
  }

  /** `db.cache(title, links, is_redirect)` for one more article. */
  method CacheArticle(db: DB, a: Article, ghost done: seq<Article>)
    requires Holds(db, done)
    modifies db
    ensures Holds(db, done + [a])
  {
    db.Cache(a.title, a.links, a.isRedirect);
    AppendLast(done, a);
  }

  /** The run: `DB::new(1000, 1_000_000, 75_000_000)`, then one round per record.
      `count` is the number of articles cached. Unless the run panicked, both
      buffers are flushed at the end, so every row the run produced has been written;
      in any case each table agrees with the rows written to it. */
  method ProcessDump(lines: seq<string>, hash: Hasher,
                     pageFault: PageRow -> Option<DbError>, linkFault: LinkRow -> Option<DbError>)
    returns (db: DB, count: nat, panicked: bool)
    ensures fresh(db) && db.Valid() && db.batchSize == BatchSize && db.hash == hash
    ensures count == |Ingest(lines, 0).articles| && panicked == Ingest(lines, 0).panicked
    ensures db.pagesWritten + db.pagesToInsert == PageRows(hash, Ingest(lines, 0).articles)
    ensures db.linksWritten + db.linksToInsert == LinkRows(hash, Ingest(lines, 0).articles)
    ensures !panicked ==> db.pagesToInsert == [] && db.linksToInsert == []
    ensures db.PagesConsistent(db.pages, db.pagesWritten, db.pagesLog)
    ensures db.LinksConsistent(db.links, db.linksWritten, db.linksLog)
  {
    db := new DB(BatchSize, PagesInsertThreshold, LinksInsertThreshold, hash, pageFault, linkFault);
    count := 0;
    var pos := 0;
    ghost var done: seq<Article> := [];
    while true
      invariant pos <= |lines|
      invariant Ingest(lines, 0) == Run(done + Ingest(lines, pos).articles, Ingest(lines, pos).panicked)
      invariant count == |done|
      invariant db.batchSize == BatchSize && db.hash == hash && Holds(db, done)
      decreases |lines| - pos
    {
      var record := ReadRecord(lines, pos);
      match record {
        case Exhausted =>
          assert done + [] == done;
          break;
        case Panicked =>
          assert done + [] == done;
          return db, count, true;
        case Skipped(n) =>
          pos := n;
        case Read(title, body, n) =>
          IngestRead(lines, pos, done, title, body, n);
          var parsed := GetLinksFromBody(body, title);
          if parsed.Ok? {
            var a := Article(title, parsed.value.links, parsed.value.isRedirect);
            CacheArticle(db, a, done);
            done := done + [a];
            count := count + 1;
          } else {
            assert done + Cached(title, body) == done;
          }
          pos := n;
      }
    }
    db.WritePagesToDb();
    db.WriteLinksToDb();
    panicked := false;
  }
}
