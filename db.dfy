// `DB` of src/bin/process_data.rs: two row buffers that `cache` fills and that
// `write_pages_to_db` / `write_links_to_db` flush into the `pages` and `links` tables.
// The tables are the maps of the abstract store of BatchInsert: `pages` keyed by id,
// `links` keyed by the whole `(source_id, destination_id)` row, so that it is the set
// of stored edges. What the program prints while flushing is kept as the log of failures.

module Ingestor {
  import opened Text
  import opened TitleIdentity
  import opened BatchInsert

  /** A row of `pages`: `(id, title, is_redirect)`. */
  datatype PageRow = PageRow(id: Id, title: string, isRedirect: bool)

  /** A row of `links`: `(source_id, destination_id)`. */
  datatype LinkRow = LinkRow(source: Id, destination: Id)

  /** `id INTEGER PRIMARY KEY`. */
  function PageKey(r: PageRow): Id {
    r.id
  }

  /** `PRIMARY KEY(source_id, destination_id)`. */
  function LinkKey(r: LinkRow): LinkRow {
    r
  }

  /** The page row `cache` buffers: the id of the lowercased title, the title as given. */
  function PageOf(hash: Hasher, title: string, isRedirect: bool): PageRow {
    PageRow(TitleId(hash, title), title, isRedirect)
  }

  /** The edge rows `cache` buffers for a page: one per link, in order. */
  function EdgesOf(hash: Hasher, title: string, links: seq<string>): seq<LinkRow>
    decreases |links|
  {
    if links == [] then []
    else EdgesOf(hash, title, links[..|links| - 1]) + [LinkRow(TitleId(hash, title), TitleId(hash, links[|links| - 1]))]
  }

  /** The `i`-th edge row goes from the page's id to the id of its `i`-th link. */
  lemma {:induction false} EdgesOfRows(hash: Hasher, title: string, links: seq<string>)
    ensures |EdgesOf(hash, title, links)| == |links|
    ensures forall i :: 0 <= i < |links| ==>
      EdgesOf(hash, title, links)[i] == LinkRow(TitleId(hash, title), TitleId(hash, links[i]))
    decreases |links|
  {
    if links != [] {
      EdgesOfRows(hash, title, links[..|links| - 1]);
    }
  }

  /** The edge rows of a page depend on its title and link spellings only through their
      lowercase forms. */
  lemma EdgesCaseInsensitive(hash: Hasher, a: string, b: string, links: seq<string>)
    requires SameUpToAsciiCase(a, b)
    ensures EdgesOf(hash, a, links) == EdgesOf(hash, b, links)
  {
    CaseInsensitive(hash, a, b);
  }

  class DB {
    const batchSize: nat
    const pagesInsertThreshold: nat
    const linksInsertThreshold: nat
    /** The title hash and the engine-side failures of each table (see BatchInsert). */
    const hash: Hasher
    const pageFault: PageRow -> Option<DbError>
    const linkFault: LinkRow -> Option<DbError>

    var pagesToInsert: seq<PageRow>
    var linksToInsert: seq<LinkRow>
    /** The `pages` and `links` tables. */
    var pages: map<Id, PageRow>
    var links: map<LinkRow, LinkRow>
    /** The failures printed while flushing each table. */
    var pagesLog: seq<LogEntry<PageRow>>
    var linksLog: seq<LogEntry<LinkRow>>
    /** Every row flushed so far, in order. */
    ghost var pagesWritten: seq<PageRow>
    ghost var linksWritten: seq<LinkRow>

    function PagesEngine(): Engine<Id, PageRow> {
      Engine(PageKey, pageFault)
    }

    function LinksEngine(): Engine<LinkRow, LinkRow> {
      Engine(LinkKey, linkFault)
    }

    /** A page table holds what inserting every flushed row one at a time into the
        freshly created table gives, and no flushed row was lost without a trace. Each
        flush keeps this (`PagesFlushKeepsConsistent`), and the fresh table has it. */
    ghost predicate PagesConsistent(t: map<Id, PageRow>, written: seq<PageRow>, log: seq<LogEntry<PageRow>>) {
      t == InsertEach(PagesEngine(), map[], written)
      && forall r :: r in written ==> Accounted(PagesEngine(), false, r, t, log)
    }

    /** The same for the link table, whose log also holds no unique-key error. */
    ghost predicate LinksConsistent(t: map<LinkRow, LinkRow>, written: seq<LinkRow>, log: seq<LogEntry<LinkRow>>) {
      t == InsertEach(LinksEngine(), map[], written)
      && (forall r :: r in written ==> Accounted(LinksEngine(), true, r, t, log))
      && (forall x :: x in log ==> !IsUniqueError(x.error))
    }

    /** A zero batch size would make the batch statement's text fail to build. */
    ghost predicate Valid() {
      batchSize >= 1
    }

    /** `DB::new`: both tables dropped and created empty, both buffers empty. */
    constructor (batchSize: nat, pagesInsertThreshold: nat, linksInsertThreshold: nat, hash: Hasher,
                 pageFault: PageRow -> Option<DbError>, linkFault: LinkRow -> Option<DbError>)
      requires batchSize >= 1
      ensures Valid()
      ensures this.batchSize == batchSize && this.hash == hash
      ensures this.pagesInsertThreshold == pagesInsertThreshold && this.linksInsertThreshold == linksInsertThreshold
      ensures this.pageFault == pageFault && this.linkFault == linkFault
      ensures pagesToInsert == [] && linksToInsert == [] && pages == map[] && links == map[]
      ensures pagesLog == [] && linksLog == [] && pagesWritten == [] && linksWritten == []
    {
      this.batchSize := batchSize;
      this.pagesInsertThreshold := pagesInsertThreshold;
      this.linksInsertThreshold := linksInsertThreshold;
      this.hash := hash;
      this.pageFault := pageFault;
      this.linkFault := linkFault;
      pagesToInsert, linksToInsert := [], [];
      pages, links := map[], map[];
      pagesLog, linksLog := [], [];
      pagesWritten, linksWritten := [], [];
    }

    /** `write_pages_to_db`: the page buffer flushed (errors always printed) and emptied.
        An empty buffer is left alone. */
    method WritePagesToDb()
      requires Valid()
      modifies this
      ensures Valid()
      ensures pages == Flush(PagesEngine(), old(pages), old(pagesToInsert), batchSize, false).0
      ensures pagesLog == old(pagesLog) + Flush(PagesEngine(), old(pages), old(pagesToInsert), batchSize, false).1
      ensures pagesToInsert == [] && pagesWritten == old(pagesWritten) + old(pagesToInsert)
      ensures pagesWritten + pagesToInsert == old(pagesWritten + pagesToInsert)
      ensures linksToInsert == old(linksToInsert) && links == old(links)
      ensures linksLog == old(linksLog) && linksWritten == old(linksWritten)
      ensures old(PagesConsistent(pages, pagesWritten, pagesLog)) ==> PagesConsistent(pages, pagesWritten, pagesLog)
    {
      if old(PagesConsistent(pages, pagesWritten, pagesLog)) {
        PagesFlushKeepsConsistent(pages, pagesWritten, pagesLog, pagesToInsert,
          Flush(PagesEngine(), pages, pagesToInsert, batchSize, false).0,
          Flush(PagesEngine(), pages, pagesToInsert, batchSize, false).1);
      }
      if |pagesToInsert| == 0 {
        FlushEmpty(PagesEngine(), pages, batchSize, false);
        assert pagesWritten + pagesToInsert == pagesWritten && pagesLog + [] == pagesLog;
        return;
      }
      var t, log := WriteRows(PagesEngine(), pages, pagesToInsert, batchSize, false);
      pages, pagesLog := t, pagesLog + log;
      pagesWritten := pagesWritten + pagesToInsert;
      pagesToInsert := [];
    }

    /** A page flush keeps the page table consistent with the rows flushed so far. */
    lemma PagesFlushKeepsConsistent(pages: map<Id, PageRow>, pagesWritten: seq<PageRow>, pagesLog: seq<LogEntry<PageRow>>,
                               pagesToInsert: seq<PageRow>, t: map<Id, PageRow>, log: seq<LogEntry<PageRow>>)
      requires batchSize >= 1 && PagesConsistent(pages, pagesWritten, pagesLog)
      requires (t, log) == Flush(PagesEngine(), pages, pagesToInsert, batchSize, false)
      ensures PagesConsistent(t, pagesWritten + pagesToInsert, pagesLog + log)
    {
      var e := PagesEngine();
      FlushIsEach(e, pages, pagesToInsert, batchSize, false);
      InsertEachAppend(e, map[], pagesWritten, pagesToInsert);
      FlushNoSilentLoss(e, pages, pagesToInsert, batchSize, false);
      InsertEachKeeps(e, pages, pagesToInsert);
      forall r | r in pagesWritten + pagesToInsert ensures Accounted(e, false, r, t, pagesLog + log) {
        if r in pagesWritten {
          AccountedLater(e, false, r, pages, pagesLog, t, log);
        } else {
          AccountedLater(e, false, r, t, log, t, pagesLog);
        }
      }
    }

    /** A second spelling of a title is printed, not dropped: when a flushed page row
        takes an id that an earlier accepted row already holds ('Paris' after 'PARIS',
        or a hash collision), its failure appears in the page log with that row. */
    lemma LaterSpellingPrinted(t: map<Id, PageRow>, written: seq<PageRow>, log: seq<LogEntry<PageRow>>, i: nat, j: nat)
      requires PagesConsistent(t, written, log)
      requires i < j < |written| && written[i].id == written[j].id && written[i] != written[j]
      requires pageFault(written[i]).None?
      requires forall k :: 0 <= k < i ==> written[k].id != written[i].id || pageFault(written[k]).Some?
      ensures RowFailed(written[j], SqliteFailure(ConstraintViolation)) in log
        || (pageFault(written[j]).Some? && RowFailed(written[j], pageFault(written[j]).value) in log)
    {
      FirstWins(PagesEngine(), map[], written, i);
      assert written[j] in written;
    }

    /** `write_links_to_db`: the link buffer flushed (unique-key errors not printed) and
        emptied. An empty buffer is left alone. */
    method WriteLinksToDb()
      requires Valid()
      modifies this
      ensures Valid()
      ensures links == Flush(LinksEngine(), old(links), old(linksToInsert), batchSize, true).0
      ensures linksLog == old(linksLog) + Flush(LinksEngine(), old(links), old(linksToInsert), batchSize, true).1
      ensures linksToInsert == [] && linksWritten == old(linksWritten) + old(linksToInsert)
      ensures linksWritten + linksToInsert == old(linksWritten + linksToInsert)
      ensures pagesToInsert == old(pagesToInsert) && pages == old(pages)
      ensures pagesLog == old(pagesLog) && pagesWritten == old(pagesWritten)
      ensures old(LinksConsistent(links, linksWritten, linksLog)) ==> LinksConsistent(links, linksWritten, linksLog)
    {
      if old(LinksConsistent(links, linksWritten, linksLog)) {
        LinksFlushKeepsConsistent(links, linksWritten, linksLog, linksToInsert,
          Flush(LinksEngine(), links, linksToInsert, batchSize, true).0,
          Flush(LinksEngine(), links, linksToInsert, batchSize, true).1);
      }
      if |linksToInsert| == 0 {
        FlushEmpty(LinksEngine(), links, batchSize, true);
        assert linksWritten + linksToInsert == linksWritten && linksLog + [] == linksLog;
        return;
      }
      var t, log := WriteRows(LinksEngine(), links, linksToInsert, batchSize, true);
      links, linksLog := t, linksLog + log;
      linksWritten := linksWritten + linksToInsert;
      linksToInsert := [];
    }

    /** A link flush keeps the link table consistent with the rows flushed so far. */
    lemma LinksFlushKeepsConsistent(links: map<LinkRow, LinkRow>, linksWritten: seq<LinkRow>, linksLog: seq<LogEntry<LinkRow>>,
                               linksToInsert: seq<LinkRow>, t: map<LinkRow, LinkRow>, log: seq<LogEntry<LinkRow>>)
      requires batchSize >= 1 && LinksConsistent(links, linksWritten, linksLog)
      requires (t, log) == Flush(LinksEngine(), links, linksToInsert, batchSize, true)
      ensures LinksConsistent(t, linksWritten + linksToInsert, linksLog + log)
    {
      var e := LinksEngine();
      FlushIsEach(e, links, linksToInsert, batchSize, true);
      InsertEachAppend(e, map[], linksWritten, linksToInsert);
      FlushNoSilentLoss(e, links, linksToInsert, batchSize, true);
      FlushQuiet(e, links, linksToInsert, batchSize);
      InsertEachKeeps(e, links, linksToInsert);
      forall r | r in linksWritten + linksToInsert ensures Accounted(e, true, r, t, linksLog + log) {
        if r in linksWritten {
          AccountedLater(e, true, r, links, linksLog, t, log);
        } else {
          AccountedLater(e, true, r, t, log, t, linksLog);
        }
      }
    }

    /** The buffering half of `cache`: the page row, then the edge rows in the order of
        the links; the tables, logs and histories are untouched. */
    method BufferArticle(title: string, links: seq<string>, isRedirect: bool)
      modifies this
      ensures pagesToInsert == old(pagesToInsert) + [PageOf(hash, title, isRedirect)]
      ensures linksToInsert == old(linksToInsert) + EdgesOf(hash, title, links)
      ensures unchanged(`pagesWritten, `linksWritten, `pages, `links, `pagesLog, `linksLog)
    {
      var titleHash := hash(Lower(title));
      pagesToInsert := pagesToInsert + [PageRow(titleHash, title, isRedirect)];
      for i := 0 to |links|
        invariant linksToInsert == old(linksToInsert) + EdgesOf(hash, title, links[..i])
        invariant pagesToInsert == old(pagesToInsert) + [PageOf(hash, title, isRedirect)]
        invariant unchanged(`pagesWritten, `linksWritten, `pages, `links, `pagesLog, `linksLog)
      {
        assert links[..i + 1][..i] == links[..i];
        var linkHash := hash(Lower(links[i]));
        linksToInsert := linksToInsert + [LinkRow(titleHash, linkHash)];
      }
      assert links[..|links|] == links;
    }

    /** `cache`: one page row and one edge row per link buffered, original-case title
        kept; a buffer that reaches its threshold is flushed, so afterwards each buffer is
        below its threshold or empty. */
    method Cache(title: string, links: seq<string>, isRedirect: bool)
      requires Valid()
      modifies this
      ensures Valid()
      ensures pagesWritten + pagesToInsert == old(pagesWritten + pagesToInsert) + [PageOf(hash, title, isRedirect)]
      ensures linksWritten + linksToInsert == old(linksWritten + linksToInsert) + EdgesOf(hash, title, links)
      ensures |pagesToInsert| < pagesInsertThreshold || pagesToInsert == []
      ensures |linksToInsert| < linksInsertThreshold || linksToInsert == []
      ensures |old(pagesToInsert)| + 1 < pagesInsertThreshold ==>
        pagesToInsert == old(pagesToInsert) + [PageOf(hash, title, isRedirect)]
        && pages == old(pages) && pagesLog == old(pagesLog) && pagesWritten == old(pagesWritten)
      ensures |old(pagesToInsert)| + 1 >= pagesInsertThreshold ==>
        pagesToInsert == []
        && pages == Flush(PagesEngine(), old(pages), old(pagesToInsert) + [PageOf(hash, title, isRedirect)], batchSize, false).0
        && pagesLog == old(pagesLog) + Flush(PagesEngine(), old(pages), old(pagesToInsert) + [PageOf(hash, title, isRedirect)], batchSize, false).1
      ensures |old(linksToInsert)| + |links| < linksInsertThreshold ==>
        linksToInsert == old(linksToInsert) + EdgesOf(hash, title, links)
        && this.links == old(this.links) && linksLog == old(linksLog) && linksWritten == old(linksWritten)
      ensures |old(linksToInsert)| + |links| >= linksInsertThreshold ==>
        linksToInsert == []
        && this.links == Flush(LinksEngine(), old(this.links), old(linksToInsert) + EdgesOf(hash, title, links), batchSize, true).0
        && linksLog == old(linksLog) + Flush(LinksEngine(), old(this.links), old(linksToInsert) + EdgesOf(hash, title, links), batchSize, true).1
      ensures old(PagesConsistent(pages, pagesWritten, pagesLog)) ==> PagesConsistent(pages, pagesWritten, pagesLog)
      ensures old(LinksConsistent(this.links, linksWritten, linksLog)) ==> LinksConsistent(this.links, linksWritten, linksLog)
    {
      BufferArticle(title, links, isRedirect);
      EdgesOfRows(hash, title, links);
      if |pagesToInsert| >= pagesInsertThreshold {
        WritePagesToDb();
      }
      if |linksToInsert| >= linksInsertThreshold {
        WriteLinksToDb();
      }
    }
  }
}
