// The two pathfinding programs around the search: `main` of src/main.rs, which finds
// and prints one path between two titles, and one trial of the loop in `main` of
// src/bin/find_average.rs, which adds the path's page count to running totals. The
// titles are inputs (the command line and the random choice are not modelled). The
// graph and the `pages` table are the database's `links` and `pages` tables.

module PathPrograms {
  import opened Text
  import opened TitleIdentity
  import opened LinkGraph
  import opened PathFinder
  import opened PathDisplay

  /** How `main` of src/main.rs ends: it prints the final path, or "No more pages!",
      or it panics while printing the path because a page of it has no row. */
  datatype Outcome = FinalPath(text: string) | NoMorePages | Panicked

  /** No path leads from `s` to `e`, unless `e` is `s` itself. */
  ghost predicate Unreachable(g: Graph, s: Id, e: Id) {
    forall p :: PathFrom(g, s, p) && Last(p) == e ==> s == e
  }

  /** `main` of src/main.rs: both titles become ids through `Page::from_title`, the
      search runs from the first to the second, and a found path is unwound. */
  method Route(g: Graph, hash: Hasher, pages: Pages, startTitle: string, endTitle: string)
    returns (o: Outcome, ghost chain: seq<Id>)
    ensures o.NoMorePages? <==> Unreachable(g, TitleId(hash, startTitle), TitleId(hash, endTitle))
    ensures !o.NoMorePages? ==> TitleId(hash, startTitle) != TitleId(hash, endTitle)
    ensures !o.NoMorePages? ==> ShortestPath(g, TitleId(hash, startTitle), TitleId(hash, endTitle), chain)
    ensures o.FinalPath? ==> PathText(pages, chain) == Some(o.text)
    ensures o.Panicked? ==> PathText(pages, chain) == None
  {
    var s := FromTitle(hash, startTitle, false).id;
    var e := FromTitle(hash, endTitle, false).id;
    var found, v, level := Search(g, s, e);
    if found.None? {
      return NoMorePages, [];
    }
    chain := Chain(v, level, e);
    var text := Unwind(pages, v, level, e);
    o := if text.Some? then FinalPath(text.value) else Panicked;
  }

  /** The counters of src/bin/find_average.rs: found searches, the sum of their path
      page counts, and searches that found nothing. */
  datatype Tally = Tally(searches: nat, searchesTotal: nat, notFound: nat)

  /** One trial: search between two titles and update the counters. A found path is
      printed before it is counted, so a page without a row ends the program there
      (`ok` is false) with the counters as they were. */
  method Trial(g: Graph, hash: Hasher, pages: Pages, startTitle: string, endTitle: string, t: Tally)
    returns (r: Tally, ok: bool, ghost chain: seq<Id>)
    ensures !ok ==> r == t
    ensures ok ==> (r.searches == t.searches + 1 && r.notFound == t.notFound)
                   || r == Tally(t.searches, t.searchesTotal, t.notFound + 1)
    ensures ok && r.notFound == t.notFound + 1 <==> Unreachable(g, TitleId(hash, startTitle), TitleId(hash, endTitle))
    ensures ok && r.searches == t.searches + 1 ==> TitleId(hash, startTitle) != TitleId(hash, endTitle)
    ensures ok && r.searches == t.searches + 1 ==> r.searchesTotal == t.searchesTotal + |chain|
    ensures ok && r.searches == t.searches + 1 ==> PathText(pages, chain).Some?
    ensures !ok || r.searches == t.searches + 1 ==>
      ShortestPath(g, TitleId(hash, startTitle), TitleId(hash, endTitle), chain)
    ensures !ok ==> PathText(pages, chain) == None
  {
    var s := FromTitle(hash, startTitle, false).id;
    var e := FromTitle(hash, endTitle, false).id;
    var found, v, level := Search(g, s, e);
    if found.None? {
      return Tally(t.searches, t.searchesTotal, t.notFound + 1), true, [];
    }
    chain := Chain(v, level, e);
    var text := Unwind(pages, v, level, e);
    if text.None? {
      return t, false, chain;
    }
    var n := Count(v, level, e);
    r, ok := Tally(t.searches + 1, t.searchesTotal + n, t.notFound), true;
  }

  /** Two titles that differ only in the case of ASCII letters name the same page, so
      the search between them never reports it found (`Route` answers `NoMorePages`),
      although the two are the same page. The titles `src/main.rs` takes from its
      command line can be such a pair; the random titles of `src/bin/find_average.rs`
      cannot, since they are distinct rows of `pages`, which holds one row per id. */
  lemma SameTitleNotFound(g: Graph, hash: Hasher, startTitle: string, endTitle: string)
    requires SameUpToAsciiCase(startTitle, endTitle)
    ensures Unreachable(g, TitleId(hash, startTitle), TitleId(hash, endTitle))
  {
    CaseInsensitive(hash, startTitle, endTitle);
  }
}
