// The link graph as the pathfinders of src/main.rs and src/bin/find_average.rs see
// it, and their `visited` table. `get_links` (the destinations stored for a source)
// becomes a map from a source id to its destinations in the order the query returns
// them; an id with no entry has no out-edges. `LinkedPage` hashes and compares by
// `page` only, so the `HashSet<LinkedPage>` is a map from a page to its predecessor.

module LinkGraph {
  import opened Text
  import opened TitleIdentity

  type Graph = map<Id, seq<Id>>

  /** `get_links(source_id)`. */
  function Succ(g: Graph, v: Id): seq<Id> {
    if v in g then g[v] else []
  }

  /** `p` follows edges of `g`. */
  ghost predicate IsPath(g: Graph, p: seq<Id>) {
    |p| >= 1 && forall i :: 0 <= i < |p| - 1 ==> p[i + 1] in Succ(g, p[i])
  }

  /** A path that starts at `s`; it has `|p| - 1` hops. */
  ghost predicate PathFrom(g: Graph, s: Id, p: seq<Id>) {
    IsPath(g, p) && p[0] == s
  }

  function Last(p: seq<Id>): Id
    requires |p| >= 1
  {
    p[|p| - 1]
  }

  /** A path cut short is still a path from the same start. */
  lemma PathPrefix(g: Graph, s: Id, p: seq<Id>, n: nat)
    requires PathFrom(g, s, p) && 1 <= n <= |p|
    ensures PathFrom(g, s, p[..n])
  {
    forall i | 0 <= i < n - 1 ensures p[..n][i + 1] in Succ(g, p[..n][i]) {
      assert p[..n][i] == p[i] && p[..n][i + 1] == p[i + 1];
    }
  }

  /** A path extended along one more edge. */
  lemma PathSnoc(g: Graph, s: Id, p: seq<Id>, w: Id)
    requires PathFrom(g, s, p) && w in Succ(g, Last(p))
    ensures PathFrom(g, s, p + [w])
  {
    var q := p + [w];
    forall i | 0 <= i < |q| - 1 ensures q[i + 1] in Succ(g, q[i]) {
      if i < |p| - 1 {
        assert q[i] == p[i] && q[i + 1] == p[i + 1];
      }
    }
  }

  /** `c` is a path from `s` to `e` and no path from `s` to `e` has fewer hops. */
  ghost predicate ShortestPath(g: Graph, s: Id, e: Id, c: seq<Id>) {
    PathFrom(g, s, c) && Last(c) == e
    && forall p :: PathFrom(g, s, p) && Last(p) == e ==> |c| <= |p|
  }

  /** Every id the search can meet: the start and every destination in the graph. The
      set is finite, which is what makes the search end. */
  ghost function Nodes(g: Graph, s: Id): set<Id> {
    {s} + set u, w | u in g && w in g[u] :: w
  }

  lemma SuccInNodes(g: Graph, s: Id, u: Id, w: Id)
    requires w in Succ(g, u)
    ensures w in Nodes(g, s)
  {
  }

  // ---------------------------------------------------------------------------
  // The visited table

  /** `LinkedPage`: a page and the page it was discovered from (`None` for the seed). */
  datatype LinkedPage = LinkedPage(page: Id, from: Option<Id>)

  /** `HashSet<LinkedPage>` under identity by `page`: each page's entry is its `from`. */
  type Visited = map<Id, Option<Id>>

  /** `HashSet::insert`: an entry for a page that is already present is not replaced,
      and `false` says so; otherwise the page is added with its predecessor. */
  function Insert(v: Visited, lp: LinkedPage): (r: (Visited, bool))
    ensures r.1 <==> lp.page !in v
    ensures r.0.Keys == v.Keys + {lp.page}
    ensures forall k :: k in v ==> k in r.0 && r.0[k] == v[k]
    ensures r.1 ==> r.0[lp.page] == lp.from
  {
    if lp.page in v then (v, false) else (v[lp.page := lp.from], true)
  }

  /** Two `LinkedPage`s are the same member of the set exactly when their pages are the
      same: inserting one after the other never changes the first one's entry. */
  lemma {:induction false} SamePageSameEntry(v: Visited, a: LinkedPage, b: LinkedPage)
    requires a.page == b.page
    ensures Insert(Insert(v, a).0, b).0 == Insert(v, a).0
    ensures !Insert(Insert(v, a).0, b).1
    ensures Insert(Insert(v, a).0, b).0[a.page] == (if a.page in v then v[a.page] else a.from)
  {
  }

  /** The predecessor entries form a tree measured by `level`: a predecessor is one
      level closer to a root (an entry without predecessor, at level 0). */
  ghost predicate Tree(v: Visited, level: map<Id, nat>) {
    v.Keys == level.Keys
    && (forall x {:trigger v[x]} :: x in v && v[x].None? ==> level[x] == 0)
    && (forall x {:trigger v[x]} :: x in v && v[x].Some? ==> v[x].value in v && level[x] == level[v[x].value] + 1)
  }

  /** A new leaf one level below a visited page keeps the tree. */
  lemma TreeGrow(v: Visited, level: map<Id, nat>, page: Id, link: Id)
    requires Tree(v, level) && page in v && link !in v
    ensures Tree(v[link := Some(page)], level[link := level[page] + 1])
  {
  }

  /** The pages met by following predecessors from `x` back to a root, root first. */
  ghost function Chain(v: Visited, level: map<Id, nat>, x: Id): (c: seq<Id>)
    requires Tree(v, level) && x in v
    decreases level[x]
    ensures |c| == level[x] + 1 && Last(c) == x
    ensures c[0] in v && v[c[0]].None?
    ensures forall i :: 0 <= i < |c| ==> c[i] in v
    ensures forall i :: 0 <= i < |c| - 1 ==> v[c[i + 1]] == Some(c[i])
  {
    match v[x]
    case None => [x]
    case Some(u) => Chain(v, level, u) + [x]
  }
}
