// The breadth-first search of `main` in src/main.rs (lines 78-124), repeated verbatim
// in src/bin/find_average.rs (lines 152-210). `visited` starts with the seed, the
// FIFO `open_set` with its id; each round pops one id and inserts every destination
// with the popped id as predecessor. The goal test is made when a destination is newly
// inserted, and the search gives up when the frontier is empty after a round.
//
// The proof carries a ghost `level` (hops from the start along the predecessor chain),
// the set `closed` of popped ids whose destinations are all visited, and the current
// level `lv`: every path from the start reaches a visited id no earlier than its level,
// and every path of at most `lv` hops ends at a visited id.

module PathFinder {
  import opened Text
  import opened TitleIdentity
  import opened LinkGraph

  /** The visited table is a search tree rooted at `start` whose edges are graph edges. */
  ghost predicate Discovered(g: Graph, start: Id, v: Visited, level: map<Id, nat>) {
    Tree(v, level) && start in v && v[start] == None
    && (forall x {:trigger v[x]} :: x in v && v[x].None? ==> x == start)
    && (forall x {:trigger v[x]} :: x in v && v[x].Some? ==> x in Succ(g, v[x].value))
  }

  /** No path from the start reaches a visited id in fewer hops than its level. */
  ghost predicate Optimal(g: Graph, start: Id, v: Visited, level: map<Id, nat>)
    requires v.Keys == level.Keys
  {
    forall p :: PathFrom(g, start, p) && Last(p) in v ==> level[Last(p)] <= |p| - 1
  }

  /** Every path from the start of at most `lv` hops ends at a visited id. */
  ghost predicate CompleteUpTo(g: Graph, start: Id, v: Visited, lv: nat) {
    forall p :: PathFrom(g, start, p) && |p| <= lv + 1 ==> Last(p) in v
  }

  /** Every destination of a closed id is visited. */
  ghost predicate Closed(g: Graph, v: Visited, closed: set<Id>) {
    forall u, w :: u in closed && w in Succ(g, u) ==> w in v
  }

  /** The frontier: visited ids, in order of level, all at level `lv` or `lv + 1`; every
      visited id is popped or waiting, and every predecessor has been popped. */
  ghost predicate Frontier(v: Visited, level: map<Id, nat>, q: seq<Id>, popped: set<Id>, lv: nat)
    requires v.Keys == level.Keys
  {
    popped <= v.Keys
    && (forall i :: 0 <= i < |q| ==> q[i] in v && lv <= level[q[i]] <= lv + 1)
    && (forall i, j :: 0 <= i <= j < |q| ==> level[q[i]] <= level[q[j]])
    && (forall x :: x in v ==> x in popped || x in q)
    && (forall x {:trigger v[x]} :: x in v && v[x].Some? ==> v[x].value in popped)
  }

  /** What holds between rounds, and within a round while it expands `page`. */
  ghost predicate Searching(g: Graph, start: Id, target: Id, v: Visited, level: map<Id, nat>,
                            q: seq<Id>, closed: set<Id>, popped: set<Id>, lv: nat)
  {
    Discovered(g, start, v, level) && Optimal(g, start, v, level) && CompleteUpTo(g, start, v, lv)
    && Closed(g, v, closed) && Frontier(v, level, q, popped, lv)
    && v.Keys <= Nodes(g, start)
    && (target in v ==> target == start)
  }

  /** A predecessor chain of the search tree is a path of the graph from the start. */
  lemma ChainIsPath(g: Graph, start: Id, v: Visited, level: map<Id, nat>, x: Id)
    requires Discovered(g, start, v, level) && x in v
    ensures PathFrom(g, start, Chain(v, level, x))
  {
    var c := Chain(v, level, x);
    forall i | 0 <= i < |c| - 1 ensures c[i + 1] in Succ(g, c[i]) {
      assert v[c[i + 1]] == Some(c[i]);
    }
  }

  /** When every id of level `lv` has been closed, every path of `lv + 1` hops from
      the start also ends at a visited id. */
  lemma LevelUp(g: Graph, start: Id, v: Visited, level: map<Id, nat>, q: seq<Id>, closed: set<Id>, lv: nat)
    requires Discovered(g, start, v, level) && Optimal(g, start, v, level) && CompleteUpTo(g, start, v, lv)
    requires Closed(g, v, closed) && Frontier(v, level, q, closed, lv + 1)
    ensures CompleteUpTo(g, start, v, lv + 1)
  {
    forall p | PathFrom(g, start, p) && |p| <= lv + 2 ensures Last(p) in v {
      if |p| == lv + 2 {
        PathPrefix(g, start, p, lv + 1);
        var x := p[lv];
        assert Last(p[..lv + 1]) == x;
        assert level[x] <= lv;
        assert forall i :: 0 <= i < |q| ==> q[i] != x;
        assert x !in q;
        assert p[lv + 1] in Succ(g, x);
      }
    }
  }

  /** Once nothing waits, the visited ids are closed under the graph's edges, so every
      id reachable from the start is visited. */
  lemma {:induction false} ExhaustedReachesAll(g: Graph, start: Id, v: Visited, closed: set<Id>, p: seq<Id>)
    requires start in v && v.Keys <= closed && Closed(g, v, closed)
    requires PathFrom(g, start, p)
    decreases |p|
    ensures Last(p) in v
  {
    if |p| > 1 {
      PathPrefix(g, start, p, |p| - 1);
      ExhaustedReachesAll(g, start, v, closed, p[..|p| - 1]);
      assert p[|p| - 1] in Succ(g, p[|p| - 2]);
    }
  }

  /** The seed stays the only root, and every predecessor entry an edge. */
  lemma RootedGrow(g: Graph, start: Id, v: Visited, page: Id, link: Id)
    requires start in v && v[start] == None
    requires forall x {:trigger v[x]} :: x in v && v[x].None? ==> x == start
    requires forall x {:trigger v[x]} :: x in v && v[x].Some? ==> x in Succ(g, v[x].value)
    requires link in Succ(g, page) && link !in v
    ensures var v' := v[link := Some(page)];
      start in v' && v'[start] == None
      && (forall x {:trigger v'[x]} :: x in v' && v'[x].None? ==> x == start)
      && (forall x {:trigger v'[x]} :: x in v' && v'[x].Some? ==> x in Succ(g, v'[x].value))
  {
  }

  /** A newly discovered destination of `page`, one level below it, keeps the table a
      search tree rooted at the start. */
  lemma NewTree(g: Graph, start: Id, v: Visited, level: map<Id, nat>, page: Id, link: Id, lv: nat)
    requires Discovered(g, start, v, level)
    requires page in v && level[page] == lv && link in Succ(g, page) && link !in v
    ensures Discovered(g, start, v[link := Some(page)], level[link := lv + 1])
  {
    TreeGrow(v, level, page, link);
    RootedGrow(g, start, v, page, link);
  }

  /** It is reached in the fewest hops: a shorter path to it would have ended at a
      visited id already. */
  lemma NewOptimal(g: Graph, start: Id, v: Visited, level: map<Id, nat>, page: Id, link: Id, lv: nat)
    requires v.Keys == level.Keys && Optimal(g, start, v, level) && CompleteUpTo(g, start, v, lv)
    requires link !in v
    ensures Optimal(g, start, v[link := Some(page)], level[link := lv + 1])
  {
    var v', level' := v[link := Some(page)], level[link := lv + 1];
    forall p | PathFrom(g, start, p) && Last(p) in v' ensures level'[Last(p)] <= |p| - 1 {
      if Last(p) == link {
        assert !(|p| <= lv + 1);
      } else {
        assert Last(p) in v;
      }
    }
  }

  lemma NewEntry(g: Graph, start: Id, v: Visited, level: map<Id, nat>, page: Id, link: Id, lv: nat)
    requires Discovered(g, start, v, level) && Optimal(g, start, v, level) && CompleteUpTo(g, start, v, lv)
    requires page in v && level[page] == lv && link in Succ(g, page) && link !in v
    ensures Discovered(g, start, v[link := Some(page)], level[link := lv + 1])
    ensures Optimal(g, start, v[link := Some(page)], level[link := lv + 1])
    ensures CompleteUpTo(g, start, v[link := Some(page)], lv)
  {
    NewTree(g, start, v, level, page, link, lv);
    NewOptimal(g, start, v, level, page, link, lv);
  }

  /** The same destination joins the back of the frontier. */
  lemma NewWaiting(g: Graph, start: Id, target: Id, v: Visited, level: map<Id, nat>, q: seq<Id>,
                   closed: set<Id>, page: Id, link: Id, lv: nat)
    requires Searching(g, start, target, v, level, q, closed, closed + {page}, lv)
    requires page in v && level[page] == lv && link in Succ(g, page) && link !in v && link != target
    ensures Searching(g, start, target, v[link := Some(page)], level[link := lv + 1], q + [link],
                      closed, closed + {page}, lv)
  {
    NewEntry(g, start, v, level, page, link, lv);
    SuccInNodes(g, start, page, link);
    var v', level', q' := v[link := Some(page)], level[link := lv + 1], q + [link];
    assert forall i :: 0 <= i < |q| ==> q'[i] == q[i];
    assert Frontier(v', level', q', closed + {page}, lv);
  }

  /** Once every destination of `page` is visited, `page` is closed. */
  lemma ClosePage(g: Graph, v: Visited, closed: set<Id>, page: Id)
    requires Closed(g, v, closed)
    requires forall j :: 0 <= j < |Succ(g, page)| ==> Succ(g, page)[j] in v.Keys
    ensures Closed(g, v, closed + {page})
  {
    forall u, w | u in closed + {page} && w in Succ(g, u) ensures w in v {
      if u == page {
        var j :| 0 <= j < |Succ(g, page)| && Succ(g, page)[j] == w;
      }
    }
  }

  /** One destination of `page`: `visited.insert(LinkedPage::new(link, Some(page)))`.
      An id already present keeps its entry and is skipped; a new one is entered one
      level below `page`, and it is the goal exactly when it is the target; otherwise it
      joins the back of the frontier. */
  method Discover(g: Graph, start: Id, target: Id, page: Id, link: Id,
               v0: Visited, ghost level0: map<Id, nat>, q0: seq<Id>, ghost closed: set<Id>, ghost lv: nat)
    returns (found: bool, v: Visited, ghost level: map<Id, nat>, q: seq<Id>)
    requires Searching(g, start, target, v0, level0, q0, closed, closed + {page}, lv)
    requires page in v0 && level0[page] == lv && link in Succ(g, page)
    ensures v.Keys == v0.Keys + {link} && forall k :: k in v0 ==> v[k] == v0[k]
    ensures !found ==> Searching(g, start, target, v, level, q, closed, closed + {page}, lv)
    ensures !found ==> page in v && level[page] == lv
    ensures !found && v.Keys == v0.Keys ==> q == q0
    ensures found ==> link == target && target !in v0 && v[target] == Some(page)
    ensures found ==> Discovered(g, start, v, level) && Optimal(g, start, v, level)
  {
    var inserted: bool;
    v, inserted := Insert(v0, LinkedPage(link, Some(page))).0, Insert(v0, LinkedPage(link, Some(page))).1;
    if !inserted {
      return false, v, level0, q0;
    }
    level := level0[link := lv + 1];
    if link == target {
      NewEntry(g, start, v0, level0, page, link, lv);
      return true, v, level, q0;
    }
    NewWaiting(g, start, target, v0, level0, q0, closed, page, link, lv);
    found, q := false, q0 + [link];
  }

  /** Mid-round, after the first `i` destinations of `page`: the search invariant, those
      destinations visited, and what was visited before the round kept. */
  ghost predicate Expanding(g: Graph, start: Id, target: Id, page: Id, v0: Visited, q0: seq<Id>,
                            closed: set<Id>, lv: nat, i: nat, v: Visited, level: map<Id, nat>, q: seq<Id>)
  {
    Searching(g, start, target, v, level, q, closed, closed + {page}, lv)
    && page in v && level[page] == lv && i <= |Succ(g, page)|
    && (forall j :: 0 <= j < i ==> Succ(g, page)[j] in v.Keys)
    && v0.Keys <= v.Keys && (forall k :: k in v0 ==> v[k] == v0[k])
    && (v.Keys == v0.Keys ==> q == q0)
  }

  lemma Advance(g: Graph, start: Id, target: Id, page: Id, v0: Visited, q0: seq<Id>, closed: set<Id>, lv: nat,
                i: nat, v1: Visited, level1: map<Id, nat>, q1: seq<Id>, v: Visited, level: map<Id, nat>, q: seq<Id>)
    requires Expanding(g, start, target, page, v0, q0, closed, lv, i, v1, level1, q1) && i < |Succ(g, page)|
    requires v.Keys == v1.Keys + {Succ(g, page)[i]} && forall k :: k in v1 ==> v[k] == v1[k]
    requires Searching(g, start, target, v, level, q, closed, closed + {page}, lv)
    requires page in v && level[page] == lv && (v.Keys == v1.Keys ==> q == q1)
    ensures Expanding(g, start, target, page, v0, q0, closed, lv, i + 1, v, level, q)
  {
  }

  /** One round after `page` was popped: `for link in get_links(page)`. It stops at the
      target; otherwise every destination of `page` ends up visited, so `page` is
      closed. */
  method Expand(g: Graph, start: Id, target: Id, page: Id,
                v0: Visited, ghost level0: map<Id, nat>, q0: seq<Id>, ghost closed: set<Id>, ghost lv: nat)
    returns (found: bool, v: Visited, ghost level: map<Id, nat>, q: seq<Id>)
    requires Searching(g, start, target, v0, level0, q0, closed, closed + {page}, lv)
    requires page in v0 && level0[page] == lv
    ensures v0.Keys <= v.Keys && forall k :: k in v0 ==> v[k] == v0[k]
    ensures !found ==> Searching(g, start, target, v, level, q, closed + {page}, closed + {page}, lv)
    ensures !found && v.Keys == v0.Keys ==> q == q0
    ensures found ==> target !in v0 && target in v && v[target] == Some(page)
    ensures found ==> Discovered(g, start, v, level) && Optimal(g, start, v, level)
  {
    var links := Succ(g, page);
    v, level, q := v0, level0, q0;
    for i := 0 to |links|
      invariant Expanding(g, start, target, page, v0, q0, closed, lv, i, v, level, q)
    {
      ghost var v1, level1, q1 := v, level, q;
      found, v, level, q := Discover(g, start, target, page, links[i], v, level, q, closed, lv);
      if found {
        return;
      }
      Advance(g, start, target, page, v0, q0, closed, lv, i, v1, level1, q1, v, level, q);
    }
    found := false;
    ClosePage(g, v, closed, page);
  }

  /** The search before its first round: only the seed is visited, and it waits. */
  lemma Started(g: Graph, start: Id, target: Id)
    ensures Searching(g, start, target, map[start := None], map[start := 0], [start], {}, {}, 0)
  {
    var v: Visited, level: map<Id, nat> := map[start := None], map[start := 0];
    forall p | PathFrom(g, start, p) && |p| <= 1 ensures Last(p) in v {
      assert Last(p) == p[0];
    }
    assert CompleteUpTo(g, start, v, 0);
  }

  /** `open_set.pop_front()`: the head becomes popped. */
  lemma PopFront(g: Graph, start: Id, target: Id, v: Visited, level: map<Id, nat>, q: seq<Id>,
                 closed: set<Id>, lv: nat)
    requires Searching(g, start, target, v, level, q, closed, closed, lv) && |q| > 0
    ensures Searching(g, start, target, v, level, q[1..], closed, closed + {q[0]}, lv)
  {
    var q' := q[1..];
    assert forall i :: 0 <= i < |q'| ==> q'[i] == q[i + 1];
    forall x | x in v ensures x in closed + {q[0]} || x in q' {
      if x in q && x != q[0] {
        var i :| 0 <= i < |q| && q[i] == x;
        assert q'[i - 1] == x;
      }
    }
  }

  /** Once the head of the frontier is one level further, the search has moved to the
      next level, and every path of that many hops ends at a visited id. */
  lemma NextLevel(g: Graph, start: Id, target: Id, v: Visited, level: map<Id, nat>, q: seq<Id>,
                  closed: set<Id>, lv: nat)
    requires Searching(g, start, target, v, level, q, closed, closed, lv) && |q| > 0
    requires level[q[0]] == lv + 1
    ensures Searching(g, start, target, v, level, q, closed, closed, lv + 1)
  {
    assert Frontier(v, level, q, closed, lv + 1);
    LevelUp(g, start, v, level, q, closed, lv);
  }

  /** Visiting more of the finite set of ids leaves fewer to visit. */
  lemma FewerLeft(all: set<Id>, a: set<Id>, b: set<Id>)
    requires a < b <= all
    ensures |all - b| < |all - a|
  {
    var x :| x in b && x !in a;
    assert all - a == (all - b) + (b - a);
    assert (all - b) * (b - a) == {};
    assert x in b - a;
  }

  /** What holds before each round: the search invariant with nothing popped but the
      closed ids, and a frontier whose head is at the current level. */
  ghost predicate Between(g: Graph, start: Id, target: Id, v: Visited, level: map<Id, nat>, q: seq<Id>,
                          closed: set<Id>, lv: nat)
  {
    Searching(g, start, target, v, level, q, closed, closed, lv)
    && |q| > 0 && q[0] in level && level[q[0]] == lv
  }

  /** One iteration of `'main_loop`: pop the head, expand it, and either stop at the
      target, stop because nothing waits, or go on with more visited or less waiting. */
  method Round(g: Graph, start: Id, target: Id, v0: Visited, ghost level0: map<Id, nat>, q0: seq<Id>,
               ghost closed0: set<Id>, ghost lv0: nat)
    returns (hit: bool, page: Id, v: Visited, ghost level: map<Id, nat>, q: seq<Id>,
             ghost closed: set<Id>, ghost lv: nat)
    requires Between(g, start, target, v0, level0, q0, closed0, lv0)
    ensures hit ==> target != start && target in v && v[target] == Some(page)
    ensures Discovered(g, start, v, level)
    ensures hit ==> Optimal(g, start, v, level)
    ensures !hit && q == [] ==> start in v && v[start] == None && v.Keys <= closed && Closed(g, v, closed)
    ensures !hit && q == [] ==> (target in v ==> target == start)
    ensures !hit && q != [] ==> Between(g, start, target, v, level, q, closed, lv)
    ensures !hit ==> v0.Keys <= v.Keys <= Nodes(g, start) && (v.Keys == v0.Keys ==> |q| < |q0|)
  {
    page := q0[0];
    PopFront(g, start, target, v0, level0, q0, closed0, lv0);
    hit, v, level, q := Expand(g, start, target, page, v0, level0, q0[1..], closed0, lv0);
    closed, lv := closed0 + {page}, lv0;
    if hit || q == [] {
      return;
    }
    if level[q[0]] != lv0 {
      NextLevel(g, start, target, v, level, q, closed, lv0);
      lv := lv0 + 1;
    }
  }

  /** The predecessor chain of a visited id is a path from the start of the fewest hops. */
  lemma ChainShortest(g: Graph, start: Id, v: Visited, level: map<Id, nat>, x: Id)
    requires Discovered(g, start, v, level) && Optimal(g, start, v, level) && x in v
    ensures ShortestPath(g, start, x, Chain(v, level, x))
  {
    ChainIsPath(g, start, v, level, x);
  }

  /** With every visited id closed, everything reachable from the start is visited. */
  lemma ReachesAll(g: Graph, start: Id, v: Visited, closed: set<Id>)
    requires start in v && v.Keys <= closed && Closed(g, v, closed)
    ensures forall p :: PathFrom(g, start, p) ==> Last(p) in v
  {
    forall p | PathFrom(g, start, p) ensures Last(p) in v {
      ExhaustedReachesAll(g, start, v, closed, p);
    }
  }

  /** A round visits more ids, or leaves the same ids visited and fewer waiting. */
  lemma Progress(all: set<Id>, before: set<Id>, after: set<Id>, waitingBefore: nat, waitingAfter: nat)
    requires before <= after <= all && (after == before ==> waitingAfter < waitingBefore)
    ensures |all - after| < |all - before| || (|all - after| == |all - before| && waitingAfter < waitingBefore)
  {
    if before < after {
      FewerLeft(all, before, after);
    } else {
      assert all - after == all - before;
    }
  }

  /** The search of `main`: pop the head, expand it, stop at the target or when nothing
      waits. When the target is found, its predecessor chain is a path from the start of
      the fewest hops; when not, every id reachable from the start has been visited, so
      the target is unreachable (or is the start itself, which is never goal-tested). */
  method Search(g: Graph, start: Id, target: Id) returns (found: Option<Id>, v: Visited, ghost level: map<Id, nat>)
    ensures start in v && v[start] == None
    ensures Discovered(g, start, v, level)
    ensures found.Some? ==> target != start && target in v && v[target] == found
    ensures found.Some? ==> ShortestPath(g, start, target, Chain(v, level, target))
    ensures found.None? ==> forall p :: PathFrom(g, start, p) ==> Last(p) in v
    ensures found.None? ==> forall p :: PathFrom(g, start, p) && Last(p) == target ==> target == start
  {
    v, level := map[start := None], map[start := 0];
    var q := [start];
    ghost var closed: set<Id> := {};
    ghost var lv: nat := 0;
    Started(g, start, target);
    while true
      invariant Between(g, start, target, v, level, q, closed, lv)
      decreases |Nodes(g, start) - v.Keys|, |q|
    {
      ghost var v0, n0 := v, |q|;
      var hit: bool, page: Id;
      hit, page, v, level, q, closed, lv := Round(g, start, target, v, level, q, closed, lv);
      if hit {
        ChainShortest(g, start, v, level, target);
        return Some(page), v, level;
      }
      if q == [] {
        ReachesAll(g, start, v, closed);
        return None, v, level;
      }
      Progress(Nodes(g, start), v0.Keys, v.Keys, n0, |q|);
    }
  }

  /** On exhaustion the visited ids are exactly the ids reachable from the start: each
      visited id is reached by its chain, and each reachable id was visited. */
  lemma VisitedIsReachable(g: Graph, start: Id, v: Visited, level: map<Id, nat>)
    requires Discovered(g, start, v, level)
    requires forall p :: PathFrom(g, start, p) ==> Last(p) in v
    ensures forall x :: x in v <==> exists p :: PathFrom(g, start, p) && Last(p) == x
  {
    forall x | x in v ensures exists p :: PathFrom(g, start, p) && Last(p) == x {
      ChainIsPath(g, start, v, level, x);
    }
  }
}
