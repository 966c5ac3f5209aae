/** The sequential DAG walk of merkledag (`EnumerateChildren`). */
module Walk {
  import opened Cids
  import opened Graphs

  /** `seen` is exactly what a walk from `root` adds to a visited set that held `before`. */
  ghost predicate Explored(g: Graph<Cid>, before: set<Cid>, root: Cid, seen: set<Cid>) {
    && before <= seen
    && forall c :: c in seen <==> c in before || ReachesAvoiding(g, before, root, c)
  }

  /** Some node that the walk has to fetch cannot be fetched. */
  ghost predicate MissesNode(g: Graph<Cid>, before: set<Cid>, root: Cid) {
    root !in g || exists c :: ReachesAvoiding(g, before, root, c) && c !in g
  }

  lemma ExploredFromCover(g: Graph<Cid>, before: set<Cid>, root: Cid, seen: set<Cid>)
    requires before <= seen
    requires Covered(g, {root}, seen) && Covered(g, seen - before, seen)
    requires forall c :: c in seen - before ==> ReachesAvoiding(g, before, root, c)
    ensures Explored(g, before, root, seen) && !MissesNode(g, before, root)
  {
    ClosedHoldsReached(g, before, seen, root);
    assert root in {root};
    forall c | ReachesAvoiding(g, before, root, c) ensures c in g {
      var p :| PathAvoiding(g, before, p, root, c);
      assert c in seen - before;
    }
  }

  /** What the recursive call for child `c` explored is reached from the parent as well. */
  lemma LiftChild(g: Graph<Cid>, before: set<Cid>, mid: set<Cid>, root: Cid, c: Cid, seen: set<Cid>)
    requires root in g && c in g[root] && c !in before && before <= mid
    requires forall x :: x in seen - mid ==> ReachesAvoiding(g, mid, c, x)
    ensures forall x :: x in seen - mid ==> ReachesAvoiding(g, before, root, x)
  {
    forall x | x in seen - mid ensures ReachesAvoiding(g, before, root, x) {
      Prepend(g, before, mid, root, c, x);
    }
  }

  /** Walks below `root`, visiting every unseen node once. Succeeds exactly if every node below can be fetched. */
  method EnumerateChildren(g: Graph<Cid>, root: Cid, visited: CidSet) returns (ok: bool)
    modifies visited
    ensures ok ==> Explored(g, old(visited.elems), root, visited.elems)
    ensures ok ==> Covered(g, {root}, visited.elems) && Covered(g, visited.elems - old(visited.elems), visited.elems)
    ensures ok <==> !MissesNode(g, old(visited.elems), root)
    ensures old(visited.elems) <= visited.elems
    decreases g.Keys - visited.elems, root in g
  {
    if root !in g {
      return false;
    }
    ghost var before := visited.elems;
    var links := g[root];
    for i := 0 to |links|
      invariant before <= visited.elems
      invariant forall j :: 0 <= j < i ==> links[j] in visited.elems
      invariant Covered(g, visited.elems - before, visited.elems)
      invariant forall c :: c in visited.elems - before ==> ReachesAvoiding(g, before, root, c)
    {
      var c := links[i];
      ghost var mid := visited.elems;
      var unseen := visited.Visit(c);
      if unseen {
        OneLink(g, before, root, c);
        ghost var mid' := visited.elems;
        var sub := EnumerateChildren(g, c, visited);
        if !sub {
          if c in g {
            ghost var x :| ReachesAvoiding(g, mid', c, x) && x !in g;
            Prepend(g, before, mid', root, c, x);
          }
          return false;
        }
        LiftChild(g, before, mid', root, c, visited.elems);
      }
    }
    ExploredFromCover(g, before, root, visited.elems);
    return true;
  }
}
