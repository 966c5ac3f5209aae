/** The searches behind "is this pinned" (pin/pin.go): `hasChild`, `isPinnedWithType` and `CheckIfPinned`. */
module PinQueries {
  import opened Basics
  import opened Cids
  import opened Graphs

  datatype PinMode = Recursive | Direct | Indirect | Internal | NotPinned | Any

  /** The three sets of a pinner, as values. */
  datatype PinState = PinState(recursive: set<Cid>, direct: set<Cid>, internal: set<Cid>) {
    /** Pinned by itself rather than through an ancestor. */
    predicate Holds(c: Cid) {
      c in recursive || c in direct || c in internal
    }
  }

  /** What `isPinnedWithType` answers; `Via` names the recursive root that an indirect pin hangs under. */
  datatype Answer = InvalidMode | FetchFailed | Unpinned | ByRecursive | ByDirect | ByInternal | Via(root: Cid)

  datatype Pinned = Pinned(key: Cid, mode: PinMode, via: Option<Cid>)

  datatype Search = Yes | No | Broken

  ghost predicate UnderSomeRoot(g: Graph<Cid>, pins: PinState, c: Cid) {
    exists r :: r in pins.recursive && Reaches(g, r, c)
  }

  /** Some recursive root, or a node below one, cannot be fetched. */
  ghost predicate SomethingMissing(g: Graph<Cid>, pins: PinState) {
    exists r :: r in pins.recursive && MissingBelow(g, r)
  }

  ghost predicate MissingBelow(g: Graph<Cid>, r: Cid) {
    r !in g || exists x :: Reaches(g, r, x) && x !in g
  }

  lemma MissingFromChild(g: Graph<Cid>, root: Cid, c: Cid)
    requires root in g && c in g[root] && MissingBelow(g, c)
    ensures MissingBelow(g, root)
  {
    OneLink(g, {}, root, c);
    if c in g {
      var x :| Reaches(g, c, x) && x !in g;
      Prepend(g, {}, {}, root, c, x);
    }
  }

  // ---- the depth-first search with a visited set

  /** Looks for `child` below `root`, skipping nodes already in `visited`. A negative answer leaves behind a
      visited set that, for everything new, is closed under links and free of `child`. */
  method HasChild(g: Graph<Cid>, root: Cid, child: Cid, visited: CidSet) returns (r: Search)
    modifies visited
    ensures old(visited.elems) <= visited.elems
    ensures child in visited.elems ==> child in old(visited.elems)
    ensures r == Yes ==> Reaches(g, root, child)
    ensures r == No ==> Covered(g, {root}, visited.elems) && Covered(g, visited.elems - old(visited.elems), visited.elems)
    ensures r == Broken ==> MissingBelow(g, root)
    decreases g.Keys - visited.elems, root in g
  {
    if root !in g {
      return Broken;
    }
    var links := g[root];
    for i := 0 to |links|
      invariant old(visited.elems) <= visited.elems
      invariant child in visited.elems ==> child in old(visited.elems)
      invariant forall j :: 0 <= j < i ==> links[j] in visited.elems
      invariant Covered(g, visited.elems - old(visited.elems), visited.elems)
    {
      var c := links[i];
      if c == child {
        OneLink(g, {}, root, child);
        return Yes;
      }
      var unseen := visited.Visit(c);
      if unseen {
        var sub := HasChild(g, c, child, visited);
        if sub == Broken {
          MissingFromChild(g, root, c);
          return Broken;
        }
        if sub == Yes {
          Prepend(g, {}, {}, root, c, child);
          return Yes;
        }
      }
    }
    return No;
  }

  /** The meaning of an answer for a mode. */
  ghost predicate Correct(g: Graph<Cid>, pins: PinState, c: Cid, mode: PinMode, a: Answer) {
    match a
    case InvalidMode => mode == NotPinned
    case ByRecursive => (mode == Recursive || mode == Any) && c in pins.recursive
    case ByDirect => (mode == Direct || (mode == Any && c !in pins.recursive)) && c in pins.direct
    case ByInternal => (mode == Internal || (mode == Any && c !in pins.recursive + pins.direct)) && c in pins.internal
    case Via(r) => (mode == Indirect || (mode == Any && !pins.Holds(c))) && r in pins.recursive && Reaches(g, r, c)
    case FetchFailed => (mode == Indirect || (mode == Any && !pins.Holds(c))) && SomethingMissing(g, pins)
    case Unpinned =>
      && mode != NotPinned
      && (mode == Recursive || mode == Any ==> c !in pins.recursive)
      && (mode == Direct || mode == Any ==> c !in pins.direct)
      && (mode == Internal || mode == Any ==> c !in pins.internal)
      && (mode == Indirect || mode == Any ==> !UnderSomeRoot(g, pins, c))
  }

  method IsPinnedWithType(g: Graph<Cid>, recursePin: CidSet, directPin: CidSet, internalPin: CidSet, c: Cid, mode: PinMode)
    returns (a: Answer)
    ensures Correct(g, PinState(recursePin.elems, directPin.elems, internalPin.elems), c, mode, a)
  {
    if mode == NotPinned {
      return InvalidMode;
    }
    if (mode == Recursive || mode == Any) && recursePin.Has(c) {
      return ByRecursive;
    }
    if mode == Recursive {
      return Unpinned;
    }
    if (mode == Direct || mode == Any) && directPin.Has(c) {
      return ByDirect;
    }
    if mode == Direct {
      return Unpinned;
    }
    if (mode == Internal || mode == Any) && internalPin.Has(c) {
      return ByInternal;
    }
    if mode == Internal {
      return Unpinned;
    }
    var visited := new CidSet();
    var roots := recursePin.Keys();
    for i := 0 to |roots|
      invariant fresh(visited) && c !in visited.elems
      invariant Covered(g, visited.elems, visited.elems)
      invariant forall j :: 0 <= j < i ==> Covered(g, {roots[j]}, visited.elems)
    {
      assert roots[i] in Elems(roots);
      var has := HasChild(g, roots[i], c, visited);
      if has == Broken {
        return FetchFailed;
      }
      if has == Yes {
        return Via(roots[i]);
      }
    }
    forall r | r in recursePin.elems ensures !Reaches(g, r, c) {
      assert r in Elems(roots);
      var j :| 0 <= j < |roots| && roots[j] == r;
      assert Covered(g, {roots[j]}, visited.elems);
      ClosedHoldsReached(g, {}, visited.elems, r);
    }
    return Unpinned;
  }

  /** Unless some node cannot be fetched, the answer is decided: pinned indirectly, under the root named,
      exactly if some recursive root reaches the key, and so on down the modes. */
  lemma AnswerIsDecided(g: Graph<Cid>, pins: PinState, c: Cid, a: Answer)
    requires Correct(g, pins, c, Any, a) && !SomethingMissing(g, pins)
    ensures a == ByRecursive <==> c in pins.recursive
    ensures a == ByDirect <==> c in pins.direct - pins.recursive
    ensures a == ByInternal <==> c in pins.internal - pins.direct - pins.recursive
    ensures a.Via? <==> !pins.Holds(c) && UnderSomeRoot(g, pins, c)
    ensures a.Unpinned? <==> !pins.Holds(c) && !UnderSomeRoot(g, pins, c)
  {
  }

  // ---- checking many keys in one walk

  /** Links lead to nodes of lower rank: the graph has no cycle. */
  ghost predicate Acyclic(g: Graph<Cid>, rank: Cid -> nat) {
    forall x, c :: x in g && c in g[x] ==> rank(c) < rank(x)
  }

  function Keys(pinned: seq<Pinned>): seq<Cid> {
    seq(|pinned|, i requires 0 <= i < |pinned| => pinned[i].key)
  }

  lemma KeysAppend(pinned: seq<Pinned>, e: Pinned)
    ensures Keys(pinned + [e]) == Keys(pinned) + [e.key]
  {
  }

  /** One line of the report tells the truth about its key. */
  ghost predicate Truthful(g: Graph<Cid>, pins: PinState, e: Pinned) {
    match e.mode
    case Recursive => e.key in pins.recursive
    case Direct => e.key in pins.direct - pins.recursive
    case Internal => e.key in pins.internal - pins.direct - pins.recursive
    case Indirect => !pins.Holds(e.key) && e.via.Some? && e.via.value in pins.recursive && Reaches(g, e.via.value, e.key)
    case NotPinned => !pins.Holds(e.key) && !UnderSomeRoot(g, pins, e.key)
    case Any => false
  }

  /** Keys pinned by themselves are reported as often as requested, other requested keys once when settled. */
  ghost function Lines(pins: PinState, cids: seq<Cid>, open: set<Cid>, k: Cid): nat {
    if pins.Holds(k) then multiset(cids)[k] else if k in cids && k !in open then 1 else 0
  }

  ghost predicate Report(g: Graph<Cid>, pins: PinState, cids: seq<Cid>, pinned: seq<Pinned>, open: set<Cid>) {
    && (forall k :: k in open ==> k in cids && !pins.Holds(k))
    && (forall e :: e in pinned ==> Truthful(g, pins, e))
    && (forall k :: multiset(Keys(pinned))[k] == Lines(pins, cids, open, k))
  }

  class PinScan {
    var pinned: seq<Pinned>
    var toCheck: CidSet

    constructor ()
      ensures fresh(toCheck) && pinned == [] && toCheck.elems == {}
    {
      pinned := [];
      toCheck := new CidSet();
    }
  }

  lemma ReachesViaChild(g: Graph<Cid>, a: Cid, b: Cid)
    requires Reaches(g, a, b)
    ensures a in g && exists c :: c in g[a] && (c == b || Reaches(g, c, b))
  {
    var p :| PathAvoiding(g, {}, p, a, b);
    assert p[0] in g && p[0 + 1] in g[p[0]];
    if |p| > 2 {
      var q := p[1..];
      forall i | 0 <= i < |q| - 1 ensures q[i] in g && q[i + 1] in g[q[i]] {
        assert p[i + 1] in g && p[(i + 1) + 1] in g[p[i + 1]];
      }
      assert PathAvoiding(g, {}, q, p[1], b);
    }
  }

  lemma SettleKey(g: Graph<Cid>, pins: PinState, cids: seq<Cid>, pinned: seq<Pinned>, open: set<Cid>, e: Pinned)
    requires Report(g, pins, cids, pinned, open) && e.key in open && Truthful(g, pins, e)
    ensures Report(g, pins, cids, pinned + [e], open - {e.key})
  {
    KeysAppend(pinned, e);
  }

  /** Walks everything below `parent` and reports the open keys it meets as pinned under `rk`. */
  method CheckChildren(g: Graph<Cid>, scan: PinScan, rk: Cid, parent: Cid,
                       ghost pins: PinState, ghost cids: seq<Cid>, ghost rank: Cid -> nat) returns (ok: bool)
    requires Acyclic(g, rank) && rk in pins.recursive && (parent == rk || Reaches(g, rk, parent))
    requires Report(g, pins, cids, scan.pinned, scan.toCheck.elems)
    modifies scan, scan.toCheck
    ensures scan.toCheck == old(scan.toCheck) && scan.toCheck.elems <= old(scan.toCheck.elems)
    ensures Report(g, pins, cids, scan.pinned, scan.toCheck.elems)
    ensures ok && scan.toCheck.elems != {} ==> forall k :: k in scan.toCheck.elems ==> !Reaches(g, parent, k)
    ensures !ok ==> MissingBelow(g, parent)
    decreases rank(parent)
  {
    if parent !in g {
      return false;
    }
    var links := g[parent];
    for i := 0 to |links|
      invariant scan.toCheck == old(scan.toCheck) && scan.toCheck.elems <= old(scan.toCheck.elems)
      invariant Report(g, pins, cids, scan.pinned, scan.toCheck.elems)
      invariant forall j :: 0 <= j < i ==> links[j] !in scan.toCheck.elems
      invariant forall j, k :: 0 <= j < i && k in scan.toCheck.elems ==> !Reaches(g, links[j], k)
    {
      var c := links[i];
      assert Reaches(g, rk, c) by {
        if parent == rk { OneLink(g, {}, rk, c); } else { Append(g, rk, parent, c); }
      }
      if scan.toCheck.Has(c) {
        SettleKey(g, pins, cids, scan.pinned, scan.toCheck.elems, Pinned(c, Indirect, Some(rk)));
        scan.pinned := scan.pinned + [Pinned(c, Indirect, Some(rk))];
        scan.toCheck.Remove(c);
      }
      var sub := CheckChildren(g, scan, rk, c, pins, cids, rank);
      if !sub {
        MissingFromChild(g, parent, c);
        return false;
      }
      if scan.toCheck.elems == {} {
        return true;
      }
    }
    forall k | k in scan.toCheck.elems ensures !Reaches(g, parent, k) {
      if Reaches(g, parent, k) {
        ReachesViaChild(g, parent, k);
      }
    }
    return true;
  }

  lemma RequestHeldKey(g: Graph<Cid>, pins: PinState, cids: seq<Cid>, pinned: seq<Pinned>, open: set<Cid>, e: Pinned)
    requires Report(g, pins, cids, pinned, open) && pins.Holds(e.key) && Truthful(g, pins, e)
    ensures Report(g, pins, cids + [e.key], pinned + [e], open)
  {
    KeysAppend(pinned, e);
  }

  lemma RequestOpenKey(g: Graph<Cid>, pins: PinState, cids: seq<Cid>, pinned: seq<Pinned>, open: set<Cid>, c: Cid)
    requires Report(g, pins, cids, pinned, open) && !pins.Holds(c) && (c in cids ==> c in open)
    ensures Report(g, pins, cids + [c], pinned, open + {c})
  {
  }

  /** The first pass: keys pinned by themselves are reported at once, the others stay open. */
  method ReportHeld(g: Graph<Cid>, recursePin: CidSet, directPin: CidSet, internalPin: CidSet, cids: seq<Cid>) returns (scan: PinScan)
    ensures fresh(scan) && fresh(scan.toCheck)
    ensures var pins := PinState(recursePin.elems, directPin.elems, internalPin.elems);
      Report(g, pins, cids, scan.pinned, scan.toCheck.elems) && forall k :: k in cids ==> pins.Holds(k) || k in scan.toCheck.elems
  {
    scan := new PinScan();
    ghost var pins := PinState(recursePin.elems, directPin.elems, internalPin.elems);
    for i := 0 to |cids|
      invariant fresh(scan) && fresh(scan.toCheck)
      invariant Report(g, pins, cids[..i], scan.pinned, scan.toCheck.elems)
      invariant forall k :: k in cids[..i] ==> pins.Holds(k) || k in scan.toCheck.elems
    {
      var c := cids[i];
      assert cids[..i + 1] == cids[..i] + [c];
      if recursePin.Has(c) {
        RequestHeldKey(g, pins, cids[..i], scan.pinned, scan.toCheck.elems, Pinned(c, Recursive, None));
        scan.pinned := scan.pinned + [Pinned(c, Recursive, None)];
      } else if directPin.Has(c) {
        RequestHeldKey(g, pins, cids[..i], scan.pinned, scan.toCheck.elems, Pinned(c, Direct, None));
        scan.pinned := scan.pinned + [Pinned(c, Direct, None)];
      } else if internalPin.Has(c) {
        RequestHeldKey(g, pins, cids[..i], scan.pinned, scan.toCheck.elems, Pinned(c, Internal, None));
        scan.pinned := scan.pinned + [Pinned(c, Internal, None)];
      } else {
        RequestOpenKey(g, pins, cids[..i], scan.pinned, scan.toCheck.elems, c);
        scan.toCheck.Add(c);
      }
    }
    assert cids[..|cids|] == cids;
  }

  /** Reports on all requested keys in one pass over the recursive roots. */
  method CheckIfPinned(g: Graph<Cid>, recursePin: CidSet, directPin: CidSet, internalPin: CidSet, cids: seq<Cid>,
                       ghost rank: Cid -> nat) returns (ok: bool, pinned: seq<Pinned>)
    requires Acyclic(g, rank)
    ensures ok ==> Report(g, PinState(recursePin.elems, directPin.elems, internalPin.elems), cids, pinned, {})
    ensures !ok ==> SomethingMissing(g, PinState(recursePin.elems, directPin.elems, internalPin.elems))
  {
    pinned := [];
    ghost var pins := PinState(recursePin.elems, directPin.elems, internalPin.elems);
    var scan := ReportHeld(g, recursePin, directPin, internalPin, cids);
    var roots := recursePin.Keys();
    var i := 0;
    while i < |roots|
      invariant i <= |roots| && fresh(scan) && fresh(scan.toCheck)
      invariant Report(g, pins, cids, scan.pinned, scan.toCheck.elems)
      invariant forall j, k :: 0 <= j < i && k in scan.toCheck.elems ==> !Reaches(g, roots[j], k)
    {
      assert roots[i] in Elems(roots);
      ok := CheckChildren(g, scan, roots[i], roots[i], pins, cids, rank);
      if !ok {
        return false, [];
      }
      if scan.toCheck.elems == {} {
        break;
      }
      i := i + 1;
    }
    var left := scan.toCheck.Keys();
    ghost var open := scan.toCheck.elems;
    forall k | k in open ensures !UnderSomeRoot(g, pins, k) {
      forall r | r in pins.recursive ensures !Reaches(g, r, k) {
        assert r in Elems(roots);
      }
    }
    for j := 0 to |left|
      invariant open == Elems(left[j..]) && fresh(scan) && fresh(scan.toCheck)
      invariant Report(g, pins, cids, scan.pinned, open)
      invariant forall k :: k in open ==> !UnderSomeRoot(g, pins, k)
    {
      assert left[j..] == [left[j]] + left[j + 1..];
      assert left[j] !in left[j + 1..];
      SettleKey(g, pins, cids, scan.pinned, open, Pinned(left[j], NotPinned, None));
      scan.pinned := scan.pinned + [Pinned(left[j], NotPinned, None)];
      open := open - {left[j]};
    }
    return true, scan.pinned;
  }

  function ModeOf(a: Answer): PinMode {
    match a
    case ByRecursive => Recursive
    case ByDirect => Direct
    case ByInternal => Internal
    case Via(_) => Indirect
    case _ => NotPinned
  }

  /** The one-pass report and the single query put every key in the same class. */
  lemma ReportAgreesWithQuery(g: Graph<Cid>, pins: PinState, cids: seq<Cid>, pinned: seq<Pinned>, e: Pinned, a: Answer)
    requires Report(g, pins, cids, pinned, {}) && e in pinned
    requires Correct(g, pins, e.key, Any, a) && a != FetchFailed
    ensures e.mode == ModeOf(a)
    ensures e.mode == Indirect ==> e.via.Some? && e.via.value in pins.recursive && Reaches(g, e.via.value, e.key)
  {
    assert Truthful(g, pins, e);
  }

  /** Every requested key is reported, and nothing else. It is reported exactly once for all keys if and only if
      no key that is pinned by itself was requested twice. */
  lemma ReportedOnceExactlyIf(g: Graph<Cid>, pins: PinState, cids: seq<Cid>, pinned: seq<Pinned>)
    requires Report(g, pins, cids, pinned, {})
    ensures forall k :: k in Keys(pinned) <==> k in cids
    ensures (forall k :: k in cids ==> multiset(Keys(pinned))[k] == 1)
       <==> (forall k :: pins.Holds(k) ==> multiset(cids)[k] <= 1)
  {
    forall k ensures k in Keys(pinned) <==> k in cids {
      assert k in Keys(pinned) <==> multiset(Keys(pinned))[k] > 0;
      assert k in cids <==> multiset(cids)[k] > 0;
    }
    if forall k :: k in cids ==> multiset(Keys(pinned))[k] == 1 {
      forall k | pins.Holds(k) ensures multiset(cids)[k] <= 1 {
        assert multiset(cids)[k] > 0 <==> k in cids;
      }
    }
  }

  /** Requesting a directly pinned key twice yields two lines for it. */
  lemma DirectKeyReportedTwice(g: Graph<Cid>, c: Cid, pinned: seq<Pinned>)
    requires Report(g, PinState({}, {c}, {}), [c, c], pinned, {})
    ensures multiset(Keys(pinned))[c] == 2
  {
  }
}
