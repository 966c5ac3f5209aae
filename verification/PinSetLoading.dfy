/** Loading a stored pin set (`walkItems`, `loadSet`) and the round trip with storing it. */
module PinSetLoading {
  import opened Cids
  import opened Sorting
  import opened PinSets

  /** The fan-out recorded in the header, provided the header is sound. */
  function ReadHdr(n: DagNode): Result<nat> {
    if !n.data.SetHeader? then Failure(BadHeader)
    else if n.data.version != 1 then Failure(UnsupportedVersion)
    else if n.data.fanout > |n.links| then Failure(FanoutTooLarge)
    else Success(n.data.fanout)
  }

  /** The keys found by a walk, in order, and the keys of the fan-out table it came across. */
  datatype Found = Found(items: seq<Cid>, keys: set<Cid>)

  function LinkCids(links: seq<Link>): seq<Cid> {
    seq(|links|, i requires 0 <= i < |links| => links[i].cid)
  }

  function Walked(present: set<Cid>, n: DagNode): Result<Found>
    decreases n, 1
  {
    var fanout :- ReadHdr(n);
    var below :- WalkedSlots(present, n, fanout, 0);
    Success(Found(LinkCids(n.links[fanout..]) + below.items, below.keys))
  }

  function WalkedSlots(present: set<Cid>, n: DagNode, fanout: nat, i: nat): Result<Found>
    requires i <= fanout <= |n.links|
    decreases n, 0, fanout - i
  {
    if i == fanout then Success(Found([], {}))
    else
      var c := n.links[i].cid;
      var here :- WalkedSlot(present, n, i);
      var later :- WalkedSlots(present, n, fanout, i + 1);
      Success(Found(here.items + later.items, {c} + here.keys + later.keys))
  }

  function WalkedSlot(present: set<Cid>, n: DagNode, i: nat): Result<Found>
    requires i < |n.links|
    decreases n, 0, 0
  {
    var c := n.links[i].cid;
    if c == EMPTY_KEY then Success(Found([], {}))
    else
      var child :- Get(present, c);
      assert n.links[i] < n && child < n;
      Walked(present, child)
  }

  class KeyList {
    var items: seq<Cid>

    constructor ()
      ensures items == []
    {
      items := [];
    }
  }

  /** The answer of a failed step, or what it found put after what was found before. */
  ghost function After(before: Found, later: Result<Found>): Result<Found> {
    match later
    case Failure(e) => Failure(e)
    case Success(f) => Success(Found(before.items + f.items, before.keys + f.keys))
  }

  lemma AfterNothing(later: Result<Found>)
    ensures After(Found([], {}), later) == later
  {
    if later.Success? { assert [] + later.value.items == later.value.items && {} + later.value.keys == later.value.keys; }
  }

  lemma AfterSlot(present: set<Cid>, n: DagNode, fanout: nat, i: nat, before: Found, here: Found)
    requires i < fanout <= |n.links|
    requires WalkedSlot(present, n, i) == Success(here)
    ensures After(before, WalkedSlots(present, n, fanout, i))
         == After(Found(before.items + here.items, before.keys + ({n.links[i].cid} + here.keys)), WalkedSlots(present, n, fanout, i + 1))
  {
    var later := WalkedSlots(present, n, fanout, i + 1);
    if later.Success? {
      assert before.items + (here.items + later.value.items) == before.items + here.items + later.value.items;
      assert before.keys + ({n.links[i].cid} + here.keys + later.value.keys)
          == before.keys + ({n.links[i].cid} + here.keys) + later.value.keys;
    }
  }

  /** Walks a stored set: every inline key goes to `res`, every fan-out key to `children`. */
  method WalkItems(dag: DagStore, n: DagNode, res: KeyList, children: CidSet) returns (r: Result<()>)
    modifies res, children
    ensures r.Success? <==> Walked(dag.present, n).Success?
    ensures r.Failure? ==> r.error == Walked(dag.present, n).error
    ensures r.Success? ==> res.items == old(res.items) + Walked(dag.present, n).value.items
    ensures r.Success? ==> children.elems == old(children.elems) + Walked(dag.present, n).value.keys
    decreases n, 1
  {
    var hdr := ReadHdr(n);
    if hdr.Failure? {
      return Failure(hdr.error);
    }
    var fanout := hdr.value;
    WalkInline(n.links[fanout..], res);
    ghost var inline, below := LinkCids(n.links[fanout..]), WalkedSlots(dag.present, n, fanout, 0);
    r := WalkFanout(dag, n, fanout, res, children);
    if r.Success? {
      assert old(res.items) + inline + below.value.items == old(res.items) + (inline + below.value.items);
    }
  }

  /** The loop over the fan-out table. */
  method WalkFanout(dag: DagStore, n: DagNode, fanout: nat, res: KeyList, children: CidSet) returns (r: Result<()>)
    requires fanout <= |n.links|
    modifies res, children
    ensures r.Success? <==> WalkedSlots(dag.present, n, fanout, 0).Success?
    ensures r.Failure? ==> r.error == WalkedSlots(dag.present, n, fanout, 0).error
    ensures r.Success? ==> res.items == old(res.items) + WalkedSlots(dag.present, n, fanout, 0).value.items
    ensures r.Success? ==> children.elems == old(children.elems) + WalkedSlots(dag.present, n, fanout, 0).value.keys
    decreases n, 0, 1
  {
    ghost var got := Found([], {});
    AfterNothing(WalkedSlots(dag.present, n, fanout, 0));
    for i := 0 to fanout
      invariant WalkedSlots(dag.present, n, fanout, 0) == After(got, WalkedSlots(dag.present, n, fanout, i))
      invariant res.items == old(res.items) + got.items
      invariant children.elems == old(children.elems) + got.keys
    {
      r := WalkSlot(dag, n, i, res, children);
      if r.Failure? {
        assert WalkedSlots(dag.present, n, fanout, i) == Failure(r.error);
        return r;
      }
      ghost var here := WalkedSlot(dag.present, n, i).value;
      AfterSlot(dag.present, n, fanout, i, got, here);
      got := Found(got.items + here.items, got.keys + ({n.links[i].cid} + here.keys));
    }
    assert WalkedSlots(dag.present, n, fanout, fanout) == Success(Found([], {}));
    assert got.items + [] == got.items && got.keys + {} == got.keys;
    return Success(());
  }

  method WalkInline(links: seq<Link>, res: KeyList)
    modifies res
    ensures res.items == old(res.items) + LinkCids(links)
  {
    for i := 0 to |links|
      invariant res.items == old(res.items) + LinkCids(links)[..i]
    {
      assert LinkCids(links)[..i + 1] == LinkCids(links)[..i] + [links[i].cid];
      res.items := res.items + [links[i].cid];
    }
    assert LinkCids(links)[..|links|] == LinkCids(links);
  }

  /** Notes the key of a fan-out link and, unless it is the empty one, walks the node behind it. */
  method WalkSlot(dag: DagStore, n: DagNode, i: nat, res: KeyList, children: CidSet) returns (r: Result<()>)
    requires i < |n.links|
    modifies res, children
    ensures r.Success? <==> WalkedSlot(dag.present, n, i).Success?
    ensures r.Failure? ==> r.error == WalkedSlot(dag.present, n, i).error
    ensures r.Success? ==> res.items == old(res.items) + WalkedSlot(dag.present, n, i).value.items
    ensures r.Success? ==> children.elems == old(children.elems) + ({n.links[i].cid} + WalkedSlot(dag.present, n, i).value.keys)
    decreases n, 0, 0
  {
    var c := n.links[i].cid;
    children.Add(c);
    if c == EMPTY_KEY {
      return Success(());
    }
    var child := Get(dag.present, c);
    if child.Failure? {
      return Failure(child.error);
    }
    assert n.links[i] < n && child.value < n;
    r := WalkItems(dag, child.value, res, children);
  }

  // ---- the round trip

  /** The keys of a tree in the order of a walk: inline first, then slot by slot. */
  ghost function TreeItems(t: SetTree): seq<Cid>
    decreases t, |t.slots| + 1
  {
    t.inline + ItemsFrom(t, 0)
  }

  ghost function ItemsFrom(t: SetTree, h: nat): seq<Cid>
    requires h <= |t.slots|
    decreases t, |t.slots| - h
  {
    if h == |t.slots| then []
    else SlotItems(t.slots[h]) + ItemsFrom(t, h + 1)
  }

  ghost function SlotItems(s: Slot): seq<Cid>
    decreases s
  {
    if s.Unused? then [] else TreeItems(s.tree)
  }

  /** The shape every stored tree has: each node with the full fan-out table. */
  ghost predicate FullFanout(cfg: Config, t: SetTree) {
    |t.slots| == cfg.fanout && forall h :: 0 <= h < |t.slots| && t.slots[h].Subtree? ==> FullFanout(cfg, t.slots[h].tree)
  }

  lemma {:induction false} BuiltHasFullFanout(cfg: Config, estimate: nat, depth: nat, items: seq<Cid>, fuel: nat)
    requires Ends(cfg, estimate, depth, items, fuel)
    ensures FullFanout(cfg, Build(cfg, estimate, depth, items, fuel))
    decreases fuel
  {
    var t := Build(cfg, estimate, depth, items, fuel);
    forall h | 0 <= h < |t.slots| && t.slots[h].Subtree? ensures FullFanout(cfg, t.slots[h].tree) {
      BuildFacts(cfg, estimate, depth, items, fuel, h);
      var bucket := Bucket(cfg, depth, Rest(cfg, estimate, items), h);
      BuiltHasFullFanout(cfg, |bucket|, depth + 1, bucket, fuel - 1);
    }
  }

  /** The keys a walk comes across below slot `h`. */
  ghost function KeysFrom(cfg: Config, t: SetTree, h: nat): set<Cid>
    requires h <= |t.slots|
    decreases t, |t.slots| - h
  {
    if h == |t.slots| then
      {}
    else
      var below := if t.slots[h].Unused? then {} else KeysFrom(cfg, t.slots[h].tree, 0);
      {SlotLink(cfg, t.slots[h]).cid} + below + KeysFrom(cfg, t, h + 1)
  }

  lemma NodeFacts(cfg: Config, t: SetTree)
    requires FullFanout(cfg, t)
    ensures ReadHdr(NodeOf(cfg, t)) == Success(cfg.fanout)
    ensures LinkCids(NodeOf(cfg, t).links[cfg.fanout..]) == t.inline
    ensures forall h :: 0 <= h < cfg.fanout ==> NodeOf(cfg, t).links[h] == SlotLink(cfg, t.slots[h])
  {
    assert NodeOf(cfg, t).links[cfg.fanout..] == InlineLinks(t.inline);
  }

  lemma {:induction false} WalkFindsTree(cfg: Config, present: set<Cid>, t: SetTree)
    requires FullFanout(cfg, t) && Below(cfg, t) <= present
    ensures Walked(present, NodeOf(cfg, t)) == Success(Found(TreeItems(t), KeysFrom(cfg, t, 0)))
    decreases t, |t.slots| + 1
  {
    NodeFacts(cfg, t);
    WalkFindsSlots(cfg, present, t, 0);
  }

  lemma {:induction false} WalkFindsSlots(cfg: Config, present: set<Cid>, t: SetTree, h: nat)
    requires FullFanout(cfg, t) && Below(cfg, t) <= present && h <= cfg.fanout
    ensures |NodeOf(cfg, t).links| >= cfg.fanout
    ensures WalkedSlots(present, NodeOf(cfg, t), cfg.fanout, h) == Success(Found(ItemsFrom(t, h), KeysFrom(cfg, t, h)))
    decreases t, cfg.fanout - h
  {
    NodeFacts(cfg, t);
    if h < cfg.fanout {
      if t.slots[h].Subtree? {
        SlotKeysBelow(cfg, t, h, cfg.fanout);
        WalkFindsTree(cfg, present, t.slots[h].tree);
      }
      WalkFindsSlots(cfg, present, t, h + 1);
    }
  }

  lemma {:induction false} SlotKeysBelow(cfg: Config, t: SetTree, h: nat, k: nat)
    requires h < k <= |t.slots|
    ensures OwnKeys(cfg, t.slots[h]) <= BelowUpTo(cfg, t, k)
    decreases k
  {
    if h < k - 1 { SlotKeysBelow(cfg, t, h, k - 1); }
  }

  /** A walk comes across every stored key below the root and, some slot always being unused, the empty key. */
  lemma {:induction false} WalkKeysAreStoredKeys(cfg: Config, t: SetTree, h: nat)
    requires FullFanout(cfg, t) && h <= |t.slots|
    ensures BelowUpTo(cfg, t, h) + KeysFrom(cfg, t, h) + {EMPTY_KEY} == Below(cfg, t) + {EMPTY_KEY}
    ensures h < |t.slots| ==> EMPTY_KEY in KeysFrom(cfg, t, h)
    decreases t, |t.slots| - h
  {
    if h < |t.slots| {
      if t.slots[h].Subtree? {
        WalkKeysAreStoredKeys(cfg, t.slots[h].tree, 0);
      }
      WalkKeysAreStoredKeys(cfg, t, h + 1);
    }
  }

  // ---- the same keys, counted

  ghost function SumTo(c: nat -> nat, h: nat): nat {
    if h == 0 then 0 else SumTo(c, h - 1) + c(h - 1)
  }

  lemma {:induction false} SumAdd(c: nat -> nat, d: nat -> nat, at: nat, more: nat, h: nat)
    requires forall j :: d(j) == c(j) + if j == at then more else 0
    ensures SumTo(d, h) == SumTo(c, h) + if at < h then more else 0
  {
    if h > 0 { SumAdd(c, d, at, more, h - 1); }
  }

  /** What is left from `h` on, added to what comes before it, is the whole. */
  lemma {:induction false} Telescope(c: nat -> nat, left: nat -> nat, h: nat, n: nat)
    requires h <= n && left(n) == 0 && forall j: nat :: j < n ==> left(j) == c(j) + left(j + 1)
    ensures SumTo(c, h) + left(h) == SumTo(c, n)
    decreases n - h
  {
    if h < n { Telescope(c, left, h + 1, n); }
  }

  /** How often `x` is in each bucket. */
  ghost function BucketCounts(cfg: Config, depth: nat, items: seq<Cid>, x: Cid): nat -> nat {
    (h: nat) => multiset(Bucket(cfg, depth, items, h))[x]
  }

  lemma BucketAppend(cfg: Config, depth: nat, items: seq<Cid>, k: Cid, h: nat)
    ensures Bucket(cfg, depth, items + [k], h)
         == Bucket(cfg, depth, items, h) + if cfg.hash(depth, k) % cfg.fanout == h then [k] else []
  {
    FilterAppend((c: Cid) => cfg.hash(depth, c) % cfg.fanout == h, items, k);
  }

  lemma CountAppend(cfg: Config, depth: nat, items: seq<Cid>, k: Cid, x: Cid, h: nat)
    ensures BucketCounts(cfg, depth, items + [k], x)(h)
         == BucketCounts(cfg, depth, items, x)(h) + if cfg.hash(depth, k) % cfg.fanout == h && k == x then 1 else 0
  {
    BucketAppend(cfg, depth, items, k, h);
  }

  lemma {:induction false} NothingToCount(cfg: Config, depth: nat, x: Cid, h: nat)
    ensures SumTo(BucketCounts(cfg, depth, [], x), h) == 0
  {
    if h > 0 { NothingToCount(cfg, depth, x, h - 1); }
  }

  /** The buckets together hold every item, as often as it occurs. */
  lemma {:induction false} BucketsPartition(cfg: Config, depth: nat, items: seq<Cid>, x: Cid)
    ensures SumTo(BucketCounts(cfg, depth, items, x), cfg.fanout) == multiset(items)[x]
  {
    if items == [] {
      NothingToCount(cfg, depth, x, cfg.fanout);
    } else {
      var front, last := items[..|items| - 1], items[|items| - 1];
      assert items == front + [last];
      BucketsPartition(cfg, depth, front, x);
      var at, more := cfg.hash(depth, last) % cfg.fanout, if last == x then 1 else 0;
      var c, d := BucketCounts(cfg, depth, front, x), BucketCounts(cfg, depth, items, x);
      forall h: nat
        ensures d(h) == c(h) + if h == at then more else 0
      {
        CountAppend(cfg, depth, front, last, x, h);
      }
      SumAdd(c, d, at, more, cfg.fanout);
    }
  }

  lemma {:induction false} BuiltHoldsItems(cfg: Config, estimate: nat, depth: nat, items: seq<Cid>, fuel: nat)
    requires Ends(cfg, estimate, depth, items, fuel)
    ensures multiset(TreeItems(Build(cfg, estimate, depth, items, fuel))) == multiset(items)
    decreases fuel, 1
  {
    var t := Build(cfg, estimate, depth, items, fuel);
    var inline := items[..InlineCount(cfg, estimate, items)];
    assert multiset(t.inline) == multiset(inline) by { SortPermutes(cfg.cidLess, inline); }
    forall h | 0 <= h < cfg.fanout ensures |t.slots| == cfg.fanout && SlotHolds(cfg, depth, Rest(cfg, estimate, items), t, h) {
      BuildFacts(cfg, estimate, depth, items, fuel, h);
      StoredSlotHolds(cfg, depth, Rest(cfg, estimate, items), t, fuel, h);
    }
    PartsHoldItems(cfg, depth, items, inline, Rest(cfg, estimate, items), t);
  }

  lemma PartsHoldItems(cfg: Config, depth: nat, items: seq<Cid>, inline: seq<Cid>, rest: seq<Cid>, t: SetTree)
    requires |t.slots| == cfg.fanout && items == inline + rest && multiset(t.inline) == multiset(inline)
    requires forall j :: 0 <= j < cfg.fanout ==> SlotHolds(cfg, depth, rest, t, j)
    ensures multiset(TreeItems(t)) == multiset(items)
  {
    forall x
      ensures multiset(ItemsFrom(t, 0))[x] == multiset(rest)[x]
    {
      SlotsHoldBuckets(cfg, depth, rest, t, x);
      BucketsPartition(cfg, depth, rest, x);
    }
    assert multiset(ItemsFrom(t, 0)) == multiset(rest);
  }

  ghost predicate SlotHolds(cfg: Config, depth: nat, rest: seq<Cid>, t: SetTree, h: nat)
    requires h < |t.slots|
  {
    multiset(SlotItems(t.slots[h])) == multiset(Bucket(cfg, depth, rest, h))
  }

  lemma {:induction false} StoredSlotHolds(cfg: Config, depth: nat, rest: seq<Cid>, t: SetTree, fuel: nat, h: nat)
    requires h < |t.slots| && SlotStores(cfg, depth, Bucket(cfg, depth, rest, h), fuel, t.slots[h])
    ensures SlotHolds(cfg, depth, rest, t, h)
    decreases fuel, 0
  {
    var bucket := Bucket(cfg, depth, rest, h);
    if bucket != [] {
      BuiltHoldsItems(cfg, |bucket|, depth + 1, bucket, fuel - 1);
    }
  }

  lemma SlotCounts(cfg: Config, depth: nat, rest: seq<Cid>, t: SetTree, x: Cid, h: nat)
    requires h < |t.slots| && SlotHolds(cfg, depth, rest, t, h)
    ensures multiset(ItemsFrom(t, h))[x] == BucketCounts(cfg, depth, rest, x)(h) + multiset(ItemsFrom(t, h + 1))[x]
  {
    assert ItemsFrom(t, h) == SlotItems(t.slots[h]) + ItemsFrom(t, h + 1);
  }

  lemma SlotsHoldBuckets(cfg: Config, depth: nat, rest: seq<Cid>, t: SetTree, x: Cid)
    requires |t.slots| == cfg.fanout
    requires forall j :: 0 <= j < cfg.fanout ==> SlotHolds(cfg, depth, rest, t, j)
    ensures multiset(ItemsFrom(t, 0))[x] == SumTo(BucketCounts(cfg, depth, rest, x), cfg.fanout)
  {
    var left := (h: nat) => if h <= |t.slots| then multiset(ItemsFrom(t, h))[x] else 0;
    var c := BucketCounts(cfg, depth, rest, x);
    forall j: nat | j < cfg.fanout
      ensures left(j) == c(j) + left(j + 1)
    {
      SlotCounts(cfg, depth, rest, t, x, j);
    }
    assert left(0) == multiset(ItemsFrom(t, 0))[x];
    Telescope(c, left, 0, cfg.fanout);
  }

  /** Whatever list of keys was stored, under whatever estimate and hash: as long as the nodes stored below
      the root are still present, a walk from the root succeeds, yields the same keys the same number of
      times, and comes across exactly the keys of these nodes and the empty key. */
  lemma StoredSetLoads(cfg: Config, estimate: nat, depth: nat, items: seq<Cid>, fuel: nat, present: set<Cid>)
    requires Ends(cfg, estimate, depth, items, fuel)
    requires Below(cfg, Build(cfg, estimate, depth, items, fuel)) <= present
    ensures var t := Build(cfg, estimate, depth, items, fuel);
      var w := Walked(present, NodeOf(cfg, t));
      w.Success? && multiset(w.value.items) == multiset(items) && w.value.keys == Below(cfg, t) + {EMPTY_KEY}
  {
    var t := Build(cfg, estimate, depth, items, fuel);
    BuiltHasFullFanout(cfg, estimate, depth, items, fuel);
    WalkFindsTree(cfg, present, t);
    BuiltHoldsItems(cfg, estimate, depth, items, fuel);
    WalkKeysAreStoredKeys(cfg, t, 0);
  }
}
