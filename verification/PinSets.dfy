/** The stored form of a pin set (pin/set.go): a hash tree of DAG nodes with a bounded inline part. */
module PinSets {
  import opened Cids
  import opened Sorting

  datatype Error = NotFound | NotProtobuf | BadHeader | UnsupportedVersion | FanoutTooLarge | LinkNotFound

  datatype Result<T> = Success(value: T) | Failure(error: Error) {
    predicate IsFailure() { Failure? }
    function PropagateFailure<U>(): Result<U> requires Failure? { Failure(error) }
    function Extract(): T requires Success? { value }
  }

  /** The two constants of the code and what it calls: the seeded hash, the cumulative size of a node
      and the comparison of CID bytes. Nothing is assumed of the three functions. */
  datatype Params = Params(fanout: nat, maxItems: nat, hash: (nat, Cid) -> nat, size: DagNode -> nat, cidLess: (Cid, Cid) -> bool)

  type Config = p: Params | p.fanout > 0 && p.maxItems > 0
    witness Params(256, 8192, (_, _) => 0, _ => 0, (_, _) => false)

  /** The CID of the node without links and data; it marks an unused slot of the fan-out table. */
  const EMPTY_KEY: Cid := OfNode(DagNode([], NoData))

  const EMPTY_LINK: Link := Link("", 0, EMPTY_KEY)

  // ---- the DAG service

  /** What encoding does to a node before it is hashed and stored: a stable sort of the links by name. */
  function Canonical(n: DagNode): DagNode {
    n.(links := StableSort(NameLess, n.links))
  }

  /** The present blocks by CID. `OfNode` CIDs name protobuf nodes, `Opaque` ones name blocks of another kind. */
  class DagStore {
    var present: set<Cid>

    constructor (present: set<Cid>)
      ensures this.present == present
    {
      this.present := present;
    }

    method Add(n: DagNode) returns (c: Cid)
      modifies this
      ensures c == OfNode(Canonical(n)) && present == old(present) + {c}
    {
      c := OfNode(Canonical(n));
      present := present + {c};
    }
  }

  function Get(present: set<Cid>, c: Cid): Result<DagNode> {
    if c !in present then Failure(NotFound)
    else if c.Opaque? then Failure(NotProtobuf)
    else Success(c.node)
  }

  // ---- storing

  function Bucket(cfg: Config, depth: nat, items: seq<Cid>, h: nat): seq<Cid> {
    Filter((k: Cid) => cfg.hash(depth, k) % cfg.fanout == h, items)
  }

  /** How many items go inline: none if the estimate says they will not fit. */
  function InlineCount(cfg: Config, estimate: nat, items: seq<Cid>): (n: nat)
    ensures n <= |items|
  {
    if estimate >= cfg.maxItems then 0 else if |items| < cfg.maxItems then |items| else cfg.maxItems
  }

  function Rest(cfg: Config, estimate: nat, items: seq<Cid>): seq<Cid> {
    items[InlineCount(cfg, estimate, items)..]
  }

  /** Storing these items needs at most `fuel` levels below this one. */
  ghost predicate Ends(cfg: Config, estimate: nat, depth: nat, items: seq<Cid>, fuel: nat)
    decreases fuel
  {
    var rest := Rest(cfg, estimate, items);
    forall h :: 0 <= h < cfg.fanout && Bucket(cfg, depth, rest, h) != [] ==>
      && fuel > 0
      && Ends(cfg, |Bucket(cfg, depth, rest, h)|, depth + 1, Bucket(cfg, depth, rest, h), fuel - 1)
  }

  /** The tree that is stored, as a value: a slot of the fan-out table is unused or holds a subtree. */
  datatype SetTree = SetTree(depth: nat, inline: seq<Cid>, slots: seq<Slot>)
  datatype Slot = Unused | Subtree(tree: SetTree)

  ghost function Build(cfg: Config, estimate: nat, depth: nat, items: seq<Cid>, fuel: nat): SetTree
    requires Ends(cfg, estimate, depth, items, fuel)
    decreases fuel, 1
  {
    SetTree(depth, StableSort(cfg.cidLess, items[..InlineCount(cfg, estimate, items)]),
      seq(cfg.fanout, h requires 0 <= h < cfg.fanout => BuildSlot(cfg, estimate, depth, items, fuel, h)))
  }

  ghost function BuildSlot(cfg: Config, estimate: nat, depth: nat, items: seq<Cid>, fuel: nat, h: nat): Slot
    requires Ends(cfg, estimate, depth, items, fuel) && h < cfg.fanout
    decreases fuel, 0
  {
    var bucket := Bucket(cfg, depth, Rest(cfg, estimate, items), h);
    if bucket == [] then Unused
    else
      Subtree(Build(cfg, |bucket|, depth + 1, bucket, fuel - 1))
  }

  function NodeOf(cfg: Config, t: SetTree): DagNode {
    DagNode(seq(|t.slots|, h requires 0 <= h < |t.slots| => SlotLink(cfg, t.slots[h])) + InlineLinks(t.inline),
            SetHeader(1, cfg.fanout, t.depth))
  }

  function SlotLink(cfg: Config, s: Slot): Link {
    match s
    case Unused => EMPTY_LINK
    case Subtree(t) => Link("", cfg.size(NodeOf(cfg, t)), OfNode(NodeOf(cfg, t)))
  }

  function InlineLinks(cids: seq<Cid>): seq<Link> {
    seq(|cids|, i requires 0 <= i < |cids| => Link("", 0, cids[i]))
  }

  /** The keys of all nodes strictly below the root of the tree, up to a slot. */
  ghost function BelowUpTo(cfg: Config, t: SetTree, h: nat): set<Cid>
    requires h <= |t.slots|
    decreases t, h
  {
    if h == 0 then {} else BelowUpTo(cfg, t, h - 1) + OwnKeys(cfg, t.slots[h - 1])
  }

  ghost function OwnKeys(cfg: Config, s: Slot): set<Cid>
    decreases s, 0
  {
    match s
    case Unused => {}
    case Subtree(t) => {OfNode(NodeOf(cfg, t))} + BelowUpTo(cfg, t, |t.slots|)
  }

  ghost function Below(cfg: Config, t: SetTree): set<Cid> {
    BelowUpTo(cfg, t, |t.slots|)
  }

  /** No link of a set node has a name, so the sort by name keeps their order. */
  lemma SetNodeIsCanonical(cfg: Config, t: SetTree)
    ensures Canonical(NodeOf(cfg, t)) == NodeOf(cfg, t)
  {
    var n := NodeOf(cfg, t);
    forall i | 0 <= i < |n.links| ensures n.links[i].name == "" {
      if i < |t.slots| { assert n.links[i] == SlotLink(cfg, t.slots[i]); }
    }
    SortFixes(NameLess, n.links);
  }

  class KeyIterator {
    var rest: seq<Cid>

    constructor (keys: seq<Cid>)
      ensures rest == keys
    {
      rest := keys;
    }

    method Next() returns (c: Cid, ok: bool)
      modifies this
      ensures ok <==> old(rest) != []
      ensures if ok then c == old(rest)[0] && rest == old(rest)[1..] else rest == []
    {
      ok := rest != [];
      if ok {
        c, rest := rest[0], rest[1..];
      } else {
        c := EMPTY_KEY;
      }
    }
  }

  /** Puts every remaining key into the bucket its hash selects. */
  method Distribute(cfg: Config, depth: nat, iter: KeyIterator) returns (hashed: seq<seq<Cid>>)
    modifies iter
    ensures iter.rest == []
    ensures |hashed| == cfg.fanout
    ensures forall h :: 0 <= h < cfg.fanout ==> hashed[h] == Bucket(cfg, depth, old(iter.rest), h)
  {
    hashed := seq(cfg.fanout, _ => []);
    ghost var all := iter.rest;
    ghost var done := [];
    while true
      invariant all == done + iter.rest && |hashed| == cfg.fanout
      invariant forall h :: 0 <= h < cfg.fanout ==> hashed[h] == Bucket(cfg, depth, done, h)
      decreases |iter.rest|
    {
      var k, ok := iter.Next();
      if !ok {
        assert done == all;
        return;
      }
      var h := cfg.hash(depth, k) % cfg.fanout;
      forall j | 0 <= j < cfg.fanout
        ensures Bucket(cfg, depth, done + [k], j) == if j == h then Bucket(cfg, depth, done, j) + [k] else Bucket(cfg, depth, done, j)
      {
        FilterAppend((c: Cid) => cfg.hash(depth, c) % cfg.fanout == j, done, k);
      }
      hashed := hashed[h := hashed[h] + [k]];
      done := done + [k];
    }
  }

  /** Takes up to `maxItems` keys for the inline part, if the estimate promises that they fit. */
  method TakeInline(cfg: Config, estimate: nat, iter: KeyIterator) returns (taken: seq<Cid>)
    modifies iter
    ensures taken == old(iter.rest)[..InlineCount(cfg, estimate, old(iter.rest))]
    ensures iter.rest == Rest(cfg, estimate, old(iter.rest))
  {
    taken := [];
    if estimate < cfg.maxItems {
      ghost var all := iter.rest;
      var i := 0;
      while i < cfg.maxItems
        invariant i <= cfg.maxItems && i <= |all| && taken == all[..i] && iter.rest == all[i..]
      {
        var k, ok := iter.Next();
        if !ok {
          break;
        }
        taken := taken + [k];
        i := i + 1;
      }
    }
  }

  /** The slot is what storing this bucket leads to. */
  ghost predicate SlotStores(cfg: Config, depth: nat, bucket: seq<Cid>, fuel: nat, slot: Slot) {
    if bucket == [] then
      slot == Unused
    else
      && fuel > 0
      && Ends(cfg, |bucket|, depth + 1, bucket, fuel - 1)
      && slot == Subtree(Build(cfg, |bucket|, depth + 1, bucket, fuel - 1))
  }

  lemma BuildFacts(cfg: Config, estimate: nat, depth: nat, items: seq<Cid>, fuel: nat, h: nat)
    requires Ends(cfg, estimate, depth, items, fuel) && h < cfg.fanout
    ensures var bucket := Bucket(cfg, depth, Rest(cfg, estimate, items), h);
      var t := Build(cfg, estimate, depth, items, fuel);
      && |t.slots| == cfg.fanout
      && t.depth == depth
      && t.slots[h] == BuildSlot(cfg, estimate, depth, items, fuel, h)
      && SlotStores(cfg, depth, bucket, fuel, t.slots[h])
  {
  }

  /** Stores the keys of the iterator: the node returned is the root, which the caller adds. Every node below
      is added here, and every key used is reported. */
  method StoreItems(cfg: Config, dag: DagStore, estimate: nat, depth: nat, iter: KeyIterator, internalKeys: CidSet,
                    ghost fuel: nat) returns (n: DagNode)
    requires Ends(cfg, estimate, depth, iter.rest, fuel)
    modifies dag, iter, internalKeys
    ensures n == NodeOf(cfg, Build(cfg, estimate, depth, old(iter.rest), fuel))
    ensures n.data == SetHeader(1, cfg.fanout, depth)
    ensures dag.present == old(dag.present) + Below(cfg, Build(cfg, estimate, depth, old(iter.rest), fuel))
    ensures internalKeys.elems == old(internalKeys.elems) + {EMPTY_KEY} + Below(cfg, Build(cfg, estimate, depth, old(iter.rest), fuel))
    decreases fuel, 2
  {
    ghost var items := iter.rest;
    ghost var t := Build(cfg, estimate, depth, items, fuel);
    internalKeys.Add(EMPTY_KEY);
    var inline := TakeInline(cfg, estimate, iter);
    inline := StableSort(cfg.cidLess, inline);
    var links := seq(cfg.fanout, _ => EMPTY_LINK) + InlineLinks(inline);
    var hashed := Distribute(cfg, depth, iter);
    forall h | 0 <= h < cfg.fanout ensures SlotStores(cfg, depth, hashed[h], fuel, t.slots[h]) {
      BuildFacts(cfg, estimate, depth, items, fuel, h);
    }
    links := StoreBuckets(cfg, dag, depth, hashed, links, internalKeys, t, fuel);
    NodeFromSlots(cfg, t, links);
    n := DagNode(links, SetHeader(1, cfg.fanout, depth));
  }

  lemma NodeFromSlots(cfg: Config, t: SetTree, links: seq<Link>)
    requires |links| == |t.slots| + |t.inline| && links[|t.slots|..] == InlineLinks(t.inline)
    requires forall j :: 0 <= j < |t.slots| ==> links[j] == SlotLink(cfg, t.slots[j])
    ensures NodeOf(cfg, t) == DagNode(links, SetHeader(1, cfg.fanout, t.depth))
  {
    assert links == links[..|t.slots|] + links[|t.slots|..];
    assert links[..|t.slots|] == seq(|t.slots|, h requires 0 <= h < |t.slots| => SlotLink(cfg, t.slots[h]));
  }

  /** Stores every bucket in use as a subtree and overwrites its entry in the fan-out table. */
  method StoreBuckets(cfg: Config, dag: DagStore, depth: nat, hashed: seq<seq<Cid>>, links0: seq<Link>,
                      internalKeys: CidSet, ghost t: SetTree, ghost fuel: nat) returns (links: seq<Link>)
    requires |hashed| == |t.slots| <= |links0|
    requires forall h :: 0 <= h < |hashed| ==> SlotStores(cfg, depth, hashed[h], fuel, t.slots[h]) && links0[h] == EMPTY_LINK
    requires EMPTY_KEY in internalKeys.elems
    modifies dag, internalKeys
    ensures |links| == |links0| && links[|hashed|..] == links0[|hashed|..]
    ensures forall j :: 0 <= j < |hashed| ==> links[j] == SlotLink(cfg, t.slots[j])
    ensures dag.present == old(dag.present) + Below(cfg, t)
    ensures internalKeys.elems == old(internalKeys.elems) + Below(cfg, t)
    decreases fuel, 1
  {
    links := links0;
    for h := 0 to |hashed|
      invariant |links| == |links0| && links[|hashed|..] == links0[|hashed|..]
      invariant forall j :: 0 <= j < h ==> links[j] == SlotLink(cfg, t.slots[j])
      invariant forall j :: h <= j < |hashed| ==> links[j] == EMPTY_LINK
      invariant dag.present == old(dag.present) + BelowUpTo(cfg, t, h)
      invariant internalKeys.elems == old(internalKeys.elems) + BelowUpTo(cfg, t, h)
    {
      assert SlotStores(cfg, depth, hashed[h], fuel, t.slots[h]);
      if |hashed[h]| == 0 {
        continue;
      }
      var link := StoreBucket(cfg, dag, depth, hashed[h], internalKeys, t.slots[h], fuel);
      links := links[h := link];
    }
  }

  method StoreBucket(cfg: Config, dag: DagStore, depth: nat, bucket: seq<Cid>, internalKeys: CidSet,
                     ghost slot: Slot, ghost fuel: nat) returns (link: Link)
    requires bucket != [] && SlotStores(cfg, depth, bucket, fuel, slot)
    requires EMPTY_KEY in internalKeys.elems
    modifies dag, internalKeys
    ensures link == SlotLink(cfg, slot)
    ensures link.name == "" && link.cid.OfNode? && link.size == cfg.size(link.cid.node)
    ensures dag.present == old(dag.present) + OwnKeys(cfg, slot)
    ensures internalKeys.elems == old(internalKeys.elems) + OwnKeys(cfg, slot)
    decreases fuel, 0
  {
    var childIter := new KeyIterator(bucket);
    var child := StoreItems(cfg, dag, |bucket|, depth + 1, childIter, internalKeys, fuel - 1);
    SetNodeIsCanonical(cfg, slot.tree);
    var size := cfg.size(child);
    var childKey := dag.Add(child);
    internalKeys.Add(childKey);
    link := Link("", size, childKey);
  }

  method StoreSet(cfg: Config, dag: DagStore, cids: seq<Cid>, internalKeys: CidSet, ghost fuel: nat) returns (n: DagNode)
    requires Ends(cfg, |cids|, 0, cids, fuel)
    modifies dag, internalKeys
    ensures n == NodeOf(cfg, Build(cfg, |cids|, 0, cids, fuel))
    ensures dag.present == old(dag.present) + OwnKeys(cfg, Subtree(Build(cfg, |cids|, 0, cids, fuel)))
    ensures internalKeys.elems == old(internalKeys.elems) + {EMPTY_KEY} + OwnKeys(cfg, Subtree(Build(cfg, |cids|, 0, cids, fuel)))
  {
    var iter := new KeyIterator(cids);
    n := StoreItems(cfg, dag, |cids|, 0, iter, internalKeys, fuel);
    SetNodeIsCanonical(cfg, Build(cfg, |cids|, 0, cids, fuel));
    var c := dag.Add(n);
    internalKeys.Add(c);
  }
}
