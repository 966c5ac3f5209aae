/** The presence cache over the block store (blocks/blockstore/arc_cache.go) and the block store itself
    (blocks/blockstore/blockstore.go), used sequentially. */
module ArcCache {
  import opened Basics
  import opened Cids

  type Data = seq<nat>

  datatype Block = Block(key: Cid, data: Data)

  /** How a deletion in the datastore goes: as it should, or with an error that keeps or drops the block. */
  datatype Fault = NoFault | ErrorKept | ErrorDropped

  datatype Deletion = Deleted | WasAbsent | Failed

  function Keys(bs: seq<Block>): set<Cid> {
    if bs == [] then {} else Keys(bs[..|bs| - 1]) + {bs[|bs| - 1].key}
  }

  /** The batch that PutMany builds: blocks whose key is not stored yet, later ones replacing earlier ones. */
  function Batch(stored: set<Cid>, bs: seq<Block>): map<Cid, Data> {
    if bs == [] then map[]
    else
      var b := bs[|bs| - 1];
      var batch := Batch(stored, bs[..|bs| - 1]);
      if b.key in stored then batch else batch[b.key := b.data]
  }

  lemma OneMore(stored: set<Cid>, bs: seq<Block>, b: Block)
    ensures Keys(bs + [b]) == Keys(bs) + {b.key}
    ensures Batch(stored, bs + [b]) == if b.key in stored then Batch(stored, bs) else Batch(stored, bs)[b.key := b.data]
  {
    assert (bs + [b])[..|bs|] == bs;
  }

  lemma {:induction false} KeyOf(bs: seq<Block>, i: nat)
    requires i < |bs|
    ensures bs[i].key in Keys(bs)
  {
    if i < |bs| - 1 { KeyOf(bs[..|bs| - 1], i); }
  }

  /** The last block of the list with this key. */
  predicate IsLast(bs: seq<Block>, i: int, k: Cid) {
    0 <= i < |bs| && bs[i].key == k && forall j :: i < j < |bs| ==> bs[j].key != k
  }

  lemma {:induction false} BatchTakesLast(stored: set<Cid>, bs: seq<Block>, k: Cid)
    requires k in Batch(stored, bs)
    ensures k !in stored && exists i :: IsLast(bs, i, k) && Batch(stored, bs)[k] == bs[i].data
  {
    var n := |bs| - 1;
    if bs[n].key == k && k !in stored {
      assert IsLast(bs, n, k);
    } else {
      BatchTakesLast(stored, bs[..n], k);
      var i :| IsLast(bs[..n], i, k) && Batch(stored, bs[..n])[k] == bs[..n][i].data;
      assert bs[i] == bs[..n][i] && forall j :: 0 <= j < n ==> bs[j] == bs[..n][j];
      assert IsLast(bs, i, k);
    }
  }

  class BlockStore {
    var blocks: map<Cid, Data>

    constructor ()
      ensures blocks == map[]
    {
      blocks := map[];
    }

    predicate Has(k: Cid)
      reads this
    {
      k in blocks
    }

    function Get(k: Cid): Option<Data>
      reads this
    {
      if k in blocks then Some(blocks[k]) else None
    }

    /** Overwrites. */
    method Put(b: Block)
      modifies this
      ensures blocks == old(blocks)[b.key := b.data]
    {
      blocks := blocks[b.key := b.data];
    }

    /** Leaves stored blocks alone. */
    method PutMany(bs: seq<Block>)
      modifies this
      ensures blocks == old(blocks) + Batch(old(blocks).Keys, bs)
      ensures forall k :: k in old(blocks) ==> k in blocks && blocks[k] == old(blocks)[k]
      ensures forall k :: k in blocks && k !in old(blocks) ==> exists i :: IsLast(bs, i, k) && blocks[k] == bs[i].data
      ensures forall i :: 0 <= i < |bs| ==> bs[i].key in blocks
    {
      var batch: map<Cid, Data> := map[];
      for i := 0 to |bs|
        invariant batch == Batch(blocks.Keys, bs[..i]) && blocks == old(blocks)
      {
        assert bs[..i + 1][..i] == bs[..i];
        if bs[i].key in blocks {
          continue;
        }
        batch := batch[bs[i].key := bs[i].data];
      }
      assert bs[..|bs|] == bs;
      BatchOf(blocks.Keys, bs);
      forall i | 0 <= i < |bs| ensures bs[i].key in Keys(bs) { KeyOf(bs, i); }
      forall k | k in batch ensures exists i :: IsLast(bs, i, k) && batch[k] == bs[i].data { BatchTakesLast(blocks.Keys, bs, k); }
      blocks := blocks + batch;
    }

    method DeleteBlock(k: Cid, fault: Fault) returns (r: Deletion)
      modifies this
      ensures fault == NoFault ==> blocks == old(blocks) - {k} && r == if k in old(blocks) then Deleted else WasAbsent
      ensures fault == ErrorKept ==> blocks == old(blocks) && r == Failed
      ensures fault == ErrorDropped ==> blocks == old(blocks) - {k} && r == Failed
    {
      match fault {
        case NoFault =>
          r := if k in blocks then Deleted else WasAbsent;
          blocks := blocks - {k};
        case ErrorKept => r := Failed;
        case ErrorDropped =>
          r := Failed;
          blocks := blocks - {k};
      }
    }
  }

  lemma {:induction false} BatchOf(stored: set<Cid>, bs: seq<Block>)
    ensures Batch(stored, bs).Keys == Keys(bs) - stored
  {
    if bs != [] { BatchOf(stored, bs[..|bs| - 1]); }
  }

  /** Of these blocks some are selected; the others have known keys, and these are stored. */
  ghost predicate Selected(stored: set<Cid>, bs: seq<Block>, good: seq<Block>, known: set<Cid>) {
    && Batch(stored, good) == Batch(stored, bs)
    && Keys(good) <= Keys(bs) <= Keys(good) + known
    && known <= stored
  }

  lemma TakeIt(stored: set<Cid>, bs: seq<Block>, good: seq<Block>, known: set<Cid>, b: Block)
    requires Selected(stored, bs, good, known)
    ensures Selected(stored, bs + [b], good + [b], known)
  {
    OneMore(stored, bs, b);
    OneMore(stored, good, b);
  }

  lemma SkipIt(stored: set<Cid>, bs: seq<Block>, good: seq<Block>, known: set<Cid>, b: Block)
    requires Selected(stored, bs, good, known) && b.key in stored
    ensures Selected(stored, bs + [b], good, known + {b.key})
  {
    OneMore(stored, bs, b);
  }

  /** `after` remembers what `before` did, and that these keys are present. */
  ghost predicate Noted(before: map<Cid, bool>, present: set<Cid>, after: map<Cid, bool>) {
    && after.Keys == before.Keys + present
    && forall k :: k in after ==> after[k] == (k in present || before[k])
  }

  class PresenceCache {
    /** What is remembered about the presence of keys. */
    var arc: map<Cid, bool>
    const store: BlockStore
    /** The replacement policy: which entries go at each occasion. It may be any function at all. */
    const forget: nat -> set<Cid>
    var clock: nat

    ghost predicate NeverForgets() {
      forall t :: forget(t) == {}
    }

    /** Every entry tells the truth about the store. */
    ghost predicate Coherent()
      reads this, store
    {
      forall k :: k in arc ==> arc[k] == (k in store.blocks)
    }

    constructor (store: BlockStore, forget: nat -> set<Cid>)
      ensures Coherent() && this.store == store && this.forget == forget && arc == map[]
    {
      arc, clock := map[], 0;
      this.store, this.forget := store, forget;
    }

    method Evict()
      modifies this
      ensures arc.Keys <= old(arc).Keys && forall k :: k in arc ==> arc[k] == old(arc)[k]
      ensures NeverForgets() ==> arc == old(arc)
    {
      arc := arc - forget(clock);
      clock := clock + 1;
    }

    method AddCache(k: Cid, has: bool)
      modifies this
      ensures arc.Keys <= old(arc).Keys + {k}
      ensures forall c :: c in arc ==> arc[c] == if c == k then has else old(arc)[c]
      ensures NeverForgets() ==> arc == old(arc)[k := has]
    {
      arc := arc[k := has];
      Evict();
    }

    method HasCached(k: Cid) returns (has: bool, ok: bool)
      modifies this
      ensures arc.Keys <= old(arc).Keys && forall c :: c in arc ==> arc[c] == old(arc)[c]
      ensures ok ==> k in old(arc) && has == old(arc)[k]
      ensures k in arc ==> ok
      ensures NeverForgets() ==> arc == old(arc) && ok == (k in old(arc))
    {
      Evict();
      ok := k in arc;
      has := ok && arc[k];
    }

    method Has(k: Cid) returns (has: bool)
      requires Coherent()
      modifies this
      ensures Coherent() && has == (k in store.blocks)
      ensures NeverForgets() ==> arc == old(arc)[k := has]
    {
      var cached, ok := HasCached(k);
      if ok {
        return cached;
      }
      has := store.Has(k);
      AddCache(k, has);
    }

    method Get(k: Cid) returns (data: Option<Data>)
      requires Coherent()
      modifies this
      ensures Coherent() && data == store.Get(k)
      ensures NeverForgets() ==> arc == old(arc)[k := data.Some?]
    {
      var cached, ok := HasCached(k);
      if ok && !cached {
        return None;
      }
      data := store.Get(k);
      AddCache(k, data.Some?);
    }

    /** Skips a block known to be present, whatever its data. */
    method Put(b: Block)
      requires Coherent()
      modifies this, store
      ensures Coherent()
      ensures store.blocks == old(store.blocks)[b.key := b.data] || (b.key in old(store.blocks) && store.blocks == old(store.blocks))
      ensures NeverForgets() ==> arc == old(arc)[b.key := true]
      ensures NeverForgets() && b.key in old(arc) && old(arc)[b.key] ==> store.blocks == old(store.blocks)
    {
      var cached, ok := HasCached(b.key);
      if ok && cached {
        return;
      }
      store.Put(b);
      AddCache(b.key, true);
    }

    /** The blocks of a PutMany whose presence is unknown or denied. */
    method SelectMissing(bs: seq<Block>) returns (good: seq<Block>)
      requires Coherent()
      modifies this
      ensures Coherent()
      ensures Batch(store.blocks.Keys, good) == Batch(store.blocks.Keys, bs)
      ensures arc.Keys <= old(arc).Keys
      ensures Keys(good) <= Keys(bs)
      ensures NeverForgets() ==> arc == old(arc) && forall k :: k in Keys(bs) - Keys(good) ==> k in arc && arc[k]
    {
      good := [];
      ghost var known: set<Cid> := {};
      for i := 0 to |bs|
        invariant Coherent() && arc.Keys <= old(arc).Keys && (NeverForgets() ==> arc == old(arc))
        invariant Selected(store.blocks.Keys, bs[..i], good, known)
        invariant NeverForgets() ==> forall k :: k in known ==> k in arc && arc[k]
      {
        var cached, ok := HasCached(bs[i].key);
        assert bs[..i] + [bs[i]] == bs[..i + 1];
        if !ok || !cached {
          TakeIt(store.blocks.Keys, bs[..i], good, known, bs[i]);
          good := good + [bs[i]];
        } else {
          SkipIt(store.blocks.Keys, bs[..i], good, known, bs[i]);
          known := known + {bs[i].key};
        }
      }
      assert bs[..|bs|] == bs;
    }

    method RecordPresent(good: seq<Block>)
      requires forall k :: k in arc && k !in Keys(good) ==> arc[k] == (k in store.blocks)
      requires Keys(good) <= store.blocks.Keys
      modifies this
      ensures Coherent()
      ensures NeverForgets() ==> Noted(old(arc), Keys(good), arc)
    {
      for i := 0 to |good|
        invariant forall k :: k in arc && k !in Keys(good) ==> arc[k] == (k in store.blocks)
        invariant forall k :: k in arc && k in Keys(good[..i]) ==> arc[k]
        invariant NeverForgets() ==> Noted(old(arc), Keys(good[..i]), arc)
      {
        OneMore({}, good[..i], good[i]);
        assert good[..i] + [good[i]] == good[..i + 1];
        KeyOf(good, i);
        AddCache(good[i].key, true);
      }
      assert good[..|good|] == good;
    }

    method PutMany(bs: seq<Block>)
      requires Coherent()
      modifies this, store
      ensures Coherent()
      ensures store.blocks == old(store.blocks) + Batch(old(store.blocks).Keys, bs)
      ensures NeverForgets() ==> Noted(old(arc), Keys(bs), arc)
    {
      var good := SelectMissing(bs);
      BatchOf(store.blocks.Keys, good);
      store.PutMany(good);
      RecordPresent(good);
    }

    /** Deleting. The call that should drop the entry beforehand passes the CID where entries are stored under its
        key string, so it drops nothing. The cache no longer tells the truth exactly if the deletion took effect but
        reported an error, the key was remembered as present, and the entry has not been forgotten by chance. */
    method DeleteBlock(k: Cid, fault: Fault) returns (r: Deletion)
      requires Coherent()
      modifies this, store
      ensures fault == NoFault ==> Coherent()
      ensures NeverForgets() ==> arc == if fault == NoFault then old(arc)[k := false] else old(arc)
      ensures fault == NoFault ==> store.blocks == old(store.blocks) - {k} && r == if k in old(store.blocks) then Deleted else WasAbsent
      ensures Coherent() <==> !(fault == ErrorDropped && k in old(arc) && old(arc)[k] && k in arc)
      ensures NeverForgets() ==> (Coherent() <==> !(fault == ErrorDropped && k in old(arc) && old(arc)[k]))
      ensures fault == ErrorDropped ==> store.blocks == old(store.blocks) - {k}
      ensures store.blocks == old(store.blocks) || store.blocks == old(store.blocks) - {k}
    {
      var cached, ok := HasCached(k);
      if ok && !cached {
        return WasAbsent;
      }
      r := store.DeleteBlock(k, fault);
      if r != Failed {
        AddCache(k, false);
      }
    }
  }

  /** A block is put and deleted; the deletion takes effect and reports an error. The cache still says it is there. */
  method DeletedButRemembered(b: Block) returns (cache: PresenceCache, has: bool)
    ensures fresh(cache) && !cache.Coherent() && cache.store.blocks == map[] && has
  {
    var store := new BlockStore();
    cache := new PresenceCache(store, _ => {});
    cache.Put(b);
    var _ := cache.DeleteBlock(b.key, ErrorDropped);
    assert cache.store.blocks == map[];
    var ok;
    has, ok := cache.HasCached(b.key);
  }

  // ---- sequential runs against the bare store

  datatype Op = OpHas(k: Cid) | OpGet(k: Cid) | OpPut(b: Block) | OpPutMany(bs: seq<Block>) | OpDelete(k: Cid)

  datatype Answer = Present(has: bool) | Fetched(data: Option<Data>) | Stored | Removed(r: Deletion)

  /** Two answers that agree on whether the block is there. */
  predicate SamePresence(a: Answer, b: Answer) {
    match (a, b)
    case (Fetched(x), Fetched(y)) => x.Some? == y.Some?
    case _ => a == b
  }

  method PerformCached(cache: PresenceCache, op: Op) returns (a: Answer)
    requires cache.Coherent()
    modifies cache, cache.store
    ensures cache.Coherent()
    ensures match op
      case OpHas(k) => a == Present(k in old(cache.store.blocks)) && cache.store.blocks == old(cache.store.blocks)
      case OpGet(k) => a == Fetched(old(cache.store.Get(k))) && cache.store.blocks == old(cache.store.blocks)
      case OpPut(b) => a == Stored && (cache.store.blocks == old(cache.store.blocks)[b.key := b.data]
                                       || (b.key in old(cache.store.blocks) && cache.store.blocks == old(cache.store.blocks)))
      case OpPutMany(bs) => a == Stored && cache.store.blocks == old(cache.store.blocks) + Batch(old(cache.store.blocks).Keys, bs)
      case OpDelete(k) => cache.store.blocks == old(cache.store.blocks) - {k}
                          && a == Removed(if k in old(cache.store.blocks) then Deleted else WasAbsent)
  {
    match op {
      case OpHas(k) => var has := cache.Has(k); a := Present(has);
      case OpGet(k) => var data := cache.Get(k); a := Fetched(data);
      case OpPut(b) => cache.Put(b); a := Stored;
      case OpPutMany(bs) => cache.PutMany(bs); a := Stored;
      case OpDelete(k) => var r := cache.DeleteBlock(k, NoFault); a := Removed(r);
    }
  }

  method PerformBare(store: BlockStore, op: Op) returns (a: Answer)
    modifies store
    ensures match op
      case OpHas(k) => a == Present(k in old(store.blocks)) && store.blocks == old(store.blocks)
      case OpGet(k) => a == Fetched(old(store.Get(k))) && store.blocks == old(store.blocks)
      case OpPut(b) => a == Stored && store.blocks == old(store.blocks)[b.key := b.data]
      case OpPutMany(bs) => a == Stored && store.blocks == old(store.blocks) + Batch(old(store.blocks).Keys, bs)
      case OpDelete(k) => store.blocks == old(store.blocks) - {k} && a == Removed(if k in old(store.blocks) then Deleted else WasAbsent)
  {
    match op {
      case OpHas(k) => a := Present(store.Has(k));
      case OpGet(k) => a := Fetched(store.Get(k));
      case OpPut(b) => store.Put(b); a := Stored;
      case OpPutMany(bs) => store.PutMany(bs); a := Stored;
      case OpDelete(k) => var r := store.DeleteBlock(k, NoFault); a := Removed(r);
    }
  }

  /** Blocks with this key always carry these data, as if the key were computed from them. */
  ghost predicate Faithful(op: Op, dataOf: Cid -> Data) {
    match op
    case OpPut(b) => b.data == dataOf(b.key)
    case OpPutMany(bs) => forall i :: 0 <= i < |bs| ==> bs[i].data == dataOf(bs[i].key)
    case _ => true
  }

  ghost predicate FaithfulStore(blocks: map<Cid, Data>, dataOf: Cid -> Data) {
    forall k :: k in blocks ==> blocks[k] == dataOf(k)
  }

  lemma {:induction false} FaithfulBatch(stored: set<Cid>, bs: seq<Block>, dataOf: Cid -> Data)
    requires Faithful(OpPutMany(bs), dataOf)
    ensures FaithfulStore(Batch(stored, bs), dataOf)
  {
    if bs != [] { FaithfulBatch(stored, bs[..|bs| - 1], dataOf); }
  }

  /** Any sequence of operations, with whatever entries the cache forgets on the way: the cached store and the bare
      store hold the same keys throughout and give the same answers about presence. If equal keys always come
      with equal data, contents and answers are the same altogether. */
  method RunBoth(cache: PresenceCache, bare: BlockStore, ops: seq<Op>, ghost dataOf: Cid -> Data)
    returns (cached: seq<Answer>, plain: seq<Answer>)
    requires cache.Coherent() && cache.store != bare && cache.store.blocks == bare.blocks
    modifies cache, cache.store, bare
    ensures cache.Coherent() && cache.store.blocks.Keys == bare.blocks.Keys
    ensures |cached| == |plain| == |ops| && forall i :: 0 <= i < |ops| ==> SamePresence(cached[i], plain[i])
    ensures old(FaithfulStore(bare.blocks, dataOf)) && (forall op :: op in ops ==> Faithful(op, dataOf)) ==>
      cache.store.blocks == bare.blocks && cached == plain
  {
    cached, plain := [], [];
    ghost var faithful := FaithfulStore(bare.blocks, dataOf) && forall op :: op in ops ==> Faithful(op, dataOf);
    for i := 0 to |ops|
      invariant cache.Coherent() && cache.store.blocks.Keys == bare.blocks.Keys
      invariant |cached| == |plain| == i && forall j :: 0 <= j < i ==> SamePresence(cached[j], plain[j])
      invariant faithful ==> FaithfulStore(bare.blocks, dataOf) && cache.store.blocks == bare.blocks && cached == plain
    {
      assert faithful ==> Faithful(ops[i], dataOf);
      if ops[i].OpPutMany? {
        BatchOf(bare.blocks.Keys, ops[i].bs);
        if faithful { FaithfulBatch(bare.blocks.Keys, ops[i].bs, dataOf); }
      }
      var a := PerformCached(cache, ops[i]);
      var b := PerformBare(bare, ops[i]);
      cached, plain := cached + [a], plain + [b];
    }
  }

  /** Without that condition contents may differ: of two blocks put under one key, a cache that forgets nothing
      keeps the first, the bare store the second. */
  method ContentsMayDiffer(k: Cid, d1: Data, d2: Data) returns (cache: PresenceCache, bare: BlockStore)
    ensures fresh(cache) && fresh(bare) && cache.Coherent()
    ensures cache.store.blocks == map[k := d1] && bare.blocks == map[k := d2]
  {
    bare := new BlockStore();
    bare.Put(Block(k, d1));
    bare.Put(Block(k, d2));
    var store := new BlockStore();
    cache := new PresenceCache(store, _ => {});
    cache.Put(Block(k, d1));
    cache.Put(Block(k, d2));
  }
}
