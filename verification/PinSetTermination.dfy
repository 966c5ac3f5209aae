/** When storing a pin set ends: exactly when some depth separates the keys well enough. */
module PinSetTermination {
  import opened Cids
  import opened Sorting
  import opened PinSets

  /** The two keys choose the same bucket on each of these levels. */
  ghost predicate SamePath(cfg: Config, depth: nat, levels: nat, j: Cid, k: Cid) {
    forall e :: depth <= e < depth + levels ==> cfg.hash(e, j) % cfg.fanout == cfg.hash(e, k) % cfg.fanout
  }

  /** The items that are still together with `k` after these levels. */
  ghost function Group(cfg: Config, depth: nat, levels: nat, items: seq<Cid>, k: Cid): seq<Cid> {
    Filter((j: Cid) => SamePath(cfg, depth, levels, j, k), items)
  }

  /** After `levels` levels no item shares its path with `maxItems` or more. */
  ghost predicate SmallGroups(cfg: Config, depth: nat, levels: nat, items: seq<Cid>) {
    forall k :: k in items ==> |Group(cfg, depth, levels, items, k)| < cfg.maxItems
  }

  lemma {:induction false} GroupAppend(cfg: Config, depth: nat, levels: nat, items: seq<Cid>, x: Cid, k: Cid)
    ensures Group(cfg, depth, levels, items + [x], k)
         == Group(cfg, depth, levels, items, k) + if SamePath(cfg, depth, levels, x, k) then [x] else []
  {
    FilterAppend((j: Cid) => SamePath(cfg, depth, levels, j, k), items, x);
  }

  lemma {:induction false} GroupIsPart(cfg: Config, depth: nat, levels: nat, items: seq<Cid>, k: Cid)
    ensures |Group(cfg, depth, levels, items, k)| <= |items|
    ensures levels == 0 ==> Group(cfg, depth, levels, items, k) == items
  {
    if items != [] {
      var front, last := items[..|items| - 1], items[|items| - 1];
      assert items == front + [last];
      GroupIsPart(cfg, depth, levels, front, k);
      GroupAppend(cfg, depth, levels, front, last, k);
    }
  }

  /** The group of `k` lies within the bucket of `k`. */
  lemma {:induction false} GroupInBucket(cfg: Config, depth: nat, levels: nat, items: seq<Cid>, k: Cid)
    requires levels > 0
    ensures Group(cfg, depth, levels, items, k)
         == Group(cfg, depth + 1, levels - 1, Bucket(cfg, depth, items, cfg.hash(depth, k) % cfg.fanout), k)
  {
    if items != [] {
      var h := cfg.hash(depth, k) % cfg.fanout;
      var front, last := items[..|items| - 1], items[|items| - 1];
      assert items == front + [last];
      GroupInBucket(cfg, depth, levels, front, k);
      GroupAppend(cfg, depth, levels, front, last, k);
      FilterAppend((j: Cid) => cfg.hash(depth, j) % cfg.fanout == h, front, last);
      var bucket := Bucket(cfg, depth, front, h);
      if cfg.hash(depth, last) % cfg.fanout == h {
        GroupAppend(cfg, depth + 1, levels - 1, bucket, last, k);
        assert SamePath(cfg, depth, levels, last, k) <==> SamePath(cfg, depth + 1, levels - 1, last, k);
      } else {
        assert !SamePath(cfg, depth, levels, last, k);
        assert Bucket(cfg, depth, items, h) == bucket;
      }
    }
  }

  lemma InBucket(cfg: Config, depth: nat, items: seq<Cid>, h: nat, k: Cid)
    ensures k in Bucket(cfg, depth, items, h) <==> k in items && cfg.hash(depth, k) % cfg.fanout == h
  {
    FilterMembers((j: Cid) => cfg.hash(depth, j) % cfg.fanout == h, items, k);
  }

  lemma SmallInBuckets(cfg: Config, depth: nat, levels: nat, items: seq<Cid>, h: nat)
    requires levels > 0 && h < cfg.fanout && SmallGroups(cfg, depth, levels, items)
    ensures SmallGroups(cfg, depth + 1, levels - 1, Bucket(cfg, depth, items, h))
  {
    forall k | k in Bucket(cfg, depth, items, h)
      ensures |Group(cfg, depth + 1, levels - 1, Bucket(cfg, depth, items, h), k)| < cfg.maxItems
    {
      InBucket(cfg, depth, items, h, k);
      GroupInBucket(cfg, depth, levels, items, k);
    }
  }

  lemma SmallFromBuckets(cfg: Config, depth: nat, levels: nat, items: seq<Cid>)
    requires levels > 0
    requires forall h :: 0 <= h < cfg.fanout ==> SmallGroups(cfg, depth + 1, levels - 1, Bucket(cfg, depth, items, h))
    ensures SmallGroups(cfg, depth, levels, items)
  {
    forall k | k in items ensures |Group(cfg, depth, levels, items, k)| < cfg.maxItems {
      var h := cfg.hash(depth, k) % cfg.fanout;
      InBucket(cfg, depth, items, h, k);
      GroupInBucket(cfg, depth, levels, items, k);
      assert SmallGroups(cfg, depth + 1, levels - 1, Bucket(cfg, depth, items, h));
    }
  }

  /** With the right length as the estimate, as in every recursive call, storing ends within `fuel` levels
      exactly if after that many levels no `maxItems` items share every bucket choice. */
  lemma {:induction false} EndsExactly(cfg: Config, depth: nat, items: seq<Cid>, fuel: nat)
    ensures Ends(cfg, |items|, depth, items, fuel) <==> SmallGroups(cfg, depth, fuel, items)
    decreases fuel
  {
    var rest := Rest(cfg, |items|, items);
    if |items| < cfg.maxItems {
      forall k | k in items { GroupIsPart(cfg, depth, fuel, items, k); }
      assert rest == [];
    } else {
      assert rest == items;
      HashedEndsExactly(cfg, |items|, depth, items, fuel);
    }
  }

  /** The same for any estimate: what matters are the items left over for the buckets. */
  lemma {:induction false} HashedEndsExactly(cfg: Config, estimate: nat, depth: nat, items: seq<Cid>, fuel: nat)
    ensures var rest := Rest(cfg, estimate, items);
      Ends(cfg, estimate, depth, items, fuel) <==> rest == [] || (fuel > 0 && SmallGroups(cfg, depth, fuel, rest))
    ensures var rest := Rest(cfg, estimate, items);
      |rest| >= cfg.maxItems ==> (Ends(cfg, estimate, depth, items, fuel) <==> SmallGroups(cfg, depth, fuel, rest))
    decreases fuel, 1
  {
    var rest := Rest(cfg, estimate, items);
    if rest != [] {
      var h := cfg.hash(depth, rest[0]) % cfg.fanout;
      InBucket(cfg, depth, rest, h, rest[0]);
      assert Bucket(cfg, depth, rest, h) != [];
      GroupIsPart(cfg, depth, fuel, rest, rest[0]);
      if fuel > 0 {
        forall h | 0 <= h < cfg.fanout
          ensures var bucket := Bucket(cfg, depth, rest, h);
            Ends(cfg, |bucket|, depth + 1, bucket, fuel - 1) <==> SmallGroups(cfg, depth + 1, fuel - 1, bucket)
        {
          EndsExactly(cfg, depth + 1, Bucket(cfg, depth, rest, h), fuel - 1);
        }
        if SmallGroups(cfg, depth, fuel, rest) {
          forall h | 0 <= h < cfg.fanout { SmallInBuckets(cfg, depth, fuel, rest, h); }
        } else if Ends(cfg, estimate, depth, items, fuel) {
          SmallFromBuckets(cfg, depth, fuel, rest);
        }
      }
    }
  }

  /** A key listed `maxItems` times or more can never be stored: the recursion does not end. */
  lemma RepeatedKeyNeverEnds(cfg: Config, depth: nat, items: seq<Cid>, k: Cid, fuel: nat)
    requires multiset(items)[k] >= cfg.maxItems
    ensures !Ends(cfg, |items|, depth, items, fuel)
  {
    EndsExactly(cfg, depth, items, fuel);
    CopiesStayTogether(cfg, depth, fuel, items, k);
    assert k in items;
  }

  lemma {:induction false} CopiesStayTogether(cfg: Config, depth: nat, levels: nat, items: seq<Cid>, k: Cid)
    ensures |Group(cfg, depth, levels, items, k)| >= multiset(items)[k]
  {
    if items != [] {
      var front, last := items[..|items| - 1], items[|items| - 1];
      assert items == front + [last];
      CopiesStayTogether(cfg, depth, levels, front, k);
      GroupAppend(cfg, depth, levels, front, last, k);
    }
  }

  // ---- sets of keys, as the pinner stores them

  /** No `maxItems` of these keys share the first `levels` bucket choices. */
  ghost predicate Spread(cfg: Config, keys: set<Cid>, levels: nat) {
    forall k :: k in keys ==> |Companions(cfg, keys, levels, k)| < cfg.maxItems
  }

  ghost function Companions(cfg: Config, keys: set<Cid>, levels: nat, k: Cid): set<Cid> {
    set j | j in keys && SamePath(cfg, 0, levels, j, k)
  }

  lemma CompanionsAppend(cfg: Config, levels: nat, front: seq<Cid>, last: Cid, k: Cid)
    requires last !in front
    ensures |Companions(cfg, Elems(front + [last]), levels, k)|
         == |Companions(cfg, Elems(front), levels, k)| + if SamePath(cfg, 0, levels, last, k) then 1 else 0
  {
    var rest := Companions(cfg, Elems(front), levels, k);
    assert last !in rest;
    assert Companions(cfg, Elems(front + [last]), levels, k) == rest + if SamePath(cfg, 0, levels, last, k) then {last} else {};
  }

  lemma {:induction false} GroupOfDistinct(cfg: Config, levels: nat, items: seq<Cid>, k: Cid)
    requires NoDuplicates(items)
    ensures |Group(cfg, 0, levels, items, k)| == |Companions(cfg, Elems(items), levels, k)|
  {
    if items == [] {
      assert Companions(cfg, Elems(items), levels, k) == {};
    } else {
      var front, last := items[..|items| - 1], items[|items| - 1];
      assert items == front + [last];
      GroupOfDistinct(cfg, levels, front, k);
      GroupAppend(cfg, 0, levels, front, last, k);
      CompanionsAppend(cfg, levels, front, last, k);
    }
  }

  /** For a set, whatever order its keys come in, storing ends exactly if the set is spread. */
  lemma SpreadSetEnds(cfg: Config, items: seq<Cid>, fuel: nat)
    requires NoDuplicates(items)
    ensures Ends(cfg, |items|, 0, items, fuel) <==> Spread(cfg, Elems(items), fuel)
  {
    EndsExactly(cfg, 0, items, fuel);
    forall k | k in items ensures |Group(cfg, 0, fuel, items, k)| == |Companions(cfg, Elems(items), fuel, k)| {
      GroupOfDistinct(cfg, fuel, items, k);
    }
  }

  /** A set of `maxItems` keys or more that the hash never separates is spread at no depth. */
  lemma InseparableNeverSpread(cfg: Config, keys: set<Cid>, levels: nat)
    requires |keys| >= cfg.maxItems
    requires forall e, j, k :: j in keys && k in keys ==> cfg.hash(e, j) % cfg.fanout == cfg.hash(e, k) % cfg.fanout
    ensures !Spread(cfg, keys, levels)
  {
    var k :| k in keys;
    assert Companions(cfg, keys, levels, k) == keys;
  }

  function FirstKeys(n: nat): seq<Cid> {
    seq(n, i requires 0 <= i < n => Opaque(i))
  }

  /** The failing input: with a hash that tells no keys apart, Flush of `maxItems` distinct keys never ends. */
  lemma DistinctKeysMayNeverEnd(cfg: Config, fuel: nat)
    requires forall e, k :: cfg.hash(e, k) == 0
    ensures NoDuplicates(FirstKeys(cfg.maxItems)) && !Ends(cfg, cfg.maxItems, 0, FirstKeys(cfg.maxItems), fuel)
  {
    var items := FirstKeys(cfg.maxItems);
    forall i, j | 0 <= i < j < |items| ensures items[i] != items[j] {
      assert items[i] == Opaque(i) && items[j] == Opaque(j);
    }
    CountElems(items);
    InseparableNeverSpread(cfg, Elems(items), fuel);
    SpreadSetEnds(cfg, items, fuel);
  }

  lemma {:induction false} CountElems(items: seq<Cid>)
    requires NoDuplicates(items)
    ensures |Elems(items)| == |items|
  {
    if items == [] {
      assert Elems(items) == {};
    } else {
      var front, last := items[..|items| - 1], items[|items| - 1];
      assert items == front + [last];
      CountElems(front);
      assert Elems(items) == Elems(front) + {last};
      assert last !in front;
    }
  }
}
