/** Batched node fetching of merkledag: `GetNodes`, its promises, `dedupeKeys` and `FindLinks`. */
module Promises {
  import opened Basics
  import opened Cids

  datatype Node = Node(cid: Cid, body: nat)

  /** What `GetMany` sends: a node or an error. */
  datatype NodeOption = Got(node: Node) | Failed(error: nat)

  class NodePromise {
    /** `cache` is the value sent, `failed` whether the error channel was filled, `sends` counts calls of Send. */
    var cache: Option<Node>
    var failed: bool
    var sends: nat

    constructor ()
      ensures cache == None && !failed && sends == 0
    {
      cache, failed, sends := None, false, 0;
    }

    method Fail()
      modifies this
      ensures cache == old(cache) && sends == old(sends)
      ensures failed == (old(failed) || old(cache).None?)
    {
      if cache.None? {
        failed := true;
      }
    }

    method Send(nd: Node) returns (panicked: bool)
      modifies this
      ensures cache == Some(nd) && failed == old(failed) && sends == old(sends) + 1
      ensures panicked == old(cache).Some?
    {
      panicked := cache.Some?;
      cache := Some(nd);
      sends := sends + 1;
    }
  }

  /** The indexes of all links that point to `c`, in order. */
  method FindLinks(links: seq<Cid>, c: Cid, start: nat) returns (out: seq<nat>)
    requires start <= |links|
    ensures forall i, j :: 0 <= i < j < |out| ==> out[i] < out[j]
    ensures forall i :: i in out <==> start <= i < |links| && links[i] == c
    ensures |out| == multiset(links[start..])[c]
  {
    assert links[start..] == links[start..|links|];
    out := [];
    for k := start to |links|
      invariant forall i, j :: 0 <= i < j < |out| ==> out[i] < out[j]
      invariant forall i :: 0 <= i < |out| ==> out[i] < k
      invariant forall i :: i in out <==> start <= i < k && links[i] == c
      invariant |out| == multiset(links[start..k])[c]
    {
      assert links[start..k + 1] == links[start..k] + [links[k]];
      if links[k] == c {
        out := out + [k];
      }
    }
  }

  /** The keys without those that occurred before. */
  function Deduped(cids: seq<Cid>): seq<Cid> {
    if cids == [] then []
    else
      var front, last := cids[..|cids| - 1], cids[|cids| - 1];
      if last in front then Deduped(front) else Deduped(front) + [last]
  }

  lemma DedupedNext(front: seq<Cid>, last: Cid)
    ensures Deduped(front + [last]) == if last in front then Deduped(front) else Deduped(front) + [last]
    ensures Elems(front + [last]) == Elems(front) + {last}
  {
    assert (front + [last])[..|front|] == front;
  }

  lemma {:induction false} DedupedKeepsKeys(cids: seq<Cid>)
    ensures NoDuplicates(Deduped(cids)) && Elems(Deduped(cids)) == Elems(cids)
    ensures |Deduped(cids)| <= |cids| && (|Deduped(cids)| == |cids| <==> NoDuplicates(cids))
  {
    if cids != [] {
      var front, last := cids[..|cids| - 1], cids[|cids| - 1];
      assert cids == front + [last];
      DedupedKeepsKeys(front);
      DedupedNext(front, last);
      assert last in front <==> last in Elems(Deduped(front));
      assert Elems(Deduped(front) + [last]) == Elems(Deduped(front)) + {last};
    }
  }

  /** In the list the first occurrence of `c` comes before that of `d`. */
  ghost predicate FirstBefore(cids: seq<Cid>, c: Cid, d: Cid) {
    exists p :: 0 <= p < |cids| && cids[p] == c && d !in cids[..p + 1]
  }

  lemma FirstBeforeKept(front: seq<Cid>, last: Cid, c: Cid, d: Cid)
    requires FirstBefore(front, c, d)
    ensures FirstBefore(front + [last], c, d)
  {
    var p :| 0 <= p < |front| && front[p] == c && d !in front[..p + 1];
    assert (front + [last])[p] == c && (front + [last])[..p + 1] == front[..p + 1];
  }

  lemma {:induction false} DedupedKeepsOrder(cids: seq<Cid>, i: nat, j: nat)
    requires i < j < |Deduped(cids)|
    ensures FirstBefore(cids, Deduped(cids)[i], Deduped(cids)[j])
  {
    var front, last := cids[..|cids| - 1], cids[|cids| - 1];
    assert cids == front + [last];
    if j < |Deduped(front)| {
      DedupedKeepsOrder(front, i, j);
      FirstBeforeKept(front, last, Deduped(cids)[i], Deduped(cids)[j]);
    } else {
      DedupedKeepsKeys(front);
      var c := Deduped(front)[i];
      assert c in Elems(Deduped(front)) && c in front;
      var p :| 0 <= p < |front| && front[p] == c;
      assert cids[p] == c && cids[..p + 1] == front[..p + 1];
    }
  }

  /** Each key once, in the order of first occurrence. */
  method DedupeKeys(cids: seq<Cid>) returns (out: seq<Cid>)
    ensures out == Deduped(cids)
    ensures NoDuplicates(out) && Elems(out) == Elems(cids)
    ensures |out| == |cids| <==> NoDuplicates(cids)
    ensures forall i, j :: 0 <= i < j < |out| ==> FirstBefore(cids, out[i], out[j])
  {
    out := [];
    var seen := new CidSet();
    for k := 0 to |cids|
      invariant out == Deduped(cids[..k]) && seen.elems == Elems(cids[..k]) && fresh(seen)
    {
      var unseen := seen.Visit(cids[k]);
      DedupedNext(cids[..k], cids[k]);
      assert cids[..k + 1] == cids[..k] + [cids[k]];
      if unseen {
        out := out + [cids[k]];
      }
    }
    assert cids[..|cids|] == cids;
    DedupedKeepsKeys(cids);
    forall i, j | 0 <= i < j < |out|
      ensures FirstBefore(cids, out[i], out[j])
    {
      DedupedKeepsOrder(cids, i, j);
    }
  }

  /** The nodes delivered before the first error or the closing of the channel. */
  function OkPrefix(stream: seq<NodeOption>): (p: seq<Node>)
    ensures |p| <= |stream| && forall i :: 0 <= i < |p| ==> stream[i] == Got(p[i])
    ensures |p| < |stream| ==> stream[|p|].Failed?
  {
    if stream == [] || stream[0].Failed? then [] else [stream[0].node] + OkPrefix(stream[1..])
  }

  ghost function CidsOf(p: seq<Node>): set<Cid> {
    set i | 0 <= i < |p| :: p[i].cid
  }

  /** A node arrives a second time while some key is still waited for. */
  ghost predicate DeliversTwice(keys: seq<Cid>, p: seq<Node>) {
    exists j :: 0 <= j < |p| && RepeatsAt(keys, p, j)
  }

  ghost predicate RepeatsAt(keys: seq<Cid>, p: seq<Node>, j: nat)
    requires j < |p|
  {
    p[j].cid in keys && p[j].cid in CidsOf(p[..j]) && !(Elems(keys) <= CidsOf(p[..j]))
  }

  /** How many of the keys are among `cids`, repeated keys counted every time. */
  ghost function Answered(keys: seq<Cid>, cids: set<Cid>): nat {
    if keys == [] then 0 else Answered(keys[1..], cids) + if keys[0] in cids then 1 else 0
  }

  lemma {:induction false} AllAnswered(keys: seq<Cid>, cids: set<Cid>)
    ensures Answered(keys, cids) <= |keys|
    ensures Answered(keys, cids) == |keys| <==> Elems(keys) <= cids
  {
    if keys != [] {
      AllAnswered(keys[1..], cids);
      assert keys == [keys[0]] + keys[1..];
      assert Elems(keys) == {keys[0]} + Elems(keys[1..]);
    }
  }

  lemma {:induction false} MoreAnswered(keys: seq<Cid>, cids: set<Cid>, c: Cid)
    requires c !in cids || c !in keys
    ensures Answered(keys, cids + {c}) == Answered(keys, cids) + multiset(keys)[c]
  {
    if keys != [] {
      assert keys == [keys[0]] + keys[1..];
      MoreAnswered(keys[1..], cids, c);
    }
  }

  lemma {:induction false} NoneAnswered(keys: seq<Cid>)
    ensures Answered(keys, {}) == 0
  {
    if keys != [] { NoneAnswered(keys[1..]); }
  }

  lemma CidsOfNext(p: seq<Node>, t: nat)
    requires t < |p|
    ensures CidsOf(p[..t + 1]) == CidsOf(p[..t]) + {p[t].cid}
  {
    assert p[..t + 1] == p[..t] + [p[t]];
    forall c | c in CidsOf(p[..t]) ensures c in CidsOf(p[..t + 1]) {
      var i :| 0 <= i < t && p[..t][i].cid == c;
      assert p[..t + 1][i].cid == c;
    }
    assert p[..t + 1][t].cid == p[t].cid;
  }

  /** Promise i got a value for its own key from `p`, sent once, if its key is among `cids`; otherwise nothing. */
  ghost predicate Served(promise: NodePromise, key: Cid, cids: set<Cid>, p: seq<Node>)
    reads promise
  {
    if key in cids then promise.sends == 1 && promise.cache.Some? && promise.cache.value.cid == key && promise.cache.value in p
    else promise.sends == 0 && promise.cache.None?
  }

  /** Every promise stands as it should once exactly the keys among `cids` were delivered. */
  ghost predicate AllServed(promises: seq<NodePromise>, keys: seq<Cid>, cids: set<Cid>, p: seq<Node>)
    reads promises
  {
    |promises| == |keys| && forall i :: 0 <= i < |keys| ==> Served(promises[i], keys[i], cids, p)
  }

  ghost predicate NoneFailed(promises: seq<NodePromise>)
    reads promises
  {
    forall i :: 0 <= i < |promises| ==> !promises[i].failed
  }

  /** One received node: sent to every promise whose key it answers, until a promise panics. */
  method SendAll(promises: seq<NodePromise>, ghost keys: seq<Cid>, found: seq<nat>, nd: Node, count0: nat,
                 ghost cids: set<Cid>, ghost p: seq<Node>) returns (count: nat, panicked: bool)
    requires NoDuplicates(promises) && AllServed(promises, keys, cids, p) && NoneFailed(promises) && nd in p
    requires forall i, j :: 0 <= i < j < |found| ==> found[i] < found[j]
    requires forall j :: 0 <= j < |found| ==> found[j] < |keys| && keys[found[j]] == nd.cid
    requires forall i :: 0 <= i < |keys| && keys[i] == nd.cid ==> i in found
    modifies promises
    ensures panicked <==> nd.cid in keys && nd.cid in cids
    ensures !panicked ==> count == count0 + |found|
    ensures NoneFailed(promises)
    ensures !panicked ==> AllServed(promises, keys, cids + {nd.cid}, p)
  {
    count, panicked := count0, false;
    for k := 0 to |found|
      invariant count == count0 + k
      invariant k > 0 ==> nd.cid !in cids
      invariant NoneFailed(promises)
      invariant forall i :: 0 <= i < |keys| && keys[i] != nd.cid ==> Served(promises[i], keys[i], cids, p)
      invariant forall j :: 0 <= j < k ==> Served(promises[found[j]], nd.cid, cids + {nd.cid}, p)
      invariant forall j :: k <= j < |found| ==> Served(promises[found[j]], nd.cid, cids, p)
    {
      assert found[k] in found;
      count := count + 1;
      panicked := promises[found[k]].Send(nd);
      if panicked {
        return;
      }
    }
    forall i | 0 <= i < |keys| ensures Served(promises[i], keys[i], cids + {nd.cid}, p) {
      if keys[i] == nd.cid {
        assert i in found;
      }
    }
    if nd.cid in keys {
      var i :| 0 <= i < |keys| && keys[i] == nd.cid;
      assert i in found;
    }
  }

  /** One node off the channel: found by its CID among the keys and handed to each of their promises. */
  method Deliver(promises: seq<NodePromise>, keys: seq<Cid>, nd: Node, count0: nat, ghost cids: set<Cid>, ghost p: seq<Node>)
    returns (count: nat, panicked: bool)
    requires NoDuplicates(promises) && AllServed(promises, keys, cids, p) && NoneFailed(promises) && nd in p
    requires count0 == Answered(keys, cids)
    modifies promises
    ensures panicked <==> nd.cid in keys && nd.cid in cids
    ensures NoneFailed(promises)
    ensures !panicked ==> AllServed(promises, keys, cids + {nd.cid}, p)
    ensures !panicked ==> count == Answered(keys, cids + {nd.cid})
  {
    var found := FindLinks(keys, nd.cid, 0);
    assert keys[0..] == keys;
    FoundIndexes(keys, nd.cid, found);
    count, panicked := SendAll(promises, keys, found, nd, count0, cids, p);
    if !panicked {
      MoreAnswered(keys, cids, nd.cid);
    }
  }

  /** No more nodes will come: every promise without a value fails. */
  method FailAll(promises: seq<NodePromise>, ghost keys: seq<Cid>, ghost cids: set<Cid>, ghost p: seq<Node>)
    requires NoDuplicates(promises) && AllServed(promises, keys, cids, p) && NoneFailed(promises)
    modifies promises
    ensures AllServed(promises, keys, cids, p)
    ensures forall i :: 0 <= i < |keys| ==> (promises[i].failed <==> keys[i] !in cids)
  {
    for k := 0 to |promises|
      invariant AllServed(promises, keys, cids, p)
      invariant forall i :: 0 <= i < |keys| ==> (promises[i].failed <==> i < k && keys[i] !in cids)
    {
      promises[k].Fail();
    }
  }

  method NewPromises(n: nat) returns (promises: seq<NodePromise>)
    ensures |promises| == n && NoDuplicates(promises)
    ensures forall i :: 0 <= i < n ==> fresh(promises[i])
    ensures forall i :: 0 <= i < n ==> promises[i].cache.None? && !promises[i].failed && promises[i].sends == 0
  {
    promises := [];
    while |promises| < n
      invariant |promises| <= n && NoDuplicates(promises)
      invariant forall i :: 0 <= i < |promises| ==> fresh(promises[i])
      invariant forall i :: 0 <= i < |promises| ==> promises[i].cache.None? && !promises[i].failed && promises[i].sends == 0
    {
      var q := new NodePromise();
      promises := promises + [q];
    }
  }

  /** Asks GetMany for the deduplicated keys and hands the nodes it delivers to one promise per key. */
  method GetNodes(keys: seq<Cid>, getMany: seq<Cid> -> seq<NodeOption>) returns (promises: seq<NodePromise>, panicked: bool)
    ensures |promises| == |keys|
    ensures panicked <==> DeliversTwice(keys, Delivered(getMany, keys))
    ensures !panicked ==> AllServed(promises, keys, CidsOf(Delivered(getMany, keys)), Delivered(getMany, keys))
    ensures !panicked ==>
      forall i :: 0 <= i < |keys| ==> (promises[i].failed <==> keys[i] !in CidsOf(Delivered(getMany, keys)))
  {
    promises := NewPromises(|keys|);
    var deduped := DedupeKeys(keys);
    panicked := HandOver(keys, promises, getMany(deduped));
  }

  /** The nodes that arrive before the first error. */
  function Delivered(getMany: seq<Cid> -> seq<NodeOption>, keys: seq<Cid>): seq<Node> {
    OkPrefix(getMany(Deduped(keys)))
  }

  /** The counting loop over the stream. */
  method HandOver(keys: seq<Cid>, promises: seq<NodePromise>, stream: seq<NodeOption>) returns (panicked: bool)
    requires NoDuplicates(promises) && |promises| == |keys|
    requires forall i :: 0 <= i < |keys| ==> promises[i].cache.None? && !promises[i].failed && promises[i].sends == 0
    modifies promises
    ensures panicked <==> DeliversTwice(keys, OkPrefix(stream))
    ensures !panicked ==> AllServed(promises, keys, CidsOf(OkPrefix(stream)), OkPrefix(stream))
    ensures !panicked ==> forall i :: 0 <= i < |keys| ==> (promises[i].failed <==> keys[i] !in CidsOf(OkPrefix(stream)))
  {
    panicked := false;
    ghost var p := OkPrefix(stream);
    var count, t := 0, 0;
    NoneAnswered(keys);
    ghost var cids := {};
    while count < |keys|
      invariant t <= |p| && cids == CidsOf(p[..t]) && count == Answered(keys, cids)
      invariant AllServed(promises, keys, cids, p) && NoneFailed(promises)
      invariant NoRepeatsBefore(keys, p, t)
      decreases |p| - t
    {
      AllAnswered(keys, cids);
      if t == |stream| || stream[t].Failed? {
        assert p[..t] == p;
        FailAll(promises, keys, cids, p);
        return;
      }
      assert t < |p|;
      var nd := stream[t].node;
      count, panicked := Deliver(promises, keys, nd, count, cids, p);
      assert panicked <==> RepeatsAt(keys, p, t);
      if panicked {
        return;
      }
      NoRepeatsNext(keys, p, t);
      CidsOfNext(p, t);
      cids := cids + {nd.cid};
      t := t + 1;
    }
    AllAnswered(keys, cids);
    Complete(keys, p, t);
    LaterNodesIgnored(promises, keys, cids, p);
  }

  ghost predicate NoRepeatsBefore(keys: seq<Cid>, p: seq<Node>, t: nat)
    requires t <= |p|
  {
    forall j :: 0 <= j < t ==> !RepeatsAt(keys, p, j)
  }

  lemma NoRepeatsNext(keys: seq<Cid>, p: seq<Node>, t: nat)
    requires t < |p| && NoRepeatsBefore(keys, p, t) && !RepeatsAt(keys, p, t)
    ensures NoRepeatsBefore(keys, p, t + 1)
  {
  }

  lemma FoundIndexes(keys: seq<Cid>, c: Cid, found: seq<nat>)
    requires forall i :: i in found <==> 0 <= i < |keys| && keys[i] == c
    ensures forall j :: 0 <= j < |found| ==> found[j] < |keys| && keys[found[j]] == c
  {
    forall j | 0 <= j < |found| ensures found[j] < |keys| && keys[found[j]] == c {
      assert found[j] in found;
    }
  }

  lemma LaterNodesIgnored(promises: seq<NodePromise>, keys: seq<Cid>, cids: set<Cid>, p: seq<Node>)
    requires AllServed(promises, keys, cids, p)
    requires forall i :: 0 <= i < |keys| ==> keys[i] in cids && keys[i] in CidsOf(p)
    ensures AllServed(promises, keys, CidsOf(p), p)
  {
    forall i | 0 <= i < |keys| ensures Served(promises[i], keys[i], CidsOf(p), p) {
      assert Served(promises[i], keys[i], cids, p);
    }
  }

  /** If GetMany keeps its word and delivers each deduplicated key once, no promise is sent to twice. */
  lemma DistinctDeliveriesNeverPanic(keys: seq<Cid>, p: seq<Node>)
    requires forall i, j :: 0 <= i < j < |p| ==> p[i].cid != p[j].cid
    ensures !DeliversTwice(keys, p)
  {
    forall j | 0 <= j < |p| ensures !RepeatsAt(keys, p, j) {
      assert forall i :: 0 <= i < j ==> p[..j][i] == p[i];
    }
  }

  function NodeCids(p: seq<Node>): seq<Cid> {
    seq(|p|, i requires 0 <= i < |p| => p[i].cid)
  }

  /** GetMany keeps its word: for the keys asked, in any order, it delivers one node each before any error. */
  ghost predicate KeepsItsWord(getMany: seq<Cid> -> seq<NodeOption>, keys: seq<Cid>) {
    multiset(NodeCids(OkPrefix(getMany(keys)))) == multiset(keys)
  }

  lemma {:induction false} AllOnce<T>(s: seq<T>)
    ensures NoDuplicates(s) <==> forall x :: multiset(s)[x] <= 1
  {
    if s != [] {
      var front, last := s[..|s| - 1], s[|s| - 1];
      assert s == front + [last];
      AllOnce(front);
      assert last in front <==> last in multiset(front);
      if forall x :: multiset(s)[x] <= 1 {
        forall x ensures multiset(front)[x] <= 1 { assert multiset(s)[x] <= 1; }
        assert multiset(s)[last] <= 1;
      }
    }
  }

  lemma EveryKeyArrivesOnce(keys: seq<Cid>, p: seq<Node>)
    requires multiset(NodeCids(p)) == multiset(Deduped(keys))
    ensures !DeliversTwice(keys, p) && forall k :: k in keys ==> k in CidsOf(p)
  {
    DedupedKeepsKeys(keys);
    AllOnce(Deduped(keys));
    AllOnce(NodeCids(p));
    forall i, j | 0 <= i < j < |p| ensures p[i].cid != p[j].cid {
      assert NodeCids(p)[i] != NodeCids(p)[j];
    }
    DistinctDeliveriesNeverPanic(keys, p);
    forall k | k in keys ensures k in CidsOf(p) {
      assert k in Elems(Deduped(keys)) && k in multiset(Deduped(keys));
      assert k in NodeCids(p);
      var i :| 0 <= i < |p| && NodeCids(p)[i] == k;
    }
  }

  /** Then every promise is sent to exactly once, with a node of its own key, duplicate keys included, and none fails. */
  method GetAllNodes(keys: seq<Cid>, getMany: seq<Cid> -> seq<NodeOption>) returns (promises: seq<NodePromise>)
    requires KeepsItsWord(getMany, Deduped(keys))
    ensures |promises| == |keys|
    ensures forall i :: 0 <= i < |keys| ==>
      promises[i].sends == 1 && promises[i].cache.Some? && promises[i].cache.value.cid == keys[i] && !promises[i].failed
  {
    var panicked;
    promises, panicked := GetNodes(keys, getMany);
    EveryKeyArrivesOnce(keys, Delivered(getMany, keys));
    forall i | 0 <= i < |keys| ensures keys[i] in CidsOf(Delivered(getMany, keys)) && Served(promises[i], keys[i],
        CidsOf(Delivered(getMany, keys)), Delivered(getMany, keys)) {
    }
  }

  /** Once every key is answered, what is left of the stream changes nothing. */
  lemma Complete(keys: seq<Cid>, p: seq<Node>, t: nat)
    requires t <= |p| && Elems(keys) <= CidsOf(p[..t])
    ensures forall i :: 0 <= i < |keys| ==> keys[i] in CidsOf(p[..t]) && keys[i] in CidsOf(p)
    ensures forall j :: t <= j < |p| ==> !RepeatsAt(keys, p, j)
  {
    forall j | t <= j <= |p| ensures CidsOf(p[..t]) <= CidsOf(p[..j]) {
      forall c | c in CidsOf(p[..t]) ensures c in CidsOf(p[..j]) {
        var i :| 0 <= i < t && p[..t][i].cid == c;
        assert p[..j][i].cid == c;
      }
    }
    assert p[..|p|] == p;
    forall i | 0 <= i < |keys| ensures keys[i] in CidsOf(p[..t]) {
      assert keys[i] in Elems(keys);
    }
  }
}
