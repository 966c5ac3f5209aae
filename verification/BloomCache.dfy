/** The bloom-filter cache over the block store (blocks/blockstore/bloom_cache.go), with its rebuild and
    all operations as interleaved steps. */
module BloomCache {
  import opened Cids

  /** Enumeration of the keys of the store by Rebuild. `owed` are the keys that were there when it began, have
      not been deleted since, and have not been delivered. */
  datatype Rebuild = NotStarted | Enumerating(owed: set<Cid>) | Finished

  /** An operation in progress. Put is PutMany of one block. */
  datatype Op =
    | Storing(keys: seq<Cid>, written: set<Cid>) // the underlying store is writing the blocks, in any order
    | Adding(todo: seq<Cid>, keys: seq<Cid>)     // the store has reported success, keys are being added to the filter
    | Querying(key: Cid)                         // Has, Get or DeleteBlock has read the active flag as true
    | Returned

  /** `settled` and `orphaned` are history: the keys of blocks that were in the store from the beginning or whose
      Put has returned, and not deleted since; and the keys of blocks that a Put wrote before it failed, and that
      were neither deleted nor added to the filter before or since. */
  datatype State = State(
    store: set<Cid>, filter: set<Cid>, active: bool, rebuild: Rebuild, ops: map<nat, Op>,
    settled: set<Cid>, orphaned: set<Cid>)

  datatype Step =
    | BeginPut(id: nat, keys: seq<Cid>)
    | WriteBlock(id: nat, key: Cid) // the underlying store takes one of the blocks
    | FailPut(id: nat)             // the underlying store reports an error, blocks written so far may stay
    | BeginAdding(id: nat)         // it reports success; blocks it had already may have been skipped
    | AddKey(id: nat)
    | ReturnPut(id: nat)
    | BeginQuery(id: nat, key: Cid)
    | EndQuery(id: nat)            // the filter was asked; the answer is judged in `MayReportAbsent`
    | Delete(key: Cid)             // the underlying store drops a block
    | BeginRebuild
    | DeliverKey(key: Cid)
    | FinishRebuild
    | Activate

  predicate Init(s: State) {
    && s.filter == {} && !s.active && s.rebuild == NotStarted && s.ops == map[] && s.settled == s.store && s.orphaned == {}
  }

  predicate Enabled(s: State, step: Step) {
    match step
    case BeginPut(id, keys) => id !in s.ops
    case WriteBlock(id, key) => id in s.ops && s.ops[id].Storing? && key in s.ops[id].keys
    case FailPut(id) => id in s.ops && s.ops[id].Storing?
    case BeginAdding(id) => id in s.ops && s.ops[id].Storing?
    case AddKey(id) => id in s.ops && s.ops[id].Adding? && s.ops[id].todo != []
    case ReturnPut(id) => id in s.ops && s.ops[id].Adding? && s.ops[id].todo == []
    case BeginQuery(id, key) => id !in s.ops && s.active
    case EndQuery(id) => id in s.ops && s.ops[id].Querying?
    case Delete(key) => true
    case BeginRebuild => s.rebuild == NotStarted
    case DeliverKey(key) => s.rebuild.Enumerating?
    case FinishRebuild => s.rebuild == Enumerating({})
    case Activate => s.rebuild == Finished && !s.active
  }

  function Apply(s: State, step: Step): State
    requires Enabled(s, step)
  {
    match step
    case BeginPut(id, keys) => s.(ops := s.ops[id := Storing(keys, {})])
    case WriteBlock(id, key) =>
      s.(store := s.store + {key}, ops := s.ops[id := Storing(s.ops[id].keys, s.ops[id].written + {key})])
    case FailPut(id) => s.(ops := s.ops[id := Returned], orphaned := s.orphaned + (s.ops[id].written * s.store - s.filter))
    case BeginAdding(id) => s.(ops := s.ops[id := Adding(s.ops[id].keys, s.ops[id].keys)])
    case AddKey(id) =>
      var op := s.ops[id];
      s.(filter := s.filter + {op.todo[0]}, orphaned := s.orphaned - {op.todo[0]}, ops := s.ops[id := Adding(op.todo[1..], op.keys)])
    case ReturnPut(id) =>
      s.(ops := s.ops[id := Returned], settled := s.settled + (set k | k in s.ops[id].keys && k in s.store))
    case BeginQuery(id, key) => s.(ops := s.ops[id := Querying(key)])
    case EndQuery(id) => s.(ops := s.ops[id := Returned])
    case Delete(key) =>
      s.(store := s.store - {key}, settled := s.settled - {key}, orphaned := s.orphaned - {key},
         rebuild := if s.rebuild.Enumerating? then Enumerating(s.rebuild.owed - {key}) else s.rebuild)
    case BeginRebuild => s.(rebuild := Enumerating(s.store))
    case DeliverKey(key) =>
      s.(filter := s.filter + {key}, orphaned := s.orphaned - {key}, rebuild := Enumerating(s.rebuild.owed - {key}))
    case FinishRebuild => s.(rebuild := Finished)
    case Activate => s.(active := true)
  }

  ghost predicate IsRun(ss: seq<State>, steps: seq<Step>) {
    && |ss| == |steps| + 1
    && Init(ss[0])
    && forall i :: 0 <= i < |steps| ==> Enabled(ss[i], steps[i]) && ss[i + 1] == Apply(ss[i], steps[i])
  }

  /** The filter answers yes for every key added and anything for the others; a no is passed on as "absent". */
  predicate MayReportAbsent(s: State, step: Step)
    requires Enabled(s, step)
  {
    step.EndQuery? && s.ops[step.id].key !in s.filter
  }

  /** A Put has written `k` and not yet added it to the filter. */
  ghost predicate PutUnderway(s: State, k: Cid) {
    exists id :: id in s.ops && Owes(s.ops[id], k)
  }

  predicate Owes(op: Op, k: Cid) {
    (op.Storing? && k in op.written) || (op.Adding? && k in op.todo)
  }

  /** Every stored key is in the filter, or will still be brought there. */
  ghost predicate Inv(s: State) {
    && (s.active ==> s.rebuild == Finished)
    && (s.rebuild != NotStarted ==> forall k :: k in s.store ==>
         k in s.filter || k in s.orphaned || PutUnderway(s, k) || (s.rebuild.Enumerating? && k in s.rebuild.owed))
    && (s.rebuild != NotStarted ==> forall k :: k in s.settled ==>
         k in s.filter || (s.rebuild.Enumerating? && k in s.rebuild.owed))
    && s.settled <= s.store && s.orphaned <= s.store && s.orphaned !! s.filter
    && (forall id, k :: id in s.ops && s.ops[id].Adding? && k in s.ops[id].keys ==> k in s.ops[id].todo || k in s.filter)
    && (forall id :: id in s.ops && s.ops[id].Querying? ==> s.active)
    && (forall id, k :: id in s.ops && s.ops[id].Storing? && k in s.ops[id].written ==> k in s.ops[id].keys)
  }

  lemma KeepUnderway(s: State, step: Step, k: Cid)
    requires Inv(s) && Enabled(s, step) && PutUnderway(s, k)
    ensures var s' := Apply(s, step); PutUnderway(s', k) || k in s'.filter || k in s'.orphaned || k !in s'.store
  {
    var s' := Apply(s, step);
    var id :| id in s.ops && Owes(s.ops[id], k);
    assert id in s'.ops;
    if !Owes(s'.ops[id], k) {
      assert s'.ops[id] != s.ops[id];
    }
  }

  lemma StepInv(s: State, step: Step)
    requires Inv(s) && Enabled(s, step)
    ensures Inv(Apply(s, step))
  {
    var s' := Apply(s, step);
    forall k | s'.rebuild != NotStarted && k in s'.store
      ensures k in s'.filter || k in s'.orphaned || PutUnderway(s', k) || (s'.rebuild.Enumerating? && k in s'.rebuild.owed)
    {
      if PutUnderway(s, k) {
        KeepUnderway(s, step, k);
      } else if k !in s.store && step.WriteBlock? {
        assert Owes(s'.ops[step.id], k);
      }
    }
  }

  lemma {:induction false} RunInv(ss: seq<State>, steps: seq<Step>, i: nat)
    requires IsRun(ss, steps) && i < |ss|
    ensures Inv(ss[i])
  {
    if i > 0 {
      RunInv(ss, steps, i - 1);
      StepInv(ss[i - 1], steps[i - 1]);
    }
  }

  /** In every interleaving with a rebuild whose enumeration is complete, no block that was there from the
      beginning or whose Put has returned, and that was not deleted since, is ever reported absent. */
  lemma SettledNeverReportedAbsent(ss: seq<State>, steps: seq<Step>, i: nat)
    requires IsRun(ss, steps) && i < |steps| && MayReportAbsent(ss[i], steps[i])
    ensures ss[i].ops[steps[i].id].key !in ss[i].settled
  {
    RunInv(ss, steps, i);
  }

  /** Once the filter is in use it misses, of all stored blocks that no Put is about to add, exactly those that a
      failed Put has left behind. */
  lemma MissedExactly(ss: seq<State>, steps: seq<Step>, i: nat, k: Cid)
    requires IsRun(ss, steps) && i < |ss| && ss[i].active && !PutUnderway(ss[i], k)
    ensures k in ss[i].store - ss[i].filter <==> k in ss[i].orphaned
  {
    RunInv(ss, steps, i);
  }

  /** When the cache itself reports a block absent, and no Put is about to add it, the answer is false exactly if a
      failed Put has left the block behind. */
  lemma AbsentAnswersAreTrue(ss: seq<State>, steps: seq<Step>, i: nat)
    requires IsRun(ss, steps) && i < |steps| && MayReportAbsent(ss[i], steps[i])
    ensures var k := ss[i].ops[steps[i].id].key;
      !PutUnderway(ss[i], k) ==>
        (k in ss[i].store <==> k in ss[i].orphaned) && (k in ss[i].store <==> exists b :: 0 <= b < i && LeftBehind(ss, steps, b, i, k))
  {
    RunInv(ss, steps, i);
    OrphanedExactly(ss, steps, i, ss[i].ops[steps[i].id].key);
  }

  // ---- the same in terms of the steps of a run

  /** What the last of these steps that writes or deletes `k` has left, or what was there before. */
  function StoredAfter(before: bool, steps: seq<Step>, k: Cid): bool {
    if steps == [] then before
    else
      var last := steps[|steps| - 1];
      if last == Delete(k) then false
      else if last.WriteBlock? && last.key == k then true
      else StoredAfter(before, steps[..|steps| - 1], k)
  }

  lemma {:induction false} StoreExactly(ss: seq<State>, steps: seq<Step>, i: nat, k: Cid)
    requires IsRun(ss, steps) && i <= |steps|
    ensures k in ss[i].store <==> StoredAfter(k in ss[0].store, steps[..i], k)
  {
    if i > 0 {
      StoreExactly(ss, steps, i - 1, k);
      assert steps[..i][..i - 1] == steps[..i - 1];
      assert Enabled(ss[i - 1], steps[i - 1]) && ss[i - 1 + 1] == Apply(ss[i - 1], steps[i - 1]);
    }
  }

  predicate Deletes(steps: seq<Step>, a: nat, b: nat, k: Cid)
    requires b <= |steps|
  {
    exists j :: a <= j < b && steps[j] == Delete(k)
  }

  /** The Put that began with these keys still has them, if it has not returned. */
  lemma {:induction false} PutKeepsKeys(ss: seq<State>, steps: seq<Step>, a: nat, j: nat, id: nat, keys: seq<Cid>)
    requires IsRun(ss, steps) && a < j <= |steps| && steps[a] == BeginPut(id, keys)
    ensures id in ss[j].ops && !ss[j].ops[id].Querying?
    ensures ss[j].ops[id].Storing? || ss[j].ops[id].Adding? ==> ss[j].ops[id].keys == keys
    decreases j
  {
    if a + 1 < j {
      PutKeepsKeys(ss, steps, a, j - 1, id, keys);
    }
    assert Enabled(ss[j - 1], steps[j - 1]) && ss[j - 1 + 1] == Apply(ss[j - 1], steps[j - 1]);
  }

  lemma {:induction false} SettledUntilDeleted(ss: seq<State>, steps: seq<Step>, b: nat, i: nat, k: Cid)
    requires IsRun(ss, steps) && b <= i <= |steps| && k in ss[b].settled && !Deletes(steps, b, i, k)
    ensures k in ss[i].settled
    decreases i
  {
    if b < i {
      assert forall j :: b <= j < i - 1 ==> steps[j] != Delete(k);
      SettledUntilDeleted(ss, steps, b, i - 1, k);
      assert steps[i - 1] != Delete(k);
      assert ss[i - 1 + 1] == Apply(ss[i - 1], steps[i - 1]);
    }
  }

  /** A block whose Put has returned is not reported absent before it is deleted. */
  lemma PutBlocksAreReported(ss: seq<State>, steps: seq<Step>, a: nat, b: nat, i: nat, id: nat, keys: seq<Cid>, k: Cid)
    requires IsRun(ss, steps) && a < b < i < |steps|
    requires steps[a] == BeginPut(id, keys) && steps[b] == ReturnPut(id)
    requires k in keys && k in ss[b].store && !Deletes(steps, b, i, k)
    ensures MayReportAbsent(ss[i], steps[i]) ==> ss[i].ops[steps[i].id].key != k
  {
    PutKeepsKeys(ss, steps, a, b, id, keys);
    assert ss[b + 1] == Apply(ss[b], steps[b]) && k in ss[b + 1].settled;
    assert forall j :: b + 1 <= j < i ==> steps[j] != Delete(k);
    SettledUntilDeleted(ss, steps, b + 1, i, k);
    RunInv(ss, steps, i);
  }

  /** Nor is a block that was in the store from the beginning. */
  lemma FirstBlocksAreReported(ss: seq<State>, steps: seq<Step>, i: nat, k: Cid)
    requires IsRun(ss, steps) && i < |steps| && k in ss[0].store && !Deletes(steps, 0, i, k)
    ensures MayReportAbsent(ss[i], steps[i]) ==> ss[i].ops[steps[i].id].key != k
  {
    SettledUntilDeleted(ss, steps, 0, i, k);
    RunInv(ss, steps, i);
  }

  /** An earlier step of the run wrote the block `k` for the Put `id`. */
  ghost predicate Wrote(steps: seq<Step>, j: nat, id: nat, k: Cid)
    requires j <= |steps|
  {
    exists a :: 0 <= a < j && steps[a] == WriteBlock(id, k)
  }

  lemma WroteNext(steps: seq<Step>, j: nat, id: nat, k: Cid)
    requires j < |steps|
    ensures Wrote(steps, j + 1, id, k) <==> Wrote(steps, j, id, k) || steps[j] == WriteBlock(id, k)
  {
  }

  /** The books of a Put name exactly the blocks that were written for it. */
  lemma {:induction false} WrittenExactly(ss: seq<State>, steps: seq<Step>, j: nat, id: nat, k: Cid)
    requires IsRun(ss, steps) && j <= |steps|
    ensures id !in ss[j].ops ==> !Wrote(steps, j, id, k)
    ensures id in ss[j].ops && ss[j].ops[id].Storing? ==> (k in ss[j].ops[id].written <==> Wrote(steps, j, id, k))
  {
    if j > 0 {
      WrittenExactly(ss, steps, j - 1, id, k);
      WroteNext(steps, j - 1, id, k);
      assert Enabled(ss[j - 1], steps[j - 1]) && ss[j - 1 + 1] == Apply(ss[j - 1], steps[j - 1]);
    }
  }

  /** Step `b` is a Put failing after it has written `k`, and from then on `k` is stored and missing from the filter. */
  ghost predicate LeftBehind(ss: seq<State>, steps: seq<Step>, b: nat, i: nat, k: Cid)
    requires |ss| == |steps| + 1 && b < i <= |steps|
  {
    && steps[b].FailPut? && Wrote(steps, b, steps[b].id, k)
    && forall c :: b < c <= i ==> k in ss[c].store - ss[c].filter
  }

  lemma LeftBehindNext(ss: seq<State>, steps: seq<Step>, b: nat, i: nat, k: Cid)
    requires |ss| == |steps| + 1 && b < i < |steps|
    ensures LeftBehind(ss, steps, b, i + 1, k) <==> LeftBehind(ss, steps, b, i, k) && k in ss[i + 1].store - ss[i + 1].filter
  {
  }

  /** The blocks that failed Puts have left behind, told from the steps of the run alone. */
  lemma {:induction false} OrphanedExactly(ss: seq<State>, steps: seq<Step>, i: nat, k: Cid)
    requires IsRun(ss, steps) && i <= |steps|
    ensures k in ss[i].orphaned <==> exists b :: 0 <= b < i && LeftBehind(ss, steps, b, i, k)
  {
    RunInv(ss, steps, i);
    if i > 0 {
      var j := i - 1;
      OrphanedExactly(ss, steps, j, k);
      assert Enabled(ss[j], steps[j]) && ss[j + 1] == Apply(ss[j], steps[j]);
      if steps[j].FailPut? { WrittenExactly(ss, steps, j, steps[j].id, k); }
      forall b | 0 <= b < j
        ensures LeftBehind(ss, steps, b, i, k) <==> LeftBehind(ss, steps, b, j, k) && k in ss[i].store - ss[i].filter
      {
        LeftBehindNext(ss, steps, b, j, k);
      }
      if k in ss[i].orphaned {
        if k in ss[j].orphaned {
          var b :| 0 <= b < j && LeftBehind(ss, steps, b, j, k);
          assert LeftBehind(ss, steps, b, i, k);
        } else {
          assert LeftBehind(ss, steps, j, i, k);
        }
      }
      if b :| 0 <= b < i && LeftBehind(ss, steps, b, i, k) {
        if b < j {
          assert LeftBehind(ss, steps, b, j, k);
        }
      }
    }
  }

  /** Behind every block left behind there is a Put of it that failed. */
  lemma {:induction false} WrittenForPut(ss: seq<State>, steps: seq<Step>, a: nat, id: nat, k: Cid) returns (p: nat, keys: seq<Cid>)
    requires IsRun(ss, steps) && a <= |steps|
    requires id in ss[a].ops && ss[a].ops[id].Storing? && k in ss[a].ops[id].keys
    ensures p < a && steps[p] == BeginPut(id, keys) && k in keys
  {
    var j := a - 1;
    assert Enabled(ss[j], steps[j]) && ss[j + 1] == Apply(ss[j], steps[j]);
    if id in ss[j].ops {
      p, keys := WrittenForPut(ss, steps, j, id, k);
    } else {
      p, keys := j, ss[a].ops[id].keys;
    }
  }

  lemma OrphanHasFailedPut(ss: seq<State>, steps: seq<Step>, i: nat, k: Cid) returns (p: nat, a: nat, b: nat, id: nat, keys: seq<Cid>)
    requires IsRun(ss, steps) && i <= |steps| && k in ss[i].orphaned
    ensures p < a < b < i && k in keys
    ensures steps[p] == BeginPut(id, keys) && steps[a] == WriteBlock(id, k) && steps[b] == FailPut(id)
  {
    OrphanedExactly(ss, steps, i, k);
    b :| 0 <= b < i && LeftBehind(ss, steps, b, i, k);
    id := steps[b].id;
    a :| 0 <= a < b && steps[a] == WriteBlock(id, k);
    p, keys := WrittenForPut(ss, steps, a, id, k);
  }

  lemma Extend(ss: seq<State>, steps: seq<Step>, step: Step) returns (ts: seq<State>, more: seq<Step>)
    requires IsRun(ss, steps) && Enabled(ss[|steps|], step)
    ensures IsRun(ts, more) && |more| == |steps| + 1
    ensures ts[|steps|] == ss[|steps|] && more[|steps|] == step && ts[|more|] == Apply(ss[|steps|], step)
  {
    ts, more := ss + [Apply(ss[|steps|], step)], steps + [step];
  }

  /** An empty store is indexed and the cache becomes active. */
  lemma RebuildOfNothing() returns (ss: seq<State>, steps: seq<Step>)
    ensures IsRun(ss, steps) && ss[|steps|] == State({}, {}, true, Finished, map[], {}, {})
  {
    ss, steps := [State({}, {}, false, NotStarted, map[], {}, {})], [];
    ss, steps := Extend(ss, steps, BeginRebuild);
    ss, steps := Extend(ss, steps, FinishRebuild);
    ss, steps := Extend(ss, steps, Activate);
  }

  /** Then a Put writes its block and fails. */
  lemma FailingPut(k: Cid) returns (ss: seq<State>, steps: seq<Step>)
    ensures IsRun(ss, steps) && ss[|steps|] == State({k}, {}, true, Finished, map[0 := Returned], {}, {k})
  {
    ss, steps := RebuildOfNothing();
    ss, steps := Extend(ss, steps, BeginPut(0, [k]));
    ss, steps := Extend(ss, steps, WriteBlock(0, k));
    ss, steps := Extend(ss, steps, FailPut(0));
  }

  /** The failed Put does matter: if it leaves a block behind, the block is in the store, no Put of it is under
      way, and the cache reports it absent. */
  lemma FailedPutHidesBlock(k: Cid) returns (ss: seq<State>, steps: seq<Step>, i: nat)
    ensures IsRun(ss, steps) && i < |steps| && MayReportAbsent(ss[i], steps[i])
    ensures ss[i].ops[steps[i].id].key == k && k in ss[i].store && !PutUnderway(ss[i], k)
  {
    ss, steps := FailingPut(k);
    ss, steps := Extend(ss, steps, BeginQuery(1, k));
    i := |steps|;
    ss, steps := Extend(ss, steps, EndQuery(1));
  }
}
