/** The buffer that gathers nodes and hands them to the block service in batches (merkledag/batch.go). The goroutines
    that commit a batch finish in any order and at any time; the client sees it only where it receives a result. */
module Batches {

  /** A node: its identity and the length of its raw data. */
  datatype Block = Block(id: nat, size: nat)

  datatype Error = NoError | Error(code: nat)

  /** What the goroutine of batch number `index` sends on the result channel. */
  datatype Report = Report(index: nat, err: Error)

  function TotalSize(s: seq<Block>): nat {
    if s == [] then 0 else TotalSize(s[..|s| - 1]) + s[|s| - 1].size
  }

  function Concat(batches: seq<seq<Block>>): seq<Block> {
    if batches == [] then [] else Concat(batches[..|batches| - 1]) + batches[|batches| - 1]
  }

  lemma ConcatSnoc(batches: seq<seq<Block>>, b: seq<Block>)
    ensures Concat(batches + [b]) == Concat(batches) + b
  {
    assert (batches + [b])[..|batches|] == batches;
  }

  lemma TotalSizeSnoc(s: seq<Block>, b: Block)
    ensures TotalSize(s + [b]) == TotalSize(s) + b.size
  {
    assert (s + [b])[..|s|] == s;
  }

  /** What may wait in the buffer between two calls. */
  predicate WithinLimits(s: seq<Block>, maxSize: int, maxBlocks: int) {
    s == [] || (TotalSize(s) <= maxSize && |s| <= maxBlocks)
  }

  /** What is handed over at once: never nothing, and without its last node it is within the limits. */
  predicate Batched(s: seq<Block>, maxSize: int, maxBlocks: int) {
    s != [] && WithinLimits(s[..|s| - 1], maxSize, maxBlocks)
  }

  // ---- the books of a batch, as values

  /** No node is lost, repeated or reordered. */
  ghost predicate Accounts(handed: seq<seq<Block>>, blocks: seq<Block>, size: nat, accepted: seq<Block>, maxSize: int, maxBlocks: int) {
    && Concat(handed) + blocks == accepted
    && size == TotalSize(blocks)
    && forall i :: 0 <= i < |handed| ==> Batched(handed[i], maxSize, maxBlocks)
  }

  lemma BufferOne(handed: seq<seq<Block>>, blocks: seq<Block>, size: nat, accepted: seq<Block>, maxSize: int, maxBlocks: int, nd: Block)
    requires Accounts(handed, blocks, size, accepted, maxSize, maxBlocks)
    ensures Accounts(handed, blocks + [nd], size + nd.size, accepted + [nd], maxSize, maxBlocks)
  {
    TotalSizeSnoc(blocks, nd);
    assert Concat(handed) + (blocks + [nd]) == Concat(handed) + blocks + [nd];
  }

  lemma HandOverBuffer(handed: seq<seq<Block>>, blocks: seq<Block>, size: nat, accepted: seq<Block>, maxSize: int, maxBlocks: int)
    requires Accounts(handed, blocks, size, accepted, maxSize, maxBlocks) && Batched(blocks, maxSize, maxBlocks)
    ensures Accounts(handed + [blocks], [], 0, accepted, maxSize, maxBlocks)
  {
    ConcatSnoc(handed, blocks);
    assert Concat(handed) + blocks + [] == Concat(handed) + blocks;
  }

  /** Every one of `n` commits is running, waiting in the channel, or received; the channel has room for all that run. */
  ghost predicate Tracks(running: set<nat>, results: seq<Report>, active: nat, parallel: nat, n: nat, outcome: map<nat, Error>) {
    && |running| + |results| == active <= parallel
    && (forall i: nat :: i in running <==> i < n && i !in outcome)
    && (forall i: nat :: i in outcome ==> i < n)
    && (forall k :: 0 <= k < |results| ==> results[k].index in outcome && outcome[results[k].index] == results[k].err)
  }

  ghost predicate Waits(results: seq<Report>, i: nat) {
    exists k :: 0 <= k < |results| && results[k].index == i
  }

  /** The recorded error is that of a commit; as long as there is none, failures still wait in the channel. */
  ghost predicate Judges(err: Error, results: seq<Report>, outcome: map<nat, Error>) {
    && (err.Error? ==> EndedSo(outcome, err))
    && (err.NoError? ==> forall i :: i in outcome && outcome[i].Error? ==> Waits(results, i))
  }

  /** Some call of AddBlocks ended so. */
  ghost predicate EndedSo(outcome: map<nat, Error>, err: Error) {
    exists i :: i in outcome && outcome[i] == err
  }

  lemma StartOne(running: set<nat>, results: seq<Report>, active: nat, parallel: nat, n: nat, outcome: map<nat, Error>)
    requires Tracks(running, results, active, parallel, n, outcome) && active < parallel
    ensures Tracks(running + {n}, results, active + 1, parallel, n + 1, outcome)
  {
    assert n !in running && n !in outcome;
  }

  lemma FinishOne(running: set<nat>, results: seq<Report>, active: nat, parallel: nat, n: nat, outcome: map<nat, Error>,
                  recorded: Error, i: nat, err: Error)
    requires Tracks(running, results, active, parallel, n, outcome) && Judges(recorded, results, outcome) && i in running
    ensures |results| < parallel
    ensures Tracks(running - {i}, results + [Report(i, err)], active, parallel, n, outcome[i := err])
    ensures Judges(recorded, results + [Report(i, err)], outcome[i := err])
  {
    var more := results + [Report(i, err)];
    assert more[|results|].index == i;
    forall j | Waits(results, j)
      ensures Waits(more, j)
    {
      var k :| 0 <= k < |results| && results[k].index == j;
      assert more[k].index == j;
    }
    if recorded.Error? {
      var j :| j in outcome && outcome[j] == recorded;
      assert j != i && outcome[i := err][j] == recorded;
    }
  }

  lemma TakeOne(running: set<nat>, results: seq<Report>, active: nat, parallel: nat, n: nat, outcome: map<nat, Error>)
    requires Tracks(running, results, active, parallel, n, outcome) && Judges(NoError, results, outcome) && results != []
    ensures active > 0 && Tracks(running, results[1..], active - 1, parallel, n, outcome)
    ensures Judges(results[0].err, results[1..], outcome)
  {
    if results[0].err.NoError? {
      forall j | Waits(results, j) && j != results[0].index
        ensures Waits(results[1..], j)
      {
        var k :| 0 <= k < |results| && results[k].index == j;
        assert results[1..][k - 1].index == j;
      }
    }
  }

  class Batch {
    const maxSize: int
    const maxBlocks: int
    /** How many commits may be in flight; also the capacity of the result channel. */
    const parallel: nat

    var blocks: seq<Block>
    var size: nat
    var activeCommits: nat
    var commitError: Error

    /** The result channel, and the goroutines that have not sent their result yet. */
    var results: seq<Report>
    var running: set<nat>

    /** The batches handed to AddBlocks, in order; all that `Add` took; how the finished calls ended. */
    var handed: seq<seq<Block>>
    ghost var accepted: seq<Block>
    ghost var outcome: map<nat, Error>

    ghost predicate Valid()
      reads this
    {
      Accounted() && Tracked() && Judged()
    }

    /** Between calls the buffer is within its limits, unless a commit has failed. */
    ghost predicate Ready()
      reads this
    {
      Valid() && (commitError.NoError? ==> WithinLimits(blocks, maxSize, maxBlocks))
    }

    ghost predicate Accounted()
      reads this
    {
      Accounts(handed, blocks, size, accepted, maxSize, maxBlocks)
    }

    ghost predicate Tracked()
      reads this
    {
      Tracks(running, results, activeCommits, parallel, |handed|, outcome)
    }

    ghost predicate Judged()
      reads this
    {
      Judges(commitError, results, outcome)
    }

    ghost predicate SomeFailed()
      reads this
    {
      exists i :: i in outcome && outcome[i].Error?
    }

    /** Every batch was handed over, and every call of AddBlocks has returned without an error. */
    ghost predicate AllStored()
      reads this
    {
      && Concat(handed) == accepted
      && (forall i: nat :: i < |handed| ==> i in outcome && outcome[i].NoError?)
    }

    constructor (maxSize: int, maxBlocks: int, parallel: nat)
      requires parallel > 0
      ensures Ready() && accepted == [] && handed == [] && commitError == NoError
      ensures this.maxSize == maxSize && this.maxBlocks == maxBlocks && this.parallel == parallel
    {
      this.maxSize, this.maxBlocks, this.parallel := maxSize, maxBlocks, parallel;
      blocks, size, activeCommits, commitError := [], 0, 0, NoError;
      results, running, handed := [], {}, [];
      accepted, outcome := [], map[];
    }

    /** One goroutine finishes and sends its result: there is always room, so it never blocks. */
    method Finish()
      requires Valid() && running != {}
      modifies this`running, this`results, this`outcome
      ensures Valid() && running < old(running) && |results| == |old(results)| + 1
      ensures forall i :: i in old(outcome) ==> i in outcome && outcome[i] == old(outcome)[i]
    {
      var i :| i in running;
      var err: Error := *;
      FinishOne(running, results, activeCommits, parallel, |handed|, outcome, commitError, i, err);
      assert |results| < parallel;
      results, running, outcome := results + [Report(i, err)], running - {i}, outcome[i := err];
    }

    /** Any number of goroutines finish. */
    method Settle()
      requires Valid()
      modifies this`running, this`results, this`outcome
      ensures Valid()
      ensures forall i :: i in old(outcome) ==> i in outcome && outcome[i] == old(outcome)[i]
    {
      var more: bool := *;
      while more && running != {}
        invariant Valid()
        invariant forall i :: i in old(outcome) ==> i in outcome && outcome[i] == old(outcome)[i]
        decreases running
      {
        Finish();
        more := *;
      }
    }

    /** Takes the oldest result off the channel and records its error. */
    method Take()
      requires Valid() && results != [] && commitError.NoError?
      modifies this`results, this`activeCommits, this`commitError
      ensures Valid() && activeCommits == old(activeCommits) - 1
    {
      TakeOne(running, results, activeCommits, parallel, |handed|, outcome);
      var report := results[0];
      results, activeCommits := results[1..], activeCommits - 1;
      if report.err.Error? {
        commitError := report.err;
      }
    }

    /** A blocking receive. It cannot block forever: with a commit active, one is running or has sent its result. */
    method Receive()
      requires Valid() && activeCommits > 0 && commitError.NoError?
      modifies this`running, this`results, this`outcome, this`activeCommits, this`commitError
      ensures Valid() && activeCommits == old(activeCommits) - 1
    {
      Settle();
      if results == [] {
        Finish();
      }
      Take();
    }

    /** Takes what results there are, up to the first error: a commit that has failed by now is noticed. */
    method ProcessResults()
      requires Valid()
      modifies this`running, this`results, this`outcome, this`activeCommits, this`commitError
      ensures Valid()
      ensures old(commitError).Error? ==> commitError == old(commitError)
      ensures old(SomeFailed()) ==> commitError.Error?
    {
      while activeCommits > 0 && commitError.NoError?
        invariant Valid()
        invariant old(commitError).Error? ==> commitError == old(commitError)
        invariant forall i :: i in old(outcome) ==> i in outcome && outcome[i] == old(outcome)[i]
        decreases activeCommits
      {
        Settle();
        if results == [] {
          return;
        }
        Take();
      }
    }

    /** Hands the buffered nodes over, unless there are none or an error has been recorded. */
    method AsyncCommit()
      requires Valid()
      requires commitError.NoError? && blocks != [] ==> Batched(blocks, maxSize, maxBlocks)
      requires parallel > 0
      modifies this
      ensures Ready() && accepted == old(accepted)
      ensures old(commitError).Error? ==> commitError == old(commitError)
      ensures commitError.Error? ==> handed == old(handed) && blocks == old(blocks)
      ensures commitError.NoError? ==> blocks == [] && handed == old(handed) + if old(blocks) == [] then [] else [old(blocks)]
    {
      if blocks == [] || commitError.Error? {
        return;
      }
      if activeCommits >= parallel {
        Receive();
        if commitError.Error? {
          return;
        }
      }
      Launch();
    }

    /** Starts a goroutine that hands the whole buffer to AddBlocks. */
    method Launch()
      requires Valid() && commitError.NoError? && activeCommits < parallel && blocks != []
      requires Batched(blocks, maxSize, maxBlocks)
      modifies this`running, this`activeCommits, this`blocks, this`size, this`handed
      ensures Valid() && blocks == [] && handed == old(handed) + [old(blocks)]
    {
      StartOne(running, results, activeCommits, parallel, |handed|, outcome);
      HandOverBuffer(handed, blocks, size, accepted, maxSize, maxBlocks);
      handed, running := handed + [blocks], running + {|handed|};
      activeCommits := activeCommits + 1;
      blocks, size := [], 0;
    }

    method Buffer(nd: Block)
      requires Ready() && commitError.NoError?
      modifies this`blocks, this`size, this`accepted
      ensures Valid() && blocks == old(blocks) + [nd] && accepted == old(accepted) + [nd]
      ensures Batched(blocks, maxSize, maxBlocks) && size == TotalSize(blocks)
    {
      BufferOne(handed, blocks, size, accepted, maxSize, maxBlocks, nd);
      assert (blocks + [nd])[..|blocks|] == blocks;
      blocks, size := blocks + [nd], size + nd.size;
      accepted := accepted + [nd];
    }

    /** Adds a node and hands the buffer over once it exceeds a limit. A commit that failed before is reported, and the
        node is then not taken. */
    method Add(nd: Block) returns (err: Error)
      requires Ready() && parallel > 0
      modifies this
      ensures Ready() && err == commitError
      ensures old(commitError).Error? ==> err == old(commitError)
      ensures accepted == old(accepted) + [nd] || (err.Error? && accepted == old(accepted))
      ensures old(commitError.Error? || SomeFailed()) ==> err.Error? && accepted == old(accepted)
      ensures err.Error? ==> handed == old(handed)
      ensures err.NoError? ==>
        if TotalSize(old(blocks) + [nd]) > maxSize || |old(blocks)| + 1 > maxBlocks then
          blocks == [] && handed == old(handed) + [old(blocks) + [nd]]
        else
          blocks == old(blocks) + [nd] && handed == old(handed)
    {
      ProcessResults();
      if commitError.Error? {
        return commitError;
      }
      Buffer(nd);
      if size > maxSize || |blocks| > maxBlocks {
        AsyncCommit();
      }
      return commitError;
    }

    /** Hands over what is left and waits. Without an error every node accepted has been handed over exactly once and
        in order, and every call of AddBlocks has succeeded; an error is one that such a call returned. */
    method Commit() returns (err: Error)
      requires Ready() && parallel > 0
      modifies this
      ensures Ready() && accepted == old(accepted) && err == commitError
      ensures old(commitError).Error? ==> err == old(commitError) && handed == old(handed)
      ensures err.NoError? <==> AllStored()
      ensures err.Error? ==> EndedSo(outcome, err)
      ensures err.NoError? ==> activeCommits == 0 && blocks == []
    {
      ghost var n := |blocks|;
      assert blocks != [] ==> TotalSize(blocks[..n - 1]) <= TotalSize(blocks);
      AsyncCommit();
      while activeCommits > 0 && commitError.NoError?
        invariant Ready() && accepted == old(accepted)
        invariant old(commitError).Error? ==> commitError == old(commitError) && handed == old(handed)
        invariant commitError.NoError? ==> blocks == []
        decreases activeCommits
      {
        Receive();
      }
      return commitError;
    }
  }

  /** A whole run: nodes are added one by one and then committed. Success means that the batches, in the order they
      were handed over, are exactly the nodes added; failure, that they are an initial stretch of them. */
  method AddAll(nodes: seq<Block>, maxSize: int, maxBlocks: int, parallel: nat)
    returns (handed: seq<seq<Block>>, err: Error)
    requires parallel > 0
    ensures err.NoError? ==> Concat(handed) == nodes
    ensures Concat(handed) <= nodes
    ensures forall i :: 0 <= i < |handed| ==> Batched(handed[i], maxSize, maxBlocks)
  {
    var batch := new Batch(maxSize, maxBlocks, parallel);
    var n := 0;
    while n < |nodes|
      invariant n <= |nodes| && batch.Ready() && fresh(batch) && batch.parallel == parallel
      invariant batch.maxSize == maxSize && batch.maxBlocks == maxBlocks
      invariant batch.accepted == nodes[..n]
    {
      err := batch.Add(nodes[n]);
      if err.Error? {
        handed := batch.handed;
        assert Concat(handed) <= batch.accepted;
        assert batch.accepted <= nodes;
        return;
      }
      n := n + 1;
    }
    err := batch.Commit();
    handed := batch.handed;
    assert batch.accepted <= nodes;
    assert Concat(handed) <= batch.accepted;
  }
}
