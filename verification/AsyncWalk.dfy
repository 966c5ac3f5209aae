/** The concurrent DAG walk of merkledag (`EnumerateChildrenAsync`) as a step relation.

    One coordinator talks to a fixed number of workers over the unbuffered channels feed, out, done
    and errChan. Every rendezvous, every fetch and every visit under the set lock is one step. */
module AsyncWalk {
  import opened Basics
  import opened Cids
  import opened Graphs
  import Walk

  /** Where a worker goroutine stands in its loop. */
  datatype Worker =
    | Idle                  // ready to receive from feed
    | Fetching(c: Cid)      // inside getLinks
    | Fetched(c: Cid)       // links at hand, about to visit under the lock
    | Reporting(c: Cid)     // c was unseen: offering its links on out
    | Finishing             // offering on done
    | Failing(c: Cid)       // getLinks failed: offering the error on errChan
    | Gone                  // returned

  datatype Outcome = Running | ReturnedNil | ReturnedError

  /** `sent`, `expanded` and `lost` are history: sends on feed, nodes whose links were received, and
      workers that skipped their send on out or done because the context was cancelled. */
  datatype State = State(
    workers: seq<Worker>, next: Option<Cid>, todo: seq<Cid>, inProgress: int,
    visited: set<Cid>, cancelled: bool, outcome: Outcome,
    sent: nat, expanded: set<Cid>, lost: nat)

  datatype Step =
    | SendFeed(w: nat) | FetchOk(w: nat) | FetchError(w: nat) | Visit(w: nat)
    | RecvLinks(w: nat) | RecvDone(w: nat) | RecvError(w: nat)
    | Cancel | ReturnCancelled | DropLinks(w: nat) | DropDone(w: nat) | Exit(w: nat)

  function Init(root: Cid, n: nat): State {
    State(seq(n, _ => Idle), Some(root), [], 0, {}, false, Running, 0, {}, 0)
  }

  predicate WinddownAllowed(s: State) {
    s.cancelled || s.outcome != Running
  }

  predicate Enabled(g: Graph<Cid>, s: State, step: Step) {
    match step
    case Cancel => !s.cancelled
    case ReturnCancelled => s.outcome == Running && s.cancelled
    case _ =>
      && step.w < |s.workers|
      && var worker := s.workers[step.w];
         match step
         case SendFeed(_) => s.outcome == Running && s.next.Some? && worker.Idle?
         case FetchOk(_) => worker.Fetching? && worker.c in g
         case FetchError(_) => worker.Fetching?
         case Visit(_) => worker.Fetched? && worker.c in g
         case RecvLinks(_) => s.outcome == Running && worker.Reporting? && worker.c in g
         case RecvDone(_) => s.outcome == Running && worker.Finishing?
         case RecvError(_) => s.outcome == Running && worker.Failing?
         case DropLinks(_) => WinddownAllowed(s) && worker.Reporting?
         case DropDone(_) => WinddownAllowed(s) && worker.Finishing?
         case Exit(_) => s.outcome != Running && worker.Idle?
         case _ => false
  }

  /** The loop of the coordinator over received links: the first fills an empty `next`, the rest queue up. */
  function Enqueue(next: Option<Cid>, todo: seq<Cid>, links: seq<Cid>): (Option<Cid>, seq<Cid>)
    decreases |links|
  {
    if links == [] then (next, todo)
    else if next.None? then Enqueue(Some(links[0]), todo, links[1..])
    else Enqueue(next, todo + [links[0]], links[1..])
  }

  function Apply(g: Graph<Cid>, s: State, step: Step): State
    requires Enabled(g, s, step)
  {
    match step
    case SendFeed(w) =>
      var s' := s.(workers := s.workers[w := Fetching(s.next.value)], inProgress := s.inProgress + 1, sent := s.sent + 1);
      if |s.todo| > 0 then s'.(next := Some(s.todo[0]), todo := s.todo[1..]) else s'.(next := None)
    case FetchOk(w) => s.(workers := s.workers[w := Fetched(s.workers[w].c)])
    case FetchError(w) => s.(workers := s.workers[w := Failing(s.workers[w].c)])
    case Visit(w) =>
      var c := s.workers[w].c;
      s.(visited := s.visited + {c}, workers := s.workers[w := if c in s.visited then Finishing else Reporting(c)])
    case RecvLinks(w) =>
      var c := s.workers[w].c;
      var (next, todo) := Enqueue(s.next, s.todo, g[c]);
      s.(next := next, todo := todo, workers := s.workers[w := Finishing], expanded := s.expanded + {c})
    case RecvDone(w) =>
      var s' := s.(workers := s.workers[w := Idle], inProgress := s.inProgress - 1);
      if s'.inProgress == 0 && s.next.None? then s'.(outcome := ReturnedNil) else s'
    case RecvError(w) => s.(workers := s.workers[w := Gone], outcome := ReturnedError)
    case Cancel => s.(cancelled := true)
    case ReturnCancelled => s.(outcome := ReturnedError)
    case DropLinks(w) => s.(workers := s.workers[w := Gone], lost := s.lost + 1)
    case DropDone(w) => s.(workers := s.workers[w := Idle], lost := s.lost + 1)
    case Exit(w) => s.(workers := s.workers[w := Gone])
  }

  /** An interleaving: the states passed through and the steps between them. */
  ghost predicate IsRun(g: Graph<Cid>, root: Cid, n: nat, ss: seq<State>, steps: seq<Step>) {
    && |ss| == |steps| + 1
    && ss[0] == Init(root, n)
    && forall i :: 0 <= i < |steps| ==> Enabled(g, ss[i], steps[i]) && ss[i + 1] == Apply(g, ss[i], steps[i])
  }

  /** The root and everything below it, as far as it can be fetched. */
  ghost function Region(g: Graph<Cid>, root: Cid): set<Cid> {
    set c | c in g && (c == root || Reaches(g, root, c))
  }

  ghost predicate NothingMissing(g: Graph<Cid>, root: Cid) {
    root in g && forall c :: Reaches(g, root, c) ==> c in g
  }

  // ---- counting

  /** The number of links of all nodes in `s` together. */
  ghost function LinkCount(g: Graph<Cid>, s: set<Cid>): nat
    requires s <= g.Keys
  {
    if s == {} then 0 else var c :| c in s; |g[c]| + LinkCount(g, s - {c})
  }

  lemma {:induction false} LinkCountAdd(g: Graph<Cid>, s: set<Cid>, c: Cid)
    requires s <= g.Keys && c in g && c !in s
    ensures LinkCount(g, s + {c}) == LinkCount(g, s) + |g[c]|
    decreases |s|
  {
    var t := s + {c};
    var x :| x in t && LinkCount(g, t) == |g[x]| + LinkCount(g, t - {x});
    if x == c {
      assert t - {c} == s;
    } else {
      assert t - {x} == (s - {x}) + {c};
      LinkCountAdd(g, s - {x}, c);
      LinkCountAdd(g, s - {x}, x);
      assert s - {x} + {x} == s;
    }
  }

  lemma {:induction false} LinkCountMonotone(g: Graph<Cid>, s: set<Cid>, t: set<Cid>)
    requires s <= t <= g.Keys
    ensures LinkCount(g, s) <= LinkCount(g, t)
    decreases |t - s|
  {
    var rest := t - s;
    if rest == {} {
      assert s == t;
    } else {
      var x :| x in rest;
      LinkCountAdd(g, s, x);
      assert t - (s + {x}) < t - s;
      LinkCountMonotone(g, s + {x}, t);
    }
  }

  function Total(ws: seq<Worker>, weight: Worker -> nat): nat {
    if ws == [] then 0 else weight(ws[0]) + Total(ws[1..], weight)
  }

  lemma {:induction false} TotalUpdate(ws: seq<Worker>, w: nat, x: Worker, weight: Worker -> nat)
    requires w < |ws|
    ensures Total(ws[w := x], weight) == Total(ws, weight) - weight(ws[w]) + weight(x)
  {
    if w == 0 {
      assert ws[0 := x][1..] == ws[1..];
    } else {
      assert ws[w := x][1..] == ws[1..][w - 1 := x];
      TotalUpdate(ws[1..], w - 1, x, weight);
    }
  }

  lemma {:induction false} TotalAtLeast(ws: seq<Worker>, w: nat, weight: Worker -> nat)
    requires w < |ws|
    ensures weight(ws[w]) <= Total(ws, weight)
  {
    if w > 0 { TotalAtLeast(ws[1..], w - 1, weight); }
  }

  lemma {:induction false} TotalZero(ws: seq<Worker>, weight: Worker -> nat)
    requires Total(ws, weight) > 0
    ensures exists w :: 0 <= w < |ws| && weight(ws[w]) > 0
  {
    if weight(ws[0]) > 0 {
    } else {
      TotalZero(ws[1..], weight);
      var w :| 0 <= w < |ws[1..]| && weight(ws[1..][w]) > 0;
      assert weight(ws[w + 1]) > 0;
    }
  }

  lemma {:induction false} TotalIdle(n: nat, weight: Worker -> nat)
    ensures Total(seq(n, _ => Idle), weight) == n * weight(Idle)
  {
    if n > 0 {
      assert seq(n, _ => Idle)[1..] == seq(n - 1, _ => Idle);
      TotalIdle(n - 1, weight);
    }
  }

  lemma {:induction false} TotalBounded(ws: seq<Worker>, weight: Worker -> nat)
    requires forall w :: 0 <= w < |ws| ==> weight(ws[w]) <= 1
    ensures Total(ws, weight) <= |ws|
  {
    if ws != [] { TotalBounded(ws[1..], weight); }
  }

  const BUSY: Worker -> nat := (w: Worker) => if w.Idle? || w.Gone? then 0 else 1

  function Busy(ws: seq<Worker>): nat {
    Total(ws, BUSY)
  }

  function QueueOf(next: Option<Cid>, todo: seq<Cid>): seq<Cid> {
    if next.None? then todo else [next.value] + todo
  }

  function Queue(s: State): seq<Cid> {
    QueueOf(s.next, s.todo)
  }

  lemma {:induction false} EnqueueKeepsOrder(next: Option<Cid>, todo: seq<Cid>, links: seq<Cid>)
    requires next.None? ==> todo == []
    ensures var (n, t) := Enqueue(next, todo, links);
      && (n.None? ==> t == [])
      && QueueOf(n, t) == QueueOf(next, todo) + links
    decreases |links|
  {
    if links != [] {
      var first, rest := links[0], links[1..];
      assert links == [first] + rest;
      if next.None? {
        EnqueueKeepsOrder(Some(first), todo, rest);
        assert QueueOf(Some(first), todo) == QueueOf(next, todo) + [first];
      } else {
        EnqueueKeepsOrder(next, todo + [first], rest);
        assert QueueOf(next, todo + [first]) == QueueOf(next, todo) + [first];
      }
      assert (QueueOf(next, todo) + [first]) + rest == QueueOf(next, todo) + links;
    }
  }

  // ---- the invariant

  predicate Holds(w: Worker, c: Cid) {
    (w.Fetching? || w.Fetched? || w.Failing?) && w.c == c
  }

  /** `c` has been visited, or waits in the queue, or is with a worker that has yet to visit it. */
  ghost predicate Accounted(s: State, c: Cid) {
    || c in s.visited
    || c in Queue(s)
    || exists w :: 0 <= w < |s.workers| && Holds(s.workers[w], c)
  }

  ghost predicate Relevant(g: Graph<Cid>, root: Cid, c: Cid) {
    c == root || Reaches(g, root, c)
  }

  ghost predicate Reporter(s: State, c: Cid) {
    exists w :: 0 <= w < |s.workers| && s.workers[w] == Reporting(c)
  }

  /** Only the root and nodes below it are ever handled. */
  ghost predicate OnlyRelevant(g: Graph<Cid>, root: Cid, s: State) {
    && s.visited <= Region(g, root)
    && (forall c :: c in Queue(s) ==> Relevant(g, root, c))
    && (forall w :: 0 <= w < |s.workers| && !s.workers[w].Idle? && !s.workers[w].Finishing? && !s.workers[w].Gone?
          ==> Relevant(g, root, s.workers[w].c))
    && (forall w :: 0 <= w < |s.workers| && (s.workers[w].Fetched? || s.workers[w].Reporting?) ==> s.workers[w].c in g)
  }

  /** Each visited node is expanded once: it has been, or one worker is about to. */
  ghost predicate ExpandedOnce(s: State) {
    && s.expanded <= s.visited
    && (forall w :: 0 <= w < |s.workers| && s.workers[w].Reporting? ==>
          s.workers[w].c in s.visited && s.workers[w].c !in s.expanded)
    && (forall v, w :: 0 <= v < w < |s.workers| && s.workers[v].Reporting? && s.workers[w].Reporting? ==>
          s.workers[v].c != s.workers[w].c)
    && (s.lost == 0 ==> forall c :: c in s.visited ==> c in s.expanded || Reporter(s, c))
  }

  /** No link of an expanded node is forgotten while the coordinator runs. */
  ghost predicate NothingForgotten(g: Graph<Cid>, root: Cid, s: State) {
    s.outcome != ReturnedError ==>
      && Accounted(s, root)
      && forall v, c :: v in s.expanded && v in g && c in g[v] ==> Accounted(s, c)
  }

  ghost predicate Counters(g: Graph<Cid>, root: Cid, n: nat, s: State) {
    && |s.workers| == n
    && (s.next.None? ==> s.todo == [])
    && (s.outcome != ReturnedError ==> s.inProgress == Busy(s.workers) + s.lost)
    && (s.outcome == Running && s.inProgress == 0 ==> s.next.Some?)
    && (s.outcome == ReturnedNil ==> s.inProgress == 0 && s.next.None?)
    && (!s.cancelled && s.outcome == Running ==> s.lost == 0)
    && (s.outcome == Running && s.lost == 0 ==> Gone !in s.workers)
    && s.expanded <= Region(g, root)
    && s.sent + |Queue(s)| == 1 + LinkCount(g, s.expanded)
  }

  ghost predicate Inv(g: Graph<Cid>, root: Cid, n: nat, s: State) {
    OnlyRelevant(g, root, s) && ExpandedOnce(s) && NothingForgotten(g, root, s) && Counters(g, root, n, s)
  }

  lemma InitInv(g: Graph<Cid>, root: Cid, n: nat)
    ensures Inv(g, root, n, Init(root, n))
  {
    TotalIdle(n, BUSY);
  }

  /** How the queue of keys to be fed changes: the first leaves it, or the links of a node join it, or it stays. */
  lemma StepQueue(g: Graph<Cid>, s: State, step: Step)
    requires Enabled(g, s, step) && (s.next.None? ==> s.todo == [])
    ensures var q := Queue(Apply(g, s, step));
      if step.SendFeed? then Queue(s) == [s.next.value] + q
      else if step.RecvLinks? then q == Queue(s) + g[s.workers[step.w].c]
      else q == Queue(s)
    ensures Apply(g, s, step).next.None? ==> Apply(g, s, step).todo == []
  {
    if step.SendFeed? {
      FeedQueue(g, s, step);
    } else if step.RecvLinks? {
      EnqueueKeepsOrder(s.next, s.todo, g[s.workers[step.w].c]);
    }
  }

  lemma FeedQueue(g: Graph<Cid>, s: State, step: Step)
    requires Enabled(g, s, step) && step.SendFeed?
    ensures Queue(s) == [s.next.value] + Queue(Apply(g, s, step))
    ensures Apply(g, s, step).next.None? ==> Apply(g, s, step).todo == []
  {
    if s.todo != [] {
      assert s.todo == [s.todo[0]] + s.todo[1..];
    }
  }

  lemma LinkRelevant(g: Graph<Cid>, root: Cid, c: Cid, x: Cid)
    requires Relevant(g, root, c) && c in g && x in g[c]
    ensures Relevant(g, root, x)
  {
    if c == root { OneLink(g, {}, root, x); } else { Append(g, root, c, x); }
  }

  lemma StepQueueRelevant(g: Graph<Cid>, root: Cid, n: nat, s: State, step: Step, x: Cid)
    requires Inv(g, root, n, s) && Enabled(g, s, step) && x in Queue(Apply(g, s, step))
    ensures Relevant(g, root, x)
  {
    StepQueue(g, s, step);
    if x !in Queue(s) {
      LinkRelevant(g, root, s.workers[step.w].c, x);
    }
  }

  /** A worker is given only the first key of the queue; otherwise it keeps its key. */
  lemma StepWorker(g: Graph<Cid>, s: State, step: Step, w: nat)
    requires Enabled(g, s, step) && w < |s.workers|
    ensures var v, v' := s.workers[w], Apply(g, s, step).workers[w];
      || v' == v
      || v'.Idle? || v'.Finishing? || v'.Gone?
      || (Queue(s) != [] && v' == Fetching(Queue(s)[0]))
      || (v.Fetching? && v'.c == v.c && (v'.Fetched? ==> v.c in g))
      || (v.Fetched? && v' == Reporting(v.c) && v.c in g)
  {
  }

  lemma StepWorkersRelevant(g: Graph<Cid>, root: Cid, n: nat, s: State, step: Step, w: nat)
    requires Inv(g, root, n, s) && Enabled(g, s, step) && w < |s.workers|
    ensures var v' := Apply(g, s, step).workers[w];
      && (!v'.Idle? && !v'.Finishing? && !v'.Gone? ==> Relevant(g, root, v'.c))
      && (v'.Fetched? || v'.Reporting? ==> v'.c in g)
  {
    StepWorker(g, s, step, w);
    if Queue(s) != [] {
      assert Queue(s)[0] in Queue(s);
    }
  }

  lemma StepOnlyRelevant(g: Graph<Cid>, root: Cid, n: nat, s: State, step: Step)
    requires Inv(g, root, n, s) && Enabled(g, s, step)
    ensures OnlyRelevant(g, root, Apply(g, s, step))
  {
    var s' := Apply(g, s, step);
    forall x | x in Queue(s') ensures Relevant(g, root, x) {
      StepQueueRelevant(g, root, n, s, step, x);
    }
    assert |s'.workers| == |s.workers|;
    forall w | 0 <= w < |s'.workers|
      ensures !s'.workers[w].Idle? && !s'.workers[w].Finishing? && !s'.workers[w].Gone? ==> Relevant(g, root, s'.workers[w].c)
      ensures s'.workers[w].Fetched? || s'.workers[w].Reporting? ==> s'.workers[w].c in g
    {
      StepWorkersRelevant(g, root, n, s, step, w);
    }
  }

  lemma StepReportersFresh(g: Graph<Cid>, root: Cid, n: nat, s: State, step: Step, w: nat)
    requires Inv(g, root, n, s) && Enabled(g, s, step)
    requires w < |Apply(g, s, step).workers| && Apply(g, s, step).workers[w].Reporting?
    ensures var s' := Apply(g, s, step); s'.workers[w].c in s'.visited && s'.workers[w].c !in s'.expanded
    ensures w < |s.workers| && (s.workers[w] == Apply(g, s, step).workers[w] || (step == Visit(w) && s.workers[w].c !in s.visited))
  {
    assert s.workers[w].Reporting? ==> s.workers[w].c !in s.expanded;
    if step.RecvLinks? && step.w != w {
      assert s.workers[w].c != s.workers[step.w].c;
    }
  }

  lemma StepExpandedOnce(g: Graph<Cid>, root: Cid, n: nat, s: State, step: Step)
    requires Inv(g, root, n, s) && Enabled(g, s, step)
    ensures ExpandedOnce(Apply(g, s, step))
  {
    var s' := Apply(g, s, step);
    forall w | 0 <= w < |s'.workers| && s'.workers[w].Reporting?
      ensures s'.workers[w].c in s'.visited && s'.workers[w].c !in s'.expanded
    {
      StepReportersFresh(g, root, n, s, step, w);
    }
    forall v, w | 0 <= v < w < |s'.workers| && s'.workers[v].Reporting? && s'.workers[w].Reporting?
      ensures s'.workers[v].c != s'.workers[w].c
    {
      StepReportersFresh(g, root, n, s, step, v);
      StepReportersFresh(g, root, n, s, step, w);
    }
    if s'.lost == 0 {
      forall c | c in s'.visited ensures c in s'.expanded || Reporter(s', c) {
        StepKeepsReporter(g, s, step, c);
      }
    }
  }

  lemma StepKeepsReporter(g: Graph<Cid>, s: State, step: Step, c: Cid)
    requires Enabled(g, s, step) && ExpandedOnce(s)
    requires c in Apply(g, s, step).visited && Apply(g, s, step).lost == 0
    ensures c in Apply(g, s, step).expanded || Reporter(Apply(g, s, step), c)
  {
    var s' := Apply(g, s, step);
    if c !in s.visited {
      assert s'.workers[step.w] == Reporting(c);
    } else if c !in s.expanded {
      var w :| 0 <= w < |s.workers| && s.workers[w] == Reporting(c);
      assert s'.workers[w] == Reporting(c) || c in s'.expanded;
    }
  }

  lemma KeepAccounted(g: Graph<Cid>, root: Cid, n: nat, s: State, step: Step, c: Cid)
    requires Inv(g, root, n, s) && Enabled(g, s, step) && Accounted(s, c)
    requires Apply(g, s, step).outcome != ReturnedError
    ensures Accounted(Apply(g, s, step), c)
  {
    var s' := Apply(g, s, step);
    if c in s.visited {
    } else if c in Queue(s) {
      StepQueue(g, s, step);
      if step.SendFeed? {
        assert Holds(s'.workers[step.w], s.next.value);
      }
    } else {
      var w :| 0 <= w < |s.workers| && Holds(s.workers[w], c);
      assert s'.workers[w] == s.workers[w] || Holds(s'.workers[w], c) || c in s'.visited;
    }
  }

  lemma StepNothingForgotten(g: Graph<Cid>, root: Cid, n: nat, s: State, step: Step)
    requires Inv(g, root, n, s) && Enabled(g, s, step)
    ensures NothingForgotten(g, root, Apply(g, s, step))
  {
    var s' := Apply(g, s, step);
    if s'.outcome != ReturnedError {
      KeepAccounted(g, root, n, s, step, root);
      forall v, c | v in s'.expanded && v in g && c in g[v] ensures Accounted(s', c) {
        if v in s.expanded {
          KeepAccounted(g, root, n, s, step, c);
        } else {
          StepQueue(g, s, step);
        }
      }
    }
  }

  lemma StepBusy(g: Graph<Cid>, root: Cid, n: nat, s: State, step: Step)
    requires Inv(g, root, n, s) && Enabled(g, s, step)
    ensures var s' := Apply(g, s, step);
      s'.outcome != ReturnedError ==> s'.inProgress == Busy(s'.workers) + s'.lost
  {
    var s' := Apply(g, s, step);
    if !step.Cancel? && !step.ReturnCancelled? {
      TotalUpdate(s.workers, step.w, s'.workers[step.w], BUSY);
    }
  }

  lemma StepSent(g: Graph<Cid>, root: Cid, n: nat, s: State, step: Step)
    requires Inv(g, root, n, s) && Enabled(g, s, step)
    ensures var s' := Apply(g, s, step);
      && (s'.next.None? ==> s'.todo == [])
      && s'.expanded <= Region(g, root)
      && s'.sent + |Queue(s')| == 1 + LinkCount(g, s'.expanded)
  {
    StepQueue(g, s, step);
    if step.RecvLinks? {
      LinkCountAdd(g, s.expanded, s.workers[step.w].c);
    }
  }

  lemma StepCounters(g: Graph<Cid>, root: Cid, n: nat, s: State, step: Step)
    requires Inv(g, root, n, s) && Enabled(g, s, step)
    ensures Counters(g, root, n, Apply(g, s, step))
  {
    StepBusy(g, root, n, s, step);
    StepSent(g, root, n, s, step);
    if !step.Cancel? && !step.ReturnCancelled? {
      TotalAtLeast(s.workers, step.w, BUSY);
    }
  }

  lemma StepInv(g: Graph<Cid>, root: Cid, n: nat, s: State, step: Step)
    requires Inv(g, root, n, s) && Enabled(g, s, step)
    ensures Inv(g, root, n, Apply(g, s, step))
  {
    StepOnlyRelevant(g, root, n, s, step);
    StepExpandedOnce(g, root, n, s, step);
    StepNothingForgotten(g, root, n, s, step);
    StepCounters(g, root, n, s, step);
  }

  /** The invariant holds at every point of every interleaving, fetch errors and cancellation included. */
  lemma {:induction false} RunInv(g: Graph<Cid>, root: Cid, n: nat, ss: seq<State>, steps: seq<Step>, i: nat)
    requires IsRun(g, root, n, ss, steps) && i < |ss|
    ensures Inv(g, root, n, ss[i])
  {
    if i == 0 {
      InitInv(g, root, n);
    } else {
      RunInv(g, root, n, ss, steps, i - 1);
      StepInv(g, root, n, ss[i - 1], steps[i - 1]);
    }
  }

  // ---- safety

  lemma NilMeansExact(g: Graph<Cid>, root: Cid, n: nat, s: State)
    requires Inv(g, root, n, s) && s.outcome == ReturnedNil
    ensures s.visited == s.expanded == Region(g, root) && NothingMissing(g, root)
    ensures s.sent == 1 + LinkCount(g, Region(g, root))
  {
    forall w | 0 <= w < |s.workers| ensures s.workers[w].Idle? || s.workers[w].Gone? {
      TotalAtLeast(s.workers, w, BUSY);
    }
    assert Queue(s) == [] && s.lost == 0;
    assert s.visited <= s.expanded;
    assert Accounted(s, root) && root in s.visited;
    forall v, c | v in s.visited && c in g[v] ensures c in s.visited {
      assert Accounted(s, c);
    }
    ClosedHoldsReached(g, {}, s.visited, root);
  }

  /** Whenever the concurrent walk returns nil, whatever the interleaving and even if fetches failed or the
      context was cancelled on the way, it has visited exactly the root and every node below it, and every
      one of them could be fetched. Each was expanded once: feed carried one key more than there are links. */
  lemma AsyncWalkIsExact(g: Graph<Cid>, root: Cid, n: nat, ss: seq<State>, steps: seq<Step>, i: nat)
    requires IsRun(g, root, n, ss, steps) && i < |ss| && ss[i].outcome == ReturnedNil
    ensures NothingMissing(g, root)
    ensures forall c :: c in ss[i].visited <==> c == root || Reaches(g, root, c)
    ensures Sends(steps[..i]) == 1 + LinkCount(g, Region(g, root))
  {
    SentExactly(g, root, n, ss, steps, i);
    RunInv(g, root, n, ss, steps, i);
    NilMeansExact(g, root, n, ss[i]);
  }

  /** The concurrent walk visits the root and whatever the sequential walk visits from an empty set. */
  lemma AsyncAgreesWithSequential(g: Graph<Cid>, root: Cid, n: nat, ss: seq<State>, steps: seq<Step>, i: nat, seen: set<Cid>)
    requires IsRun(g, root, n, ss, steps) && i < |ss| && ss[i].outcome == ReturnedNil
    ensures !Walk.MissesNode(g, {}, root)
    ensures Walk.Explored(g, {}, root, seen) ==> ss[i].visited == seen + {root}
  {
    AsyncWalkIsExact(g, root, n, ss, steps, i);
  }

  // ---- the counter, the bound on sends, progress and termination

  /** How many keys were sent on feed. */
  function Sends(steps: seq<Step>): nat {
    if steps == [] then 0 else Sends(steps[..|steps| - 1]) + if steps[|steps| - 1].SendFeed? then 1 else 0
  }

  lemma {:induction false} SentExactly(g: Graph<Cid>, root: Cid, n: nat, ss: seq<State>, steps: seq<Step>, i: nat)
    requires IsRun(g, root, n, ss, steps) && i < |ss|
    ensures ss[i].sent == Sends(steps[..i])
  {
    if i > 0 {
      SentExactly(g, root, n, ss, steps, i - 1);
      assert steps[..i][..i - 1] == steps[..i - 1];
      assert ss[i - 1 + 1] == Apply(g, ss[i - 1], steps[i - 1]);
    }
  }

  /** While the context is live, inProgress is the number of busy workers, hence at most their number,
      and feed has carried at most one key more than the links below the root. */
  lemma InProgressCountsBusyWorkers(g: Graph<Cid>, root: Cid, n: nat, ss: seq<State>, steps: seq<Step>, i: nat)
    requires IsRun(g, root, n, ss, steps) && i < |ss|
    ensures ss[i].outcome == Running && !ss[i].cancelled ==> ss[i].inProgress == Busy(ss[i].workers) <= n
    ensures Sends(steps[..i]) == ss[i].sent <= 1 + LinkCount(g, Region(g, root))
  {
    SentExactly(g, root, n, ss, steps, i);
    RunInv(g, root, n, ss, steps, i);
    TotalBounded(ss[i].workers, BUSY);
    LinkCountMonotone(g, ss[i].expanded, Region(g, root));
  }

  /** A step of an undisturbed run: no cancellation and no fetch error. */
  predicate Healthy(step: Step) {
    !step.Cancel? && !step.FetchError?
  }

  /** No deadlock: with at least one worker, some step is possible until the coordinator returns. It can be
      taken to be a healthy one if the context is live, no fetch has failed and no node is missing. */
  lemma SomeStepEnabled(g: Graph<Cid>, root: Cid, n: nat, s: State) returns (step: Step)
    requires n > 0 && Inv(g, root, n, s) && s.outcome == Running
    ensures Enabled(g, s, step)
    ensures !s.cancelled && NothingMissing(g, root) ==> Healthy(step)
  {
    if s.cancelled {
      step := ReturnCancelled;
    } else if Busy(s.workers) > 0 {
      TotalZero(s.workers, BUSY);
      var w :| 0 <= w < |s.workers| && BUSY(s.workers[w]) > 0;
      var worker := s.workers[w];
      step :=
        if worker.Fetching? then (if worker.c in g then FetchOk(w) else FetchError(w))
        else if worker.Fetched? then Visit(w)
        else if worker.Reporting? then RecvLinks(w)
        else if worker.Finishing? then RecvDone(w)
        else RecvError(w);
    } else {
      TotalAtLeast(s.workers, 0, BUSY);
      assert s.workers[0] in s.workers;
      step := SendFeed(0);
    }
  }

  const WORK: Worker -> nat := (w: Worker) =>
    match w
    case Gone => 0
    case Idle => 1
    case Finishing => 2
    case Failing(_) => 2
    case Reporting(_) => 3
    case Fetched(_) => 4
    case Fetching(_) => 5

  /** An upper bound on the number of steps still possible. */
  ghost function Measure(g: Graph<Cid>, root: Cid, s: State): int {
    5 * (1 + LinkCount(g, Region(g, root)) - s.sent) + Remaining(s)
  }

  function Remaining(s: State): nat {
    Total(s.workers, WORK) + (if s.cancelled then 0 else 1) + (if s.outcome == Running then 1 else 0)
  }

  /** A send on feed gives a worker up to four more steps; every other step is one less to do. */
  lemma RemainingFalls(g: Graph<Cid>, s: State, step: Step)
    requires Enabled(g, s, step)
    ensures var s' := Apply(g, s, step);
      if step.SendFeed? then Remaining(s') == Remaining(s) + 4 && s'.sent == s.sent + 1
      else Remaining(s') < Remaining(s) && s'.sent == s.sent
  {
    if !step.Cancel? && !step.ReturnCancelled? {
      TotalUpdate(s.workers, step.w, Apply(g, s, step).workers[step.w], WORK);
    }
  }

  lemma MeasureFalls(g: Graph<Cid>, root: Cid, n: nat, s: State, step: Step)
    requires Inv(g, root, n, s) && Enabled(g, s, step)
    ensures Measure(g, root, Apply(g, s, step)) < Measure(g, root, s)
  {
    RemainingFalls(g, s, step);
  }

  lemma MeasureBounds(g: Graph<Cid>, root: Cid, n: nat, s: State)
    requires Inv(g, root, n, s)
    ensures Measure(g, root, s) >= 0
  {
    LinkCountMonotone(g, s.expanded, Region(g, root));
  }

  lemma {:induction false} MeasureAlongRun(g: Graph<Cid>, root: Cid, n: nat, ss: seq<State>, steps: seq<Step>, i: nat)
    requires IsRun(g, root, n, ss, steps) && i < |ss|
    ensures Measure(g, root, ss[i]) + i <= Measure(g, root, Init(root, n))
  {
    if i > 0 {
      MeasureAlongRun(g, root, n, ss, steps, i - 1);
      RunInv(g, root, n, ss, steps, i - 1);
      MeasureFalls(g, root, n, ss[i - 1], steps[i - 1]);
    }
  }

  /** Every interleaving ends: its length is bounded by the links below the root and the number of workers. */
  lemma RunsAreBounded(g: Graph<Cid>, root: Cid, n: nat, ss: seq<State>, steps: seq<Step>)
    requires IsRun(g, root, n, ss, steps)
    ensures |steps| <= 5 * (1 + LinkCount(g, Region(g, root))) + n + 2
  {
    MeasureAlongRun(g, root, n, ss, steps, |steps|);
    RunInv(g, root, n, ss, steps, |steps|);
    MeasureBounds(g, root, n, ss[|steps|]);
    TotalIdle(n, WORK);
  }

  lemma {:induction false} HealthyRunsDoNotFail(g: Graph<Cid>, root: Cid, n: nat, ss: seq<State>, steps: seq<Step>, i: nat)
    requires IsRun(g, root, n, ss, steps) && i < |ss| && forall j :: 0 <= j < |steps| ==> Healthy(steps[j])
    ensures !ss[i].cancelled && ss[i].outcome != ReturnedError
    ensures forall w :: 0 <= w < |ss[i].workers| ==> !ss[i].workers[w].Failing?
  {
    if i > 0 {
      HealthyRunsDoNotFail(g, root, n, ss, steps, i - 1);
      assert Healthy(steps[i - 1]);
    }
  }

  /** Undisturbed runs succeed: one that no healthy step can extend has returned nil with the exact visited set. */
  lemma UndisturbedRunsSucceed(g: Graph<Cid>, root: Cid, n: nat, ss: seq<State>, steps: seq<Step>)
    requires n > 0 && NothingMissing(g, root)
    requires IsRun(g, root, n, ss, steps) && forall j :: 0 <= j < |steps| ==> Healthy(steps[j])
    requires forall step :: Healthy(step) ==> !Enabled(g, ss[|steps|], step)
    ensures ss[|steps|].outcome == ReturnedNil && ss[|steps|].visited == Region(g, root)
  {
    var last := ss[|steps|];
    RunInv(g, root, n, ss, steps, |steps|);
    HealthyRunsDoNotFail(g, root, n, ss, steps, |steps|);
    if last.outcome == Running {
      var step := SomeStepEnabled(g, root, n, last);
      assert false;
    }
    NilMeansExact(g, root, n, last);
  }
}
