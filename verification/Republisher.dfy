/** The republisher of the files root (mfs/system.go): callers of Update and WaitPub beside the loop of Run, one step at
    a time, in any interleaving. Time-outs may fire at any moment; publishing may fail. */
module Republisher {
  import opened Basics

  /** A root, compared by identity as the source compares pointers. */
  type Root = nat

  /** Where Run stands. Roots are named by their place in the history of updates; `resp` is the caller of WaitPub to be
      answered after publishing. */
  datatype Loop =
    | Idle
    | Gathering
    | Starting(resp: Option<nat>)
    | Calling(topub: nat, resp: Option<nat>)
    | Storing(topub: nat, resp: Option<nat>)
    | Answering(waiter: nat, published: Option<nat>)

  /** A call of WaitPub made when `since` was the current root. */
  datatype Waiter =
    | Asking(since: nat)
    | Awaiting(since: nat)
    | Returned(since: nat, published: Option<nat>)

  datatype State = State(
    history: seq<Root>,         // every root set, the current one last; the first stands for none
    initial: nat,               // the root that NewRoot sets, without a signal, before Run starts
    lastpub: nat,
    token: bool,                // the Publish channel holds a signal
    updating: nat,              // calls of Update that have set the root but not signalled yet
    loop: Loop,
    waiters: map<nat, Waiter>,
    attempt: nat,               // the root that was published last, successfully or not
    succeeded: bool)

  datatype Event =
    | SetVal(root: Root)
    | Signal
    | Take
    | TimeOut
    | Accept(waiter: nat)
    | ReadVal
    | PublishFails
    | PublishSucceeds
    | StoreVal
    | Answer
    | WaitPub(waiter: nat)

  const NO_ROOT: Root := 0

  /** A new republisher, on its own or with the root that NewRoot gives it. */
  function Start(root: Option<Root>): State {
    if root.None? then State([NO_ROOT], 0, 0, false, 0, Idle, map[], 0, true)
    else State([NO_ROOT, root.value], 1, 0, false, 0, Idle, map[], 0, true)
  }

  function Latest(s: State): nat
    requires s.history != []
  {
    |s.history| - 1
  }

  predicate Indexed(s: State) {
    && s.lastpub <= s.attempt < |s.history|
    && ((s.loop.Calling? || s.loop.Storing?) ==> s.loop.topub == s.attempt)
  }

  /** WaitPub returns at once if the current root is the one published last. */
  predicate Consistent(s: State)
    requires Indexed(s)
  {
    s.history[s.lastpub] == s.history[Latest(s)]
  }

  predicate Can(s: State, e: Event)
    requires Indexed(s)
  {
    match e
    case SetVal(_) => true
    case Signal => s.updating > 0
    case Take => (s.loop.Idle? || s.loop.Gathering?) && s.token
    case TimeOut => s.loop.Gathering?
    case Accept(w) => s.loop.Gathering? && w in s.waiters && s.waiters[w].Asking?
    case ReadVal => s.loop.Starting?
    case PublishFails => s.loop.Calling?
    case PublishSucceeds => s.loop.Calling?
    case StoreVal => s.loop.Storing?
    case Answer => s.loop.Answering? && s.loop.waiter in s.waiters && s.waiters[s.loop.waiter].Awaiting?
    case WaitPub(w) => w !in s.waiters
  }

  /** What follows publishing: the answer, if somebody waits for one. */
  function Rest(resp: Option<nat>, published: Option<nat>): Loop {
    if resp.Some? then Answering(resp.value, published) else Idle
  }

  function Do(s: State, e: Event): (t: State)
    requires Indexed(s) && Can(s, e)
    ensures Indexed(t)
  {
    match e
    case SetVal(root) => s.(history := s.history + [root], updating := s.updating + 1)
    case Signal => s.(updating := s.updating - 1, token := true)
    case Take => s.(token := false, loop := Gathering)
    case TimeOut => s.(loop := Starting(None))
    case Accept(w) => s.(waiters := s.waiters[w := Awaiting(s.waiters[w].since)], loop := Starting(Some(w)))
    case ReadVal => s.(attempt := Latest(s), loop := Calling(Latest(s), s.loop.resp))
    case PublishFails => s.(succeeded := false, loop := Rest(s.loop.resp, None))
    case PublishSucceeds => s.(loop := Storing(s.loop.topub, s.loop.resp))
    case StoreVal => s.(succeeded := true, lastpub := s.loop.topub, loop := Rest(s.loop.resp, Some(s.loop.topub)))
    case Answer => s.(loop := Idle,
                     waiters := s.waiters[s.loop.waiter := Returned(s.waiters[s.loop.waiter].since, s.loop.published)])
    case WaitPub(w) => s.(waiters := s.waiters[w := if Consistent(s) then Returned(Latest(s), Some(s.lastpub)) else Asking(Latest(s))])
  }

  predicate IsRun(s: State, events: seq<Event>)
    requires Indexed(s)
    decreases |events|
  {
    events == [] || (Can(s, events[0]) && IsRun(Do(s, events[0]), events[1..]))
  }

  function End(s: State, events: seq<Event>): (t: State)
    requires Indexed(s) && IsRun(s, events)
    ensures Indexed(t)
    decreases |events|
  {
    if events == [] then s else End(Do(s, events[0]), events[1..])
  }

  // ---- what every step keeps

  /** A root set by Update and not yet taken up for publishing has a signal on its way to Run. Before the first Update
      nothing happens at all. */
  predicate NothingForgotten(s: State)
    requires Indexed(s)
  {
    && s.initial <= Latest(s)
    && if Latest(s) == s.initial then AtRest(s) && s.attempt == 0
       else s.token || s.updating > 0 || s.loop.Gathering? || s.loop.Starting? || s.attempt == Latest(s)
  }

  predicate AtRest(s: State) {
    s.loop.Idle? && !s.token && s.updating == 0
  }

  predicate Settled(s: State) {
    (s.loop.Idle? || s.loop.Gathering? || s.loop.Starting? || s.loop.Answering?) && s.succeeded ==> s.lastpub == s.attempt
  }

  /** Whom Run owes an answer. */
  function Debt(loop: Loop): Option<nat> {
    match loop
    case Starting(resp) => resp
    case Calling(_, resp) => resp
    case Storing(_, resp) => resp
    case Answering(w, _) => Some(w)
    case _ => None
  }

  /** Run owes an answer to nobody but the one caller it has accepted, and publishes no older root for it. */
  ghost predicate Answerable(s: State)
    requires Indexed(s)
  {
    && (forall w :: w in s.waiters && s.waiters[w].Awaiting? <==> Debt(s.loop) == Some(w))
    && (forall w :: w in s.waiters ==> s.waiters[w].since <= Latest(s))
    && (Debt(s.loop).Some? && (s.loop.Calling? || s.loop.Storing?) ==> s.waiters[Debt(s.loop).value].since <= s.attempt)
    && (s.loop.Answering? && s.loop.published.Some? ==>
          s.waiters[s.loop.waiter].since <= s.loop.published.value <= s.lastpub)
  }

  /** A call of WaitPub that returned without a failed publish: its root, or a later one, has been published. */
  predicate Kept(s: State, w: Waiter)
    requires Indexed(s)
  {
    w.Returned? && w.published.Some? ==>
      && w.published.value <= s.lastpub
      && (w.since <= w.published.value || (w.since < |s.history| && s.history[w.published.value] == s.history[w.since]))
  }

  ghost predicate Inv(s: State) {
    Indexed(s) && NothingForgotten(s) && Settled(s) && Answerable(s) && forall w :: w in s.waiters ==> Kept(s, s.waiters[w])
  }

  lemma StepAnswerable(s: State, e: Event)
    requires Indexed(s) && Answerable(s) && Can(s, e)
    ensures Answerable(Do(s, e))
  {
  }

  lemma StepKept(s: State, e: Event, w: nat)
    requires Indexed(s) && Answerable(s) && Can(s, e) && w in Do(s, e).waiters
    requires w in s.waiters ==> Kept(s, s.waiters[w])
    ensures Kept(Do(s, e), Do(s, e).waiters[w])
  {
  }

  lemma StepInv(s: State, e: Event)
    requires Inv(s) && Can(s, e)
    ensures Inv(Do(s, e))
  {
    StepAnswerable(s, e);
    forall w | w in Do(s, e).waiters
      ensures Kept(Do(s, e), Do(s, e).waiters[w])
    {
      StepKept(s, e, w);
    }
  }

  lemma {:induction false} RunInv(s: State, events: seq<Event>)
    requires Inv(s) && IsRun(s, events)
    ensures Inv(End(s, events)) && s.lastpub <= End(s, events).lastpub && s.history <= End(s, events).history
    decreases |events|
  {
    if events != [] {
      StepInv(s, events[0]);
      RunInv(Do(s, events[0]), events[1..]);
    }
  }

  // ---- runs

  lemma {:induction false} RunOn(s: State, first: seq<Event>, second: seq<Event>)
    requires Indexed(s) && IsRun(s, first) && IsRun(End(s, first), second)
    ensures IsRun(s, first + second) && End(s, first + second) == End(End(s, first), second)
    decreases |first|
  {
    if first == [] {
      assert first + second == second;
    } else {
      RunOn(Do(s, first[0]), first[1..], second);
      assert (first + second)[1..] == first[1..] + second;
    }
  }

  lemma Step(s: State, e: Event)
    requires Indexed(s) && Can(s, e)
    ensures IsRun(s, [e]) && End(s, [e]) == Do(s, e)
  {
    assert [e][1..] == [];
    assert IsRun(Do(s, e), []);
  }

  lemma Extend(s: State, events: seq<Event>, e: Event)
    requires Indexed(s) && IsRun(s, events) && Can(End(s, events), e)
    ensures IsRun(s, events + [e]) && End(s, events + [e]) == Do(End(s, events), e)
  {
    Step(End(s, events), e);
    RunOn(s, events, [e]);
  }

  /** Nobody calls Update. */
  predicate NoUpdates(events: seq<Event>) {
    forall i :: 0 <= i < |events| ==> !events[i].SetVal?
  }

  /** The roots that were set, in order. */
  function RootsSet(events: seq<Event>): seq<Root> {
    if events == [] then [] else (if events[0].SetVal? then [events[0].root] else []) + RootsSet(events[1..])
  }

  lemma StepHistory(s: State, e: Event)
    requires Indexed(s) && Can(s, e)
    ensures Do(s, e).history == s.history + (if e.SetVal? then [e.root] else []) && Do(s, e).initial == s.initial
  {
  }

  lemma {:induction false} HistoryIsRootsSet(s: State, events: seq<Event>)
    requires Indexed(s) && IsRun(s, events)
    ensures End(s, events).history == s.history + RootsSet(events) && End(s, events).initial == s.initial
    decreases |events|
  {
    if events != [] {
      var t, first, later := Do(s, events[0]), if events[0].SetVal? then [events[0].root] else [], RootsSet(events[1..]);
      StepHistory(s, events[0]);
      HistoryIsRootsSet(t, events[1..]);
      assert (s.history + first) + later == s.history + (first + later);
    }
  }

  lemma {:induction false} NoRootsNoUpdates(events: seq<Event>)
    ensures RootsSet(events) == [] <==> NoUpdates(events)
  {
    if events != [] {
      NoRootsNoUpdates(events[1..]);
      assert forall i :: 0 < i < |events| ==> events[i] == events[1..][i - 1];
    }
  }

  /** How the last attempt at publishing ended: `before`, unless one of these steps says otherwise. */
  function LastOutcome(before: bool, events: seq<Event>): bool
    decreases |events|
  {
    if events == [] then before
    else LastOutcome(if events[0].PublishFails? then false else if events[0].StoreVal? then true else before, events[1..])
  }

  lemma {:induction false} SucceededExactly(s: State, events: seq<Event>)
    requires Indexed(s) && IsRun(s, events)
    ensures End(s, events).succeeded == LastOutcome(s.succeeded, events)
    decreases |events|
  {
    if events != [] { SucceededExactly(Do(s, events[0]), events[1..]); }
  }

  lemma {:induction false} NoFailureNoFlag(before: bool, events: seq<Event>)
    requires before && PublishFails !in events
    ensures LastOutcome(before, events)
    decreases |events|
  {
    if events != [] {
      assert events[0] in events && forall e :: e in events[1..] ==> e in events;
      NoFailureNoFlag(true, events[1..]);
    }
  }

  lemma {:induction false} SplitRun(s: State, events: seq<Event>, k: nat)
    requires Indexed(s) && IsRun(s, events) && k <= |events|
    ensures IsRun(s, events[..k]) && IsRun(End(s, events[..k]), events[k..])
    ensures End(End(s, events[..k]), events[k..]) == End(s, events)
    decreases |events|
  {
    if k == 0 {
      assert events[..0] == [] && events[0..] == events;
    } else {
      SplitRun(Do(s, events[0]), events[1..], k - 1);
      assert events[..k][1..] == events[1..][..k - 1] && events[k..] == events[1..][k - 1..];
    }
  }

  lemma StartInv(root: Option<Root>)
    ensures Inv(Start(root))
  {
  }

  // ---- what is published

  /** No update is lost: at rest, with the last attempt at publishing a success, the root published last is the one set
      last, exactly if there was an Update at all or no root to begin with. The root NewRoot sets is not an update. */
  lemma NoLostUpdate(root: Option<Root>, events: seq<Event>)
    requires IsRun(Start(root), events) && AtRest(End(Start(root), events)) && LastOutcome(true, events)
    ensures var s := End(Start(root), events);
      && s.history == Start(root).history + RootsSet(events)
      && (s.lastpub == Latest(s) <==> root.None? || !NoUpdates(events))
  {
    StartInv(root);
    RunInv(Start(root), events);
    HistoryIsRootsSet(Start(root), events);
    NoRootsNoUpdates(events);
    SucceededExactly(Start(root), events);
  }

  /** In particular when publishing never fails. */
  lemma NoLostUpdateWithoutFailure(root: Option<Root>, events: seq<Event>)
    requires IsRun(Start(root), events) && AtRest(End(Start(root), events)) && PublishFails !in events
    ensures var s := End(Start(root), events); s.lastpub == Latest(s) <==> root.None? || !NoUpdates(events)
  {
    NoFailureNoFlag(true, events);
    NoLostUpdate(root, events);
  }

  /** Step `p` of the run from `s` publishes the root set as number `k`, with success. */
  ghost predicate PublishesAt(s: State, events: seq<Event>, p: nat, k: nat)
    requires Indexed(s) && IsRun(s, events) && p < |events|
  {
    SplitRun(s, events, p);
    events[p] == PublishSucceeds && End(s, events[..p]).loop.Calling? && End(s, events[..p]).loop.topub == k
  }

  lemma PublishesLater(s: State, events: seq<Event>, p: nat, k: nat)
    requires Indexed(s) && IsRun(s, events) && 0 < p < |events|
    ensures PublishesAt(s, events, p, k) <==> PublishesAt(Do(s, events[0]), events[1..], p - 1, k)
  {
    SplitRun(s, events, p);
    SplitRun(Do(s, events[0]), events[1..], p - 1);
    assert events[..p][1..] == events[1..][..p - 1];
  }

  lemma {:induction false} LastPubComesFrom(s: State, events: seq<Event>)
    requires Indexed(s) && IsRun(s, events)
    ensures var k := End(s, events).lastpub;
      k == s.lastpub || (s.loop.Storing? && k == s.loop.topub) || exists p :: 0 <= p < |events| && PublishesAt(s, events, p, k)
    decreases |events|
  {
    if events != [] {
      var t, k := Do(s, events[0]), End(s, events).lastpub;
      LastPubComesFrom(t, events[1..]);
      if p :| 0 <= p < |events| - 1 && PublishesAt(t, events[1..], p, k) {
        PublishesLater(s, events, p + 1, k);
        assert PublishesAt(s, events, p + 1, k);
      } else if k != t.lastpub {
        assert t.loop.Storing? && k == t.loop.topub;
        if events[0] == PublishSucceeds { assert PublishesAt(s, events, 0, k); }
      }
    }
  }

  /** The root counted as published last was indeed published. */
  lemma LastPubWasPublished(root: Option<Root>, events: seq<Event>)
    requires IsRun(Start(root), events) && End(Start(root), events).lastpub > 0
    ensures exists p :: 0 <= p < |events| && PublishesAt(Start(root), events, p, End(Start(root), events).lastpub)
  {
    LastPubComesFrom(Start(root), events);
  }

  lemma {:induction false} NothingBeforeFirstUpdate(s: State, events: seq<Event>)
    requires Inv(s) && Latest(s) == s.initial && !Consistent(s) && (forall w :: w in s.waiters ==> s.waiters[w].Asking?)
    requires IsRun(s, events) && NoUpdates(events)
    ensures var t := End(s, events);
      AtRest(t) && t.lastpub == s.lastpub && !Consistent(t) && forall w :: w in t.waiters ==> t.waiters[w].Asking?
    decreases |events|
  {
    if events != [] {
      assert !events[0].SetVal?;
      StepInv(s, events[0]);
      NothingBeforeFirstUpdate(Do(s, events[0]), events[1..]);
    }
  }

  /** Until the first Update the root that NewRoot sets is not published, and every call of WaitPub waits. */
  lemma InitialRootWaits(root: Root, events: seq<Event>)
    requires root != NO_ROOT && IsRun(Start(Some(root)), events) && NoUpdates(events)
    ensures var t := End(Start(Some(root)), events);
      AtRest(t) && t.lastpub == 0 && !Consistent(t) && forall w :: w in t.waiters ==> t.waiters[w].Asking?
  {
    StartInv(Some(root));
    NothingBeforeFirstUpdate(Start(Some(root)), events);
  }

  /** At rest nothing is published any more, be it that the last attempt has failed: only another update helps. */
  lemma {:induction false} FailureIsNotRetried(s: State, events: seq<Event>)
    requires Indexed(s) && AtRest(s) && NoUpdates(events) && IsRun(s, events)
    ensures var t := End(s, events); AtRest(t) && t.lastpub == s.lastpub && t.history == s.history
    decreases |events|
  {
    if events != [] {
      assert !events[0].SetVal?;
      FailureIsNotRetried(Do(s, events[0]), events[1..]);
    }
  }

  /** A call of WaitPub that returns without a failed publish does so after its root, or a later one, was published. */
  lemma WaitPubWaits(root: Option<Root>, events: seq<Event>, w: nat)
    requires IsRun(Start(root), events)
    ensures var s := End(Start(root), events);
      w in s.waiters && s.waiters[w].Returned? && s.waiters[w].published.Some? ==>
        var since, k := s.waiters[w].since, s.waiters[w].published.value;
        since < |s.history| && k <= s.lastpub && (since <= k || s.history[k] == s.history[since])
  {
    StartInv(root);
    RunInv(Start(root), events);
    var s := End(Start(root), events);
    if w in s.waiters && s.waiters[w].Returned? && s.waiters[w].published.Some? {
      assert Kept(s, s.waiters[w]);
      assert s.waiters[w].since <= Latest(s);
    }
  }

  // ---- progress

  predicate ByRun(e: Event) {
    !(e.SetVal? || e.Signal? || e.WaitPub?)
  }

  /** The steps of Run left until it has answered the caller it accepted. */
  function Stage(loop: Loop): nat {
    match loop
    case Starting(_) => 4
    case Calling(_, _) => 3
    case Storing(_, _) => 2
    case Answering(_, _) => 1
    case _ => 0
  }

  function RunSteps(events: seq<Event>): nat {
    if events == [] then 0 else (if ByRun(events[0]) then 1 else 0) + RunSteps(events[1..])
  }

  /** While a caller that Run has accepted waits, Run can go on, each of its steps brings the answer closer, and no
      other step changes anything about that. */
  lemma AcceptedComesCloser(s: State, w: nat, e: Event)
    requires Inv(s) && w in s.waiters && s.waiters[w].Awaiting? && Can(s, e)
    ensures Stage(s.loop) > 0 && exists r :: ByRun(r) && Can(s, r)
    ensures w in Do(s, e).waiters
    ensures ByRun(e) ==> var t := Do(s, e);
      t.waiters[w].Returned? || (t.waiters[w].Awaiting? && Stage(t.loop) < Stage(s.loop))
    ensures !ByRun(e) ==> Do(s, e).loop == s.loop && Do(s, e).waiters[w] == s.waiters[w]
  {
    assert Debt(s.loop) == Some(w);
    assert Can(s, Onwards(s));
  }

  lemma {:induction false} ReturnedStays(s: State, w: nat, events: seq<Event>)
    requires Inv(s) && w in s.waiters && s.waiters[w].Returned? && IsRun(s, events)
    ensures w in End(s, events).waiters && End(s, events).waiters[w] == s.waiters[w]
    decreases |events|
  {
    if events != [] {
      StepInv(s, events[0]);
      assert Do(s, events[0]).waiters[w] == s.waiters[w];
      ReturnedStays(Do(s, events[0]), w, events[1..]);
    }
  }

  /** Between accepting a caller and answering it Run reads the current root and tries to publish it, and the caller is
      told a root exactly if that succeeds. `r` is where the root is read, if that is still to come, `p` where it is
      published. */
  ghost predicate PublishedBetween(events: seq<Event>, r: int, p: int, w: Waiter) {
    && r < p < |events| && p >= 0
    && (r >= 0 ==> events[r] == ReadVal)
    && w.Returned? && events[p] == if w.published.Some? then PublishSucceeds else PublishFails
  }

  lemma {:induction false} AnswerAsDecided(s: State, w: nat, events: seq<Event>)
    requires Inv(s) && w in s.waiters && s.waiters[w].Awaiting? && IsRun(s, events)
    requires (s.loop.Storing? || s.loop.Answering?) && HasReturned(End(s, events), w)
    ensures End(s, events).waiters[w].published == if s.loop.Storing? then Some(s.loop.topub) else s.loop.published
    decreases |events|
  {
    assert Debt(s.loop) == Some(w);
    if events != [] {
      var t := Do(s, events[0]);
      AcceptedComesCloser(s, w, events[0]);
      StepInv(s, events[0]);
      if t.waiters[w].Returned? { ReturnedStays(t, w, events[1..]); } else { AnswerAsDecided(t, w, events[1..]); }
    }
  }

  lemma {:induction false} AnswerAfterCalling(s: State, w: nat, events: seq<Event>) returns (p: int)
    requires Inv(s) && w in s.waiters && s.waiters[w].Awaiting? && IsRun(s, events)
    requires s.loop.Calling? && HasReturned(End(s, events), w)
    ensures PublishedBetween(events, -1, p, End(s, events).waiters[w])
    decreases |events|
  {
    assert Debt(s.loop) == Some(w);
    var t := Do(s, events[0]);
    AcceptedComesCloser(s, w, events[0]);
    StepInv(s, events[0]);
    if t.loop.Calling? {
      p := AnswerAfterCalling(t, w, events[1..]);
      p := p + 1;
    } else {
      AnswerAsDecided(t, w, events[1..]);
      p := 0;
    }
  }

  lemma {:induction false} AnswerAfterStarting(s: State, w: nat, events: seq<Event>) returns (r: nat, p: int)
    requires Inv(s) && w in s.waiters && s.waiters[w].Awaiting? && IsRun(s, events)
    requires s.loop.Starting? && HasReturned(End(s, events), w)
    ensures PublishedBetween(events, r, p, End(s, events).waiters[w])
    decreases |events|
  {
    assert Debt(s.loop) == Some(w);
    var t := Do(s, events[0]);
    AcceptedComesCloser(s, w, events[0]);
    StepInv(s, events[0]);
    if t.loop.Starting? {
      r, p := AnswerAfterStarting(t, w, events[1..]);
      r, p := r + 1, p + 1;
    } else {
      p := AnswerAfterCalling(t, w, events[1..]);
      r, p := 0, p + 1;
    }
  }

  /** Whenever Run has accepted a caller and the caller has returned, the current root was read in between, and publishing
      it was tried: the caller was told of a failure exactly if that failed. */
  lemma AnsweredOnlyAfterPublishing(root: Option<Root>, events: seq<Event>, a: nat, w: nat) returns (r: int, p: int)
    requires IsRun(Start(root), events) && a < |events| && events[a] == Accept(w)
    requires HasReturned(End(Start(root), events), w)
    ensures a < r && PublishedBetween(events, r, p, End(Start(root), events).waiters[w])
  {
    var s := Start(root);
    StartInv(root);
    SplitRun(s, events, a);
    RunInv(s, events[..a]);
    var m, rest := End(s, events[..a]), events[a..];
    StepInv(m, rest[0]);
    assert rest[0] == Accept(w) && rest[1..] == events[a + 1..];
    r, p := AnswerAfterStarting(Do(m, rest[0]), w, rest[1..]);
    r, p := r + a + 1, p + a + 1;
  }

  predicate ToldOfNoFailure(s: State, w: nat) {
    w in s.waiters ==> s.waiters[w].Asking? || (s.waiters[w].Returned? && s.waiters[w].published.Some?)
  }

  lemma {:induction false} ToldOnlyIfAccepted(s: State, events: seq<Event>, w: nat)
    requires Inv(s) && IsRun(s, events) && ToldOfNoFailure(s, w) && Accept(w) !in events
    ensures ToldOfNoFailure(End(s, events), w)
    decreases |events|
  {
    if events != [] {
      assert events[0] in events && forall e :: e in events[1..] ==> e in events;
      StepInv(s, events[0]);
      assert s.loop.Answering? ==> Debt(s.loop) == Some(s.loop.waiter);
      ToldOnlyIfAccepted(Do(s, events[0]), events[1..], w);
    }
  }

  /** A caller is told of a failure only if publishing failed after Run had accepted it. */
  lemma FailureToldIsReal(root: Option<Root>, events: seq<Event>, w: nat) returns (a: nat, p: nat)
    requires IsRun(Start(root), events) && HasReturned(End(Start(root), events), w)
    requires End(Start(root), events).waiters[w].published.None?
    ensures a < p < |events| && events[a] == Accept(w) && events[p] == PublishFails
  {
    StartInv(root);
    if Accept(w) !in events { ToldOnlyIfAccepted(Start(root), events, w); }
    a :| 0 <= a < |events| && events[a] == Accept(w);
    var r;
    r, p := AnsweredOnlyAfterPublishing(root, events, a, w);
  }

  /** Whoever Run has accepted has returned after at most four steps of Run, whatever else happens in between. */
  lemma {:induction false} AcceptedIsServed(s: State, w: nat, events: seq<Event>)
    requires Inv(s) && w in s.waiters && s.waiters[w].Awaiting?
    requires IsRun(s, events) && RunSteps(events) >= Stage(s.loop)
    ensures Stage(s.loop) <= 4 && w in End(s, events).waiters && End(s, events).waiters[w].Returned?
    decreases |events|
  {
    assert Debt(s.loop) == Some(w);
    if events != [] {
      var t := Do(s, events[0]);
      AcceptedComesCloser(s, w, events[0]);
      StepInv(s, events[0]);
      if t.waiters[w].Returned? {
        ReturnedStays(t, w, events[1..]);
      } else {
        AcceptedIsServed(t, w, events[1..]);
      }
    }
  }

  /** A step of Run, or of an unfinished Update, that accepts nobody. */
  function Onwards(s: State): Event {
    match s.loop
    case Idle => if s.token then Take else Signal
    case Gathering => TimeOut
    case Starting(_) => ReadVal
    case Calling(_, _) => PublishSucceeds
    case Storing(_, _) => StoreVal
    case Answering(_, _) => Answer
  }

  /** Bounds the steps that Run and unfinished Updates can take before all is at rest. */
  function Unrest(s: State): nat {
    8 * s.updating + (if s.token then 7 else 0) + if s.loop.Gathering? then 5 else Stage(s.loop)
  }

  /** Without another Update things come to rest: as long as they have not, some step is possible, and every step other
      than a new call of WaitPub lowers the bound. */
  lemma ComesToRest(s: State, e: Event)
    requires Inv(s) && Can(s, e) && !e.SetVal?
    ensures if e.WaitPub? then Unrest(Do(s, e)) == Unrest(s) else Unrest(Do(s, e)) < Unrest(s)
    ensures !AtRest(s) ==> Can(s, Onwards(s)) && !Onwards(s).SetVal? && !Onwards(s).WaitPub?
    ensures AtRest(s) ==> e.WaitPub?
  {
  }

  function Calls(events: seq<Event>): nat {
    if events == [] then 0 else (if events[0].WaitPub? then 1 else 0) + Calls(events[1..])
  }

  /** So without another Update only so many steps are possible besides new calls of WaitPub. */
  lemma {:induction false} RestIsReached(s: State, events: seq<Event>)
    requires Inv(s) && NoUpdates(events) && IsRun(s, events)
    ensures |events| - Calls(events) + Unrest(End(s, events)) <= Unrest(s)
    decreases |events|
  {
    if events != [] {
      assert !events[0].SetVal?;
      ComesToRest(s, events[0]);
      StepInv(s, events[0]);
      RestIsReached(Do(s, events[0]), events[1..]);
    }
  }

  // ---- when WaitPub returns

  /** However the run goes on without another Update, once it has come to rest the caller has returned. */
  ghost predicate SureToReturn(s: State, w: nat)
    requires Indexed(s)
  {
    forall events :: NoUpdates(events) && IsRun(s, events) && AtRest(End(s, events)) ==> HasReturned(End(s, events), w)
  }

  predicate HasReturned(s: State, w: nat) {
    w in s.waiters && s.waiters[w].Returned?
  }

  /** From any state a run may come to rest past everybody who is still asking. */
  lemma {:induction false} MayBePassedOver(s: State, w: nat) returns (events: seq<Event>)
    requires Inv(s) && w in s.waiters && s.waiters[w].Asking?
    ensures NoUpdates(events) && IsRun(s, events)
    ensures AtRest(End(s, events)) && w in End(s, events).waiters && End(s, events).waiters[w].Asking?
    decreases Unrest(s)
  {
    if AtRest(s) {
      events := [];
    } else {
      var e := Onwards(s);
      StepInv(s, e);
      ComesToRest(s, e);
      var rest := MayBePassedOver(Do(s, e), w);
      events := [e] + rest;
      assert events[1..] == rest;
    }
  }

  lemma {:induction false} AskingUntilAccepted(s: State, w: nat, events: seq<Event>)
    requires Inv(s) && w in s.waiters && IsRun(s, events)
    ensures w in End(s, events).waiters
    ensures End(s, events).waiters[w].Asking? <==> s.waiters[w].Asking? && Accept(w) !in events
    decreases |events|
  {
    if events != [] {
      StepInv(s, events[0]);
      AskingUntilAccepted(Do(s, events[0]), w, events[1..]);
      assert events == [events[0]] + events[1..];
    }
  }

  /** A caller is sure to return exactly if it is no longer asking. */
  lemma SureExactlyIfNotAsking(s: State, w: nat)
    requires Inv(s) && w in s.waiters
    ensures SureToReturn(s, w) <==> !s.waiters[w].Asking?
  {
    if s.waiters[w].Asking? {
      var events := MayBePassedOver(s, w);
    } else {
      forall events | NoUpdates(events) && IsRun(s, events) && AtRest(End(s, events))
        ensures HasReturned(End(s, events), w)
      {
        RunInv(s, events);
        AskingUntilAccepted(s, w, events);
        assert Debt(End(s, events).loop) == None;
      }
    }
  }

  /** The call of `w` in this run found that the current root was the one published last. */
  predicate FoundConsistent(s: State, events: seq<Event>, w: nat)
    requires Indexed(s) && IsRun(s, events)
    decreases |events|
  {
    events != [] &&
      if events[0] == WaitPub(w) then Consistent(s) else FoundConsistent(Do(s, events[0]), events[1..], w)
  }

  lemma {:induction false} AskingExactly(s: State, events: seq<Event>, w: nat)
    requires Inv(s) && w !in s.waiters && IsRun(s, events)
    ensures w in End(s, events).waiters <==> WaitPub(w) in events
    ensures WaitPub(w) in events ==>
      (End(s, events).waiters[w].Asking? <==> !FoundConsistent(s, events, w) && Accept(w) !in events)
    decreases |events|
  {
    if events != [] {
      var t := Do(s, events[0]);
      StepInv(s, events[0]);
      assert events == [events[0]] + events[1..];
      if events[0] == WaitPub(w) {
        AskingUntilAccepted(t, w, events[1..]);
      } else {
        AskingExactly(t, events[1..], w);
      }
    }
  }

  /** Where this run stands before step `c`. */
  function Before(s: State, events: seq<Event>, c: nat): (m: State)
    requires Indexed(s) && IsRun(s, events) && c <= |events|
    ensures Indexed(m)
  {
    SplitRun(s, events, c);
    End(s, events[..c])
  }

  lemma BeforeLater(s: State, events: seq<Event>, c: nat)
    requires Indexed(s) && IsRun(s, events) && 0 < c <= |events|
    ensures Before(s, events, c) == Before(Do(s, events[0]), events[1..], c - 1)
  {
    SplitRun(s, events, c);
    SplitRun(Do(s, events[0]), events[1..], c - 1);
    assert events[..c][1..] == events[1..][..c - 1];
  }

  /** In plain terms: the root set last was the one published last when `w` called. */
  lemma {:induction false} FoundConsistentExactly(s: State, events: seq<Event>, w: nat, c: nat)
    requires Inv(s) && IsRun(s, events) && c < |events| && events[c] == WaitPub(w)
    ensures var m := Before(s, events, c);
      FoundConsistent(s, events, w) <==> m.history[m.lastpub] == m.history[|m.history| - 1]
    decreases |events|
  {
    StepInv(s, events[0]);
    if c == 0 {
      assert events[..0] == [];
    } else {
      if events[0] == WaitPub(w) { CalledOnce(Do(s, events[0]), events[1..], w, c - 1); }
      BeforeLater(s, events, c);
      FoundConsistentExactly(Do(s, events[0]), events[1..], w, c - 1);
    }
  }

  lemma {:induction false} CalledOnce(s: State, events: seq<Event>, w: nat, c: nat)
    requires Inv(s) && IsRun(s, events) && c < |events| && w in s.waiters
    ensures events[c] != WaitPub(w)
    decreases |events|
  {
    if c > 0 {
      StepInv(s, events[0]);
      CalledOnce(Do(s, events[0]), events[1..], w, c - 1);
    }
  }

  /** The books of a caller name the root that was current when it called. */
  lemma {:induction false} SinceIsKept(s: State, events: seq<Event>, w: nat)
    requires Inv(s) && IsRun(s, events) && w in s.waiters
    ensures w in End(s, events).waiters && End(s, events).waiters[w].since == s.waiters[w].since
    decreases |events|
  {
    if events != [] {
      StepInv(s, events[0]);
      SinceIsKept(Do(s, events[0]), events[1..], w);
    }
  }

  lemma SinceIsCall(root: Option<Root>, events: seq<Event>, w: nat, c: nat)
    requires IsRun(Start(root), events) && c < |events| && events[c] == WaitPub(w)
    ensures w in End(Start(root), events).waiters
    ensures End(Start(root), events).waiters[w].since == |Before(Start(root), events, c).history| - 1
  {
    var s := Start(root);
    StartInv(root);
    SplitRun(s, events, c);
    RunInv(s, events[..c]);
    var m, rest := End(s, events[..c]), events[c..];
    StepInv(m, rest[0]);
    SinceIsKept(Do(m, rest[0]), rest[1..], w);
  }

  /** Without another Update, a call of WaitPub is sure to return exactly if it found its root published or Run has
      accepted it. A call that asks is never sure to. */
  lemma WaitPubReturnsExactlyIf(root: Option<Root>, events: seq<Event>, w: nat)
    requires IsRun(Start(root), events) && WaitPub(w) in events
    ensures SureToReturn(End(Start(root), events), w) <==> FoundConsistent(Start(root), events, w) || Accept(w) in events
  {
    StartInv(root);
    RunInv(Start(root), events);
    AskingExactly(Start(root), events, w);
    SureExactlyIfNotAsking(End(Start(root), events), w);
  }

  // ---- when a caller may still be accepted

  /** A signal is there, or on its way, or has just been taken. */
  predicate Stirring(s: State) {
    s.token || s.updating > 0 || s.loop.Gathering?
  }

  function Distance(s: State): nat {
    match s.loop
    case Gathering => 0
    case Idle => if s.token then 1 else 2
    case Answering(_, _) => 3
    case Storing(_, _) => 4
    case Calling(_, _) => 5
    case Starting(_) => 6
  }

  lemma {:induction false} StirringIsServed(s: State, w: nat) returns (events: seq<Event>)
    requires Inv(s) && w in s.waiters && s.waiters[w].Asking? && Stirring(s)
    ensures NoUpdates(events) && IsRun(s, events)
    ensures w in End(s, events).waiters && !End(s, events).waiters[w].Asking?
    decreases Distance(s)
  {
    var e := if s.loop.Gathering? then Accept(w) else Onwards(s);
    var t := Do(s, e);
    StepInv(s, e);
    if s.loop.Gathering? {
      events := [e];
      assert IsRun(t, []) && events[1..] == [];
    } else {
      var rest := StirringIsServed(t, w);
      events := [e] + rest;
      assert events[1..] == rest;
    }
  }

  lemma {:induction false} RestIsNotServed(s: State, w: nat, events: seq<Event>)
    requires Indexed(s) && w in s.waiters && s.waiters[w].Asking? && !Stirring(s)
    requires NoUpdates(events) && IsRun(s, events)
    ensures w in End(s, events).waiters && End(s, events).waiters[w].Asking? && !Stirring(End(s, events))
    decreases |events|
  {
    if events != [] {
      assert !events[0].SetVal?;
      RestIsNotServed(Do(s, events[0]), w, events[1..]);
    }
  }

  /** A caller that has found its root unpublished can still be accepted without another Update exactly if Run is
      collecting signals, or a signal is there or on its way; otherwise it waits until somebody updates again. */
  lemma ServedExactlyIfStirring(s: State, w: nat)
    requires Inv(s) && w in s.waiters && s.waiters[w].Asking?
    ensures Stirring(s) <==>
      exists events :: NoUpdates(events) && IsRun(s, events) && w in End(s, events).waiters && !End(s, events).waiters[w].Asking?
  {
    if Stirring(s) {
      var events := StirringIsServed(s, w);
    } else {
      forall events | NoUpdates(events) && IsRun(s, events)
        ensures w in End(s, events).waiters && End(s, events).waiters[w].Asking?
      {
        RestIsNotServed(s, w, events);
      }
    }
  }

  /** Everything is published and at rest, and yet caller 0 has not returned. */
  predicate HangsAtRest(s: State) {
    Indexed(s) && AtRest(s) && s.succeeded && Consistent(s) && 0 in s.waiters && s.waiters[0].Asking? && !Stirring(s)
  }

  /** Caller 0 finds root 1 set but not published yet. */
  lemma CallBeforePublishing() returns (events: seq<Event>)
    ensures IsRun(Start(None), events)
    ensures End(Start(None), events) == State([NO_ROOT, 1], 0, 0, false, 0, Gathering, map[0 := Asking(1)], 0, true)
  {
    Step(Start(None), SetVal(1));
    Extend(Start(None), [SetVal(1)], Signal);
    Extend(Start(None), [SetVal(1)] + [Signal], Take);
    events := [SetVal(1)] + [Signal] + [Take];
    Extend(Start(None), events, WaitPub(0));
    events := events + [WaitPub(0)];
  }

  /** Meanwhile the time-out fires, and Run publishes the root without having accepted anybody. */
  lemma PublishUnasked(s: State) returns (events: seq<Event>)
    requires Indexed(s) && s.loop.Gathering? && !s.token && s.updating == 0
    ensures IsRun(s, events)
    ensures End(s, events) == s.(loop := Idle, lastpub := Latest(s), attempt := Latest(s), succeeded := true)
  {
    Step(s, TimeOut);
    Extend(s, [TimeOut], ReadVal);
    Extend(s, [TimeOut] + [ReadVal], PublishSucceeds);
    events := [TimeOut] + [ReadVal] + [PublishSucceeds];
    Extend(s, events, StoreVal);
    events := events + [StoreVal];
  }

  /** It happens without any failure: the call finds its root unpublished just before Run publishes it. */
  lemma WaitPubCanHang()
    ensures exists events :: IsRun(Start(None), events) && HangsAtRest(End(Start(None), events))
  {
    var before := CallBeforePublishing();
    var after := PublishUnasked(End(Start(None), before));
    RunOn(Start(None), before, after);
  }
}
