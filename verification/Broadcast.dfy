/** A future whose result is handed to any number of listeners. Both entry points hold the same
    mutex, so a run is a sequence of whole steps: a listener registers, or the job made of the
    source completes. Listeners are numbered in the order they register. */
module Broadcast {
  import opened Wrappers

  /** The source's result; an error is kept as its message. */
  type Outcome<T> = Result<T, string>

  /** `future`: the source has not been taken; `starts`: the jobs spawned; `listeners`: the queued
      senders; `inbox`: what each listener was sent. */
  datatype State<T> = State(future: bool, starts: nat, result: Option<Outcome<T>>, listeners: seq<nat>,
                            inbox: seq<seq<Outcome<T>>>)

  datatype Event<T> = Listen | Complete(outcome: Outcome<T>)

  function Initial<T>(): State<T>
  {
    State(true, 0, None, [], [])
  }

  predicate Running<T>(s: State<T>)
  {
    s.starts > 0 && s.result.None?
  }

  /** The inboxes after one message to each of `to`. */
  function Deliver<T>(inbox: seq<seq<Outcome<T>>>, to: seq<nat>, outcome: Outcome<T>): seq<seq<Outcome<T>>>
  {
    seq(|inbox|, i requires 0 <= i < |inbox| => if i in to then inbox[i] + [outcome] else inbox[i])
  }

  /** A listener registers: the first one starts the source; a result already there is handed over
      at once. */
  function AfterListen<T>(s: State<T>): State<T>
  {
    var taken := if s.future then s.(future := false, starts := s.starts + 1) else s;
    match s.result
    case Some(outcome) => taken.(inbox := s.inbox + [[outcome]])
    case None => taken.(listeners := s.listeners + [|s.inbox|], inbox := s.inbox + [[]])
  }

  function AfterComplete<T>(s: State<T>, outcome: Outcome<T>): State<T>
  {
    s.(result := Some(outcome), listeners := [], inbox := Deliver(s.inbox, s.listeners, outcome))
  }

  /** A completion is a step of the spawned job, so there is none without a job running. */
  function Step<T>(s: State<T>, e: Event<T>): State<T>
  {
    match e
    case Listen => AfterListen(s)
    case Complete(outcome) => if Running(s) then AfterComplete(s, outcome) else s
  }

  function Run<T>(s: State<T>, events: seq<Event<T>>): State<T>
    decreases |events|
  {
    if events == [] then s else Run(Step(s, events[0]), events[1..])
  }

  // ---------------------------------------------------------------- every run

  ghost predicate Distinct(s: seq<nat>)
  {
    forall i, j :: 0 <= i < j < |s| ==> s[i] != s[j]
  }

  /** The source is started by the first listener and only then; before the result exactly the
      registered listeners are queued and none was sent anything; after it nobody is queued and
      each was sent that result once. */
  ghost predicate Inv<T>(s: State<T>)
  {
    s.starts == (if s.future then 0 else 1) &&
    (s.future <==> s.inbox == []) &&
    (s.future ==> s.result.None?) &&
    Distinct(s.listeners) &&
    (s.result.Some? ==> s.listeners == []) &&
    (s.result.None? ==> forall id: nat :: id in s.listeners <==> id < |s.inbox|) &&
    forall id :: 0 <= id < |s.inbox| ==> s.inbox[id] == if s.result.Some? then [s.result.value] else []
  }

  lemma ListenKeepsInv<T>(s: State<T>)
    requires Inv(s)
    ensures Inv(AfterListen(s))
  {
    var t := AfterListen(s);
    if s.result.None? {
      assert t.listeners[..|s.listeners|] == s.listeners && t.listeners[|s.listeners|] == |s.inbox|;
      assert forall i :: 0 <= i < |s.listeners| ==> s.listeners[i] in s.listeners;
    }
  }

  lemma CompleteKeepsInv<T>(s: State<T>, outcome: Outcome<T>)
    requires Inv(s) && Running(s)
    ensures Inv(AfterComplete(s, outcome))
  {
  }

  lemma StepKeepsInv<T>(s: State<T>, e: Event<T>)
    requires Inv(s)
    ensures Inv(Step(s, e))
  {
    match e
    case Listen => ListenKeepsInv(s);
    case Complete(outcome) => if Running(s) { CompleteKeepsInv(s, outcome); }
  }

  /** The first completion after the first listener. */
  function FirstOutcome<T>(events: seq<Event<T>>, listened: bool): Option<Outcome<T>>
    decreases |events|
  {
    if events == [] then None
    else if events[0].Listen? then FirstOutcome(events[1..], true)
    else if listened then Some(events[0].outcome)
    else FirstOutcome(events[1..], false)
  }

  function Listeners<T>(events: seq<Event<T>>): nat
    decreases |events|
  {
    if events == [] then 0 else Listeners(events[1..]) + if events[0].Listen? then 1 else 0
  }

  lemma {:induction false} RunOutcome<T>(s: State<T>, events: seq<Event<T>>)
    requires Inv(s)
    ensures var t := Run(s, events);
            Inv(t) && |t.inbox| == |s.inbox| + Listeners(events) &&
            t.result == if s.result.Some? then s.result else FirstOutcome(events, s.starts > 0)
    decreases |events|
  {
    if events != [] {
      StepKeepsInv(s, events[0]);
      RunOutcome(Step(s, events[0]), events[1..]);
    }
  }

  /** In every run the source is started at most once, and exactly when somebody listens; every
      listener, early or late, is sent the one result exactly once; nobody is queued once there is
      a result. */
  lemma ExactlyOnce<T>(events: seq<Event<T>>)
    ensures var t := Run(Initial(), events);
            var outcome := FirstOutcome(events, false);
            t.starts == (if Listeners(events) > 0 then 1 else 0) && |t.inbox| == Listeners(events) &&
            t.result == outcome && (outcome.Some? ==> t.listeners == []) &&
            forall id :: 0 <= id < |t.inbox| ==> t.inbox[id] == if outcome.Some? then [outcome.value] else []
  {
    RunOutcome(Initial<T>(), events);
  }

  // ---------------------------------------------------------------- the object

  class BroadcastFuture<T> {
    var future: bool
    var starts: nat
    var result: Option<Outcome<T>>
    var listeners: seq<nat>
    var inbox: seq<seq<Outcome<T>>>

    ghost function Contents(): State<T>
      reads this
    {
      State(future, starts, result, listeners, inbox)
    }

    constructor ()
      ensures Contents() == Initial() && Inv(Contents())
    {
      future, starts, result, listeners, inbox := true, 0, None, [], [];
    }

    /** `notify_listeners`: stores the result, then pops and serves the queued senders. */
    method NotifyListeners(outcome: Outcome<T>)
      requires Inv(Contents()) && Running(Contents())
      modifies this`result, this`listeners, this`inbox
      ensures Contents() == AfterComplete(old(Contents()), outcome) && Inv(Contents())
    {
      CompleteKeepsInv(Contents(), outcome);
      ghost var queued, before := listeners, inbox;
      result := Some(outcome);
      assert Deliver(before, [], outcome) == before;
      while listeners != []
        invariant result == Some(outcome) && listeners <= queued
        invariant inbox == Deliver(before, queued[|listeners|..], outcome)
        decreases |listeners|
      {
        var n := |listeners| - 1;
        var id := listeners[n];
        assert id == queued[n] && id in queued;
        DeliverOne(before, queued, n, outcome);
        listeners := listeners[..n];
        inbox := inbox[id := inbox[id] + [outcome]];
      }
      assert queued[0..] == queued;
    }

    /** `listen`: takes the source if it is still there, then registers or answers. */
    method Listen() returns (id: nat)
      requires Inv(Contents())
      modifies this
      ensures Contents() == AfterListen(old(Contents())) && Inv(Contents()) && id == |old(inbox)|
    {
      ListenKeepsInv(Contents());
      id := |inbox|;
      if future {
        future, starts := false, starts + 1;
      }
      match result
      case Some(outcome) => inbox := inbox + [[outcome]];
      case None => listeners, inbox := listeners + [id], inbox + [[]];
    }
  }

  lemma DeliverOne<T>(inbox: seq<seq<Outcome<T>>>, queued: seq<nat>, n: nat, outcome: Outcome<T>)
    requires n < |queued| && Distinct(queued) && queued[n] < |inbox|
    ensures var id := queued[n];
            var before := Deliver(inbox, queued[n + 1..], outcome);
            before[id := before[id] + [outcome]] == Deliver(inbox, queued[n..], outcome)
  {
    var id := queued[n];
    assert queued[n..] == [id] + queued[n + 1..];
    assert id !in queued[n + 1..];
  }
}
