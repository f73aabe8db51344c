/** The mtime cache in front of a configuration file (the ACL and the user configuration each
    have one): any number of threads run stat, check, read and store steps in any order while
    the file is replaced.

    Versions of the file are numbered in the order in which they become current; `stamps[k]`
    is the modification time of version k, or None when the file is missing. A thread's pc
    remembers which version was current at its stat, which the code knows by its stamp. */
module MtimeCache {
  import opened Wrappers

  datatype Stamp = Stamp(sec: int, nsec: int)
  const ZERO: Stamp := Stamp(0, 0)

  type Stamps = seq<Option<Stamp>>

  /** A finished load: the version current at its stat and the version it then read. */
  datatype Load = Load(at: nat, got: nat)

  /** The cached data and the stamp stored with it. */
  datatype Cache = Cache(data: Option<Load>, stamp: Stamp)

  datatype Pc =
    | Idle
    | Statted(at: nat)
    | Missed(at: nat)
    | Reading(at: nat, got: nat)
    | Returned(at: nat, got: nat, ended: nat)

  datatype State = State(current: nat, cache: Cache, threads: seq<Pc>)

  datatype Action = Replace | Stat(t: nat) | Check(t: nat) | Read(t: nat) | Store(t: nat)

  function Init(n: nat): State
  {
    State(0, Cache(None, ZERO), seq(n, _ => Idle))
  }

  predicate Hits(stamps: Stamps, cache: Cache, at: nat)
    requires at < |stamps|
  {
    cache.data.Some? &&
    match stamps[at]
    case Some(m) => m == cache.stamp
    case None => cache.stamp == ZERO
  }

  predicate Enabled(stamps: Stamps, s: State, a: Action)
  {
    match a
    case Replace => s.current + 1 < |stamps|
    case Stat(t) => t < |s.threads| && s.current < |stamps| && (s.threads[t].Idle? || s.threads[t].Returned?)
    case Check(t) => t < |s.threads| && s.threads[t].Statted? && s.threads[t].at < |stamps|
    case Read(t) => t < |s.threads| && s.threads[t].Missed?
    case Store(t) => t < |s.threads| && s.threads[t].Reading? && s.threads[t].at < |stamps|
  }

  /** One step; an action that is not enabled does nothing. */
  function Next(stamps: Stamps, s: State, a: Action): State
  {
    if !Enabled(stamps, s, a) then s
    else
      match a
      case Replace => s.(current := s.current + 1)
      case Stat(t) => s.(threads := s.threads[t := Statted(s.current)])
      case Check(t) =>
        var at := s.threads[t].at;
        s.(threads := s.threads[t :=
          if Hits(stamps, s.cache, at) then Returned(at, s.cache.data.value.got, s.current) else Missed(at)])
      case Read(t) => s.(threads := s.threads[t := Reading(s.threads[t].at, s.current)])
      case Store(t) =>
        var at, got := s.threads[t].at, s.threads[t].got;
        var stamp := match stamps[at] case Some(m) => m case None => s.cache.stamp;
        State(s.current, Cache(Some(Load(at, got)), stamp), s.threads[t := Returned(at, got, s.current)])
  }

  function Run(stamps: Stamps, s: State, actions: seq<Action>): State
    decreases |actions|
  {
    if actions == [] then s else Run(stamps, Next(stamps, s, actions[0]), actions[1..])
  }

  /** Every finished call returned a version that was current at some instant of the call:
      versions become current one after the other, so this is a version between the one at
      the call's stat and the one at its return. */
  ghost predicate Linearizable(s: State)
  {
    forall t :: 0 <= t < |s.threads| && s.threads[t].Returned? ==>
      s.threads[t].at <= s.threads[t].got <= s.threads[t].ended <= s.current
  }

  /** Modification times identify versions, none is the initial stamp of the cache, and a
      missing file is not removed again. */
  ghost predicate GoodStamps(stamps: Stamps)
  {
    stamps != [] &&
    (forall k :: 0 <= k < |stamps| && stamps[k].Some? ==> stamps[k].value != ZERO) &&
    (forall j, k :: 0 <= j < k < |stamps| && stamps[j].Some? && stamps[k].Some? ==> stamps[j] != stamps[k]) &&
    (forall k :: 0 < k < |stamps| ==> stamps[k - 1].Some? || stamps[k].Some?)
  }

  /** The file exists throughout, or is removed for good. */
  ghost predicate NeverRecreated(stamps: Stamps)
  {
    forall k :: 0 <= k && k + 1 < |stamps| ==> stamps[k].Some?
  }

  // ---------------------------------------------------------------- the invariant

  ghost predicate ThreadOk(stamps: Stamps, s: State, t: nat)
    requires t < |s.threads|
  {
    match s.threads[t]
    case Idle => true
    case Statted(at) => at <= s.current
    case Missed(at) => at <= s.current
    case Reading(at, got) => at <= got <= s.current
    case Returned(at, got, ended) => at <= got <= ended <= s.current
  }

  /** What the cache holds is at least as new as any version its stamp can be matched with. */
  ghost predicate CacheOk(stamps: Stamps, s: State)
  {
    match s.cache.data
    case None => s.cache.stamp == ZERO
    case Some(l) =>
      l.at <= l.got <= s.current < |stamps| &&
      (stamps[|stamps| - 1].Some? ==> stamps[l.at] == Some(s.cache.stamp)) &&
      forall k :: 0 <= k < |stamps| && Hits(stamps, s.cache, k) ==> k <= l.got
  }

  ghost predicate Inv(stamps: Stamps, s: State)
  {
    s.current < |stamps| && CacheOk(stamps, s) && forall t: nat :: t < |s.threads| ==> ThreadOk(stamps, s, t)
  }

  lemma StoreKeepsCache(stamps: Stamps, s: State, t: nat)
    requires GoodStamps(stamps) && NeverRecreated(stamps) && Inv(stamps, s) && Enabled(stamps, s, Store(t))
    ensures CacheOk(stamps, Next(stamps, s, Store(t)))
  {
    var at, got := s.threads[t].at, s.threads[t].got;
    var s' := Next(stamps, s, Store(t));
    assert ThreadOk(stamps, s, t);
    forall k | 0 <= k < |stamps| && Hits(stamps, s'.cache, k) ensures k <= got {
      if stamps[at].Some? {
        assert k == at;
      } else {
        assert at + 1 == |stamps|;
      }
    }
  }

  lemma StepKeepsInv(stamps: Stamps, s: State, a: Action)
    requires GoodStamps(stamps) && NeverRecreated(stamps) && Inv(stamps, s)
    ensures Inv(stamps, Next(stamps, s, a))
  {
    if Enabled(stamps, s, a) {
      var s' := Next(stamps, s, a);
      if a.Store? { StoreKeepsCache(stamps, s, a.t); }
      forall t: nat | t < |s'.threads| ensures ThreadOk(stamps, s', t) {
        assert ThreadOk(stamps, s, t);
      }
    }
  }

  lemma {:induction false} RunKeepsInv(stamps: Stamps, s: State, actions: seq<Action>)
    requires GoodStamps(stamps) && NeverRecreated(stamps) && Inv(stamps, s)
    ensures Inv(stamps, Run(stamps, s, actions))
    decreases |actions|
  {
    if actions != [] {
      StepKeepsInv(stamps, s, actions[0]);
      RunKeepsInv(stamps, Next(stamps, s, actions[0]), actions[1..]);
    }
  }

  /** With a file that is never recreated, every run is linearizable. */
  lemma RunsLinearizable(stamps: Stamps, n: nat, actions: seq<Action>)
    requires GoodStamps(stamps) && NeverRecreated(stamps)
    ensures Linearizable(Run(stamps, Init(n), actions))
  {
    RunKeepsInv(stamps, Init(n), actions);
    var s := Run(stamps, Init(n), actions);
    forall t | 0 <= t < |s.threads| && s.threads[t].Returned?
      ensures s.threads[t].at <= s.threads[t].got <= s.threads[t].ended <= s.current
    {
      assert ThreadOk(stamps, s, t);
    }
  }

  // ---------------------------------------------------------------- and no further

  lemma {:induction false} RunAppend(stamps: Stamps, s: State, a: seq<Action>, b: seq<Action>)
    ensures Run(stamps, s, a + b) == Run(stamps, Run(stamps, s, a), b)
    decreases |a|
  {
    if a == [] {
      assert a + b == b;
    } else {
      assert (a + b)[1..] == a[1..] + b;
      RunAppend(stamps, Next(stamps, s, a[0]), a[1..], b);
    }
  }

  lemma {:induction false} Replaces(stamps: Stamps, n: nat, k: nat) returns (actions: seq<Action>)
    requires k < |stamps|
    ensures Run(stamps, Init(n), actions) == Init(n).(current := k)
    decreases k
  {
    if k == 0 {
      actions := [];
    } else {
      var before := Replaces(stamps, n, k - 1);
      actions := before + [Replace];
      RunAppend(stamps, Init(n), before, [Replace]);
      assert [Replace][1..] == [];
    }
  }

  lemma RunOne(stamps: Stamps, s: State, a: Action, rest: seq<Action>)
    ensures Run(stamps, s, [a] + rest) == Run(stamps, Next(stamps, s, a), rest)
  {
    assert ([a] + rest)[1..] == rest;
  }

  /** A file that comes into being between the stat of one thread and the load of another: the
      first thread stores the empty configuration under the second thread's stamp. */
  lemma RecreationBreaks(stamps: Stamps, k: nat) returns (actions: seq<Action>)
    requires GoodStamps(stamps) && k + 1 < |stamps| && stamps[k].None?
    ensures !Linearizable(Run(stamps, Init(3), actions))
  {
    var before := Replaces(stamps, 3, k);
    var m := stamps[k + 1].value;
    var s0 := Init(3).(current := k);
    var s1 := State(k, Cache(None, ZERO), [Reading(k, k), Idle, Idle]);
    var s2 := State(k + 1, Cache(Some(Load(k + 1, k + 1)), m), [Reading(k, k), Returned(k + 1, k + 1, k + 1), Idle]);
    var s3 := State(k + 1, Cache(Some(Load(k, k)), m),
      [Returned(k, k, k + 1), Returned(k + 1, k + 1, k + 1), Returned(k + 1, k, k + 1)]);
    var p1 := FirstReads(stamps, k);
    var p2 := SecondLoads(stamps, k, m);
    var p3 := ThirdHits(stamps, k, m);
    actions := before + (p1 + (p2 + p3));
    RunAppend(stamps, Init(3), before, p1 + (p2 + p3));
    RunAppend(stamps, s0, p1, p2 + p3);
    RunAppend(stamps, s1, p2, p3);
    assert Run(stamps, Init(3), actions) == s3;
    assert s3.threads[2] == Returned(k + 1, k, k + 1);
  }

  lemma FirstReads(stamps: Stamps, k: nat) returns (p: seq<Action>)
    requires k + 1 < |stamps|
    ensures Run(stamps, Init(3).(current := k), p) == State(k, Cache(None, ZERO), [Reading(k, k), Idle, Idle])
  {
    p := [Stat(0)] + ([Check(0)] + ([Read(0)] + []));
    var s0 := Init(3).(current := k);
    assert s0.threads == [Idle, Idle, Idle];
    var s1 := State(k, Cache(None, ZERO), [Statted(k), Idle, Idle]);
    var s2 := State(k, Cache(None, ZERO), [Missed(k), Idle, Idle]);
    RunOne(stamps, s0, Stat(0), [Check(0)] + ([Read(0)] + []));
    assert Next(stamps, s0, Stat(0)) == s1;
    RunOne(stamps, s1, Check(0), [Read(0)] + []);
    assert Next(stamps, s1, Check(0)) == s2;
    RunOne(stamps, s2, Read(0), []);
  }

  lemma SecondLoads(stamps: Stamps, k: nat, m: Stamp) returns (p: seq<Action>)
    requires k + 1 < |stamps| && stamps[k + 1] == Some(m)
    ensures Run(stamps, State(k, Cache(None, ZERO), [Reading(k, k), Idle, Idle]), p) ==
            State(k + 1, Cache(Some(Load(k + 1, k + 1)), m), [Reading(k, k), Returned(k + 1, k + 1, k + 1), Idle])
  {
    p := [Replace] + ([Stat(1)] + ([Check(1)] + ([Read(1)] + ([Store(1)] + []))));
    var r := Reading(k, k);
    var s0 := State(k, Cache(None, ZERO), [r, Idle, Idle]);
    var s1 := State(k + 1, Cache(None, ZERO), [r, Idle, Idle]);
    var s2 := State(k + 1, Cache(None, ZERO), [r, Statted(k + 1), Idle]);
    var s3 := State(k + 1, Cache(None, ZERO), [r, Missed(k + 1), Idle]);
    var s4 := State(k + 1, Cache(None, ZERO), [r, Reading(k + 1, k + 1), Idle]);
    RunOne(stamps, s0, Replace, [Stat(1)] + ([Check(1)] + ([Read(1)] + ([Store(1)] + []))));
    assert Next(stamps, s0, Replace) == s1;
    RunOne(stamps, s1, Stat(1), [Check(1)] + ([Read(1)] + ([Store(1)] + [])));
    assert Next(stamps, s1, Stat(1)) == s2;
    RunOne(stamps, s2, Check(1), [Read(1)] + ([Store(1)] + []));
    assert Next(stamps, s2, Check(1)) == s3;
    RunOne(stamps, s3, Read(1), [Store(1)] + []);
    assert Next(stamps, s3, Read(1)) == s4;
    RunOne(stamps, s4, Store(1), []);
  }

  lemma ThirdHits(stamps: Stamps, k: nat, m: Stamp) returns (p: seq<Action>)
    requires k + 1 < |stamps| && stamps[k + 1] == Some(m) && stamps[k].None?
    ensures Run(stamps,
                State(k + 1, Cache(Some(Load(k + 1, k + 1)), m),
                      [Reading(k, k), Returned(k + 1, k + 1, k + 1), Idle]), p) ==
            State(k + 1, Cache(Some(Load(k, k)), m),
                  [Returned(k, k, k + 1), Returned(k + 1, k + 1, k + 1), Returned(k + 1, k, k + 1)])
  {
    p := [Store(0)] + ([Stat(2)] + ([Check(2)] + []));
    var b := Returned(k + 1, k + 1, k + 1);
    var c := Cache(Some(Load(k, k)), m);
    var s0 := State(k + 1, Cache(Some(Load(k + 1, k + 1)), m), [Reading(k, k), b, Idle]);
    var s1 := State(k + 1, c, [Returned(k, k, k + 1), b, Idle]);
    var s2 := State(k + 1, c, [Returned(k, k, k + 1), b, Statted(k + 1)]);
    RunOne(stamps, s0, Store(0), [Stat(2)] + ([Check(2)] + []));
    assert Next(stamps, s0, Store(0)) == s1;
    RunOne(stamps, s1, Stat(2), [Check(2)] + []);
    assert Next(stamps, s1, Stat(2)) == s2;
    RunOne(stamps, s2, Check(2), []);
  }

  /** The cache is linearizable in every run if and only if no file is created after it was
      missing. */
  lemma LinearizableIff(stamps: Stamps)
    requires GoodStamps(stamps)
    ensures (forall n: nat, actions: seq<Action> :: Linearizable(Run(stamps, Init(n), actions))) <==>
            NeverRecreated(stamps)
  {
    if NeverRecreated(stamps) {
      forall n: nat, actions: seq<Action> ensures Linearizable(Run(stamps, Init(n), actions)) {
        RunsLinearizable(stamps, n, actions);
      }
    } else {
      var k :| 0 <= k && k + 1 < |stamps| && stamps[k].None?;
      var actions := RecreationBreaks(stamps, k);
    }
  }

  // ---------------------------------------------------------------- hits

  /** For a file that exists throughout, a hit comes from a load whose stat saw the version the
      call's own stat saw; what that load then read may be newer. */
  lemma HitSharesStat(stamps: Stamps, n: nat, actions: seq<Action>, t: nat)
    requires GoodStamps(stamps) && forall k :: 0 <= k < |stamps| ==> stamps[k].Some?
    requires var s := Run(stamps, Init(n), actions);
             Enabled(stamps, s, Check(t)) && Hits(stamps, s.cache, s.threads[t].at)
    ensures var s := Run(stamps, Init(n), actions);
            s.cache.data.value.at == s.threads[t].at <= s.cache.data.value.got
  {
    RunKeepsInv(stamps, Init(n), actions);
  }

  /** Every check that hits in this state finds exactly the version of its own stat. */
  ghost predicate HitsExact(stamps: Stamps, s: State)
  {
    forall t: nat :: Enabled(stamps, s, Check(t)) && Hits(stamps, s.cache, s.threads[t].at) ==>
      s.cache.data.value.got == s.threads[t].at
  }

  /** It may be overtaken: a thread that looked before a replacement hits newer data. */
  lemma HitMayBeNewer(stamps: Stamps) returns (actions: seq<Action>)
    requires GoodStamps(stamps) && |stamps| >= 2
    ensures var s := Run(stamps, Init(2), actions);
            Enabled(stamps, s, Check(1)) && Hits(stamps, s.cache, s.threads[1].at) &&
            Next(stamps, s, Check(1)).threads == [Returned(0, 1, 1), Returned(0, 1, 1)]
  {
    var m := if stamps[0].Some? then stamps[0].value else ZERO;
    actions := [Stat(0)] + ([Check(0)] + ([Stat(1)] + ([Replace] + ([Read(0)] + ([Store(0)] + [])))));
    var none, loaded := Cache(None, ZERO), Cache(Some(Load(0, 1)), m);
    var s0 := Init(2);
    assert s0.threads == [Idle, Idle];
    var s1 := State(0, none, [Statted(0), Idle]);
    var s2 := State(0, none, [Missed(0), Idle]);
    var s3 := State(0, none, [Missed(0), Statted(0)]);
    var s4 := State(1, none, [Missed(0), Statted(0)]);
    var s5 := State(1, none, [Reading(0, 1), Statted(0)]);
    var s6 := State(1, loaded, [Returned(0, 1, 1), Statted(0)]);
    RunOne(stamps, s0, Stat(0), [Check(0)] + ([Stat(1)] + ([Replace] + ([Read(0)] + ([Store(0)] + [])))));
    assert Next(stamps, s0, Stat(0)) == s1;
    RunOne(stamps, s1, Check(0), [Stat(1)] + ([Replace] + ([Read(0)] + ([Store(0)] + []))));
    assert Next(stamps, s1, Check(0)) == s2;
    RunOne(stamps, s2, Stat(1), [Replace] + ([Read(0)] + ([Store(0)] + [])));
    assert Next(stamps, s2, Stat(1)) == s3;
    RunOne(stamps, s3, Replace, [Read(0)] + ([Store(0)] + []));
    assert Next(stamps, s3, Replace) == s4;
    RunOne(stamps, s4, Read(0), [Store(0)] + []);
    assert Next(stamps, s4, Read(0)) == s5;
    RunOne(stamps, s5, Store(0), []);
    assert Next(stamps, s5, Store(0)) == s6;
  }

  /** Every hit in every run returns exactly the version of the call's stat if and only if the
      file is never replaced. */
  lemma HitsExactIff(stamps: Stamps)
    requires GoodStamps(stamps)
    ensures (forall n: nat, actions: seq<Action> :: HitsExact(stamps, Run(stamps, Init(n), actions))) <==> |stamps| == 1
  {
    if |stamps| == 1 {
      forall n: nat, actions: seq<Action> ensures HitsExact(stamps, Run(stamps, Init(n), actions)) {
        RunKeepsInv(stamps, Init(n), actions);
        OneVersionExact(stamps, Run(stamps, Init(n), actions));
      }
    } else {
      var actions := HitMayBeNewer(stamps);
      var s := Run(stamps, Init(2), actions);
      assert Next(stamps, s, Check(1)).threads[1] == Returned(s.threads[1].at, s.cache.data.value.got, s.current);
    }
  }

  lemma OneVersionExact(stamps: Stamps, s: State)
    requires |stamps| == 1 && Inv(stamps, s)
    ensures HitsExact(stamps, s)
  {
    forall t: nat | Enabled(stamps, s, Check(t)) && Hits(stamps, s.cache, s.threads[t].at)
      ensures s.cache.data.value.got == s.threads[t].at
    {
      assert ThreadOk(stamps, s, t);
    }
  }
}
