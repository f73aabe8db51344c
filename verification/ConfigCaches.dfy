/** The whole cache: `CachedUserInfo::new` on top of the mtime caches of the user and the ACL
    configuration. Every reader is a thread of both mtime caches and runs their stat, check, read
    and store steps one by one, interleaved with all others, with saves and with the clock. */
module ConfigCaches {
  import opened Wrappers
  import M = MtimeCache
  import U = UserInfoCache

  datatype Files = Files(user: M.Stamps, acl: M.Stamps)
  {
    function Of(f: U.File): M.Stamps { if f.User? then user else acl }
  }

  datatype System = System(outer: U.State, user: M.State, acl: M.State)
  {
    function Of(f: U.File): M.State { if f.User? then user else acl }
    function With(f: U.File, m: M.State): System { if f.User? then this.(user := m) else this.(acl := m) }
  }

  datatype Action =
    | Outer(a: U.Action)
    | Replace(w: nat, file: U.File)
    | Stat(file: U.File, t: nat)
    | Check(file: U.File, t: nat)
    | Read(file: U.File, t: nat)
    | Store(file: U.File, t: nat)

  function Init(clock: int, readers: nat, writers: nat): System
  {
    System(U.Init(clock, readers, writers), M.Init(readers), M.Init(readers))
  }

  /** The reader is loading this file. */
  predicate Loads(s: System, f: U.File, t: nat)
  {
    t < |s.outer.readers| && if f.User? then s.outer.readers[t].LoadingUser? else s.outer.readers[t].LoadingAcl?
  }

  /** The steps of the outer cache that do not touch a file. */
  predicate IsOuter(a: U.Action)
  {
    a.Tick? || a.Bump? || a.ReadClock? || a.ReadTag? || a.Check? || a.Store?
  }

  predicate Enabled(mode: U.Generation, files: Files, s: System, a: Action)
  {
    match a
    case Outer(o) => IsOuter(o) && U.Enabled(mode, s.outer, o)
    case Replace(w, f) => U.Enabled(mode, s.outer, U.Replace(w, f)) && M.Enabled(files.Of(f), s.Of(f), M.Replace)
    case Stat(f, t) =>
      M.Enabled(files.Of(f), s.Of(f), M.Stat(t)) &&
      if f.User? then U.Enabled(mode, s.outer, U.BeginUser(t)) else Loads(s, f, t)
    case Check(f, t) => Loads(s, f, t) && M.Enabled(files.Of(f), s.Of(f), M.Check(t))
    case Read(f, t) => Loads(s, f, t) && M.Enabled(files.Of(f), s.Of(f), M.Read(t))
    case Store(f, t) => Loads(s, f, t) && M.Enabled(files.Of(f), s.Of(f), M.Store(t))
  }

  /** The step of the file's mtime cache; when its call returned, the reader has what it returned. */
  function Inner(files: Files, s: System, f: U.File, t: nat, a: M.Action): System
    requires Loads(s, f, t)
  {
    var m := M.Next(files.Of(f), s.Of(f), a);
    var u := s.With(f, m);
    if t < |m.threads| && m.threads[t].Returned? then
      u.(outer := if f.User? then U.UserLoaded(s.outer, t, m.threads[t].got)
                  else U.AclLoaded(s.outer, t, m.threads[t].got))
    else u
  }

  /** One step; an action that is not enabled does nothing. */
  function Next(mode: U.Generation, files: Files, s: System, a: Action): System
  {
    if !Enabled(mode, files, s, a) then s
    else
      match a
      case Outer(o) => s.(outer := U.Next(mode, s.outer, o))
      case Replace(w, f) =>
        s.(outer := U.Next(mode, s.outer, U.Replace(w, f))).With(f, M.Next(files.Of(f), s.Of(f), M.Replace))
      case Stat(f, t) =>
        var u := s.With(f, M.Next(files.Of(f), s.Of(f), M.Stat(t)));
        if f.User? then u.(outer := U.Next(mode, s.outer, U.BeginUser(t))) else u
      case Check(f, t) => Inner(files, s, f, t, M.Check(t))
      case Read(f, t) => Inner(files, s, f, t, M.Read(t))
      case Store(f, t) => Inner(files, s, f, t, M.Store(t))
  }

  function Run(mode: U.Generation, files: Files, s: System, actions: seq<Action>): System
    decreases |actions|
  {
    if actions == [] then s else Run(mode, files, Next(mode, files, s, actions[0]), actions[1..])
  }

  // ---------------------------------------------------------------- the invariant

  ghost predicate GoodFiles(files: Files)
  {
    M.GoodStamps(files.user) && M.NeverRecreated(files.user) && M.GoodStamps(files.acl) && M.NeverRecreated(files.acl)
  }

  /** A thread between its stat and its return. */
  predicate Busy(pc: M.Pc)
  {
    pc.Statted? || pc.Missed? || pc.Reading?
  }

  /** A reader is busy in a mtime cache only while it loads that file, and then its stat saw the
      version current when the load began or a later one. */
  ghost predicate Linked(s: System, f: U.File, t: nat)
    requires t < |s.Of(f).threads| && t < |s.outer.readers|
  {
    (Busy(s.Of(f).threads[t]) ==> Loads(s, f, t) && s.outer.readers[t].from <= s.Of(f).threads[t].at) &&
    (Loads(s, f, t) ==> s.outer.readers[t].from <= s.Of(f).current) &&
    (f.User? && Loads(s, f, t) ==> Busy(s.Of(f).threads[t]))
  }

  ghost predicate FileInv(files: Files, s: System, f: U.File)
  {
    M.Inv(files.Of(f), s.Of(f)) && s.Of(f).current == s.outer.current.Of(f) &&
    |s.Of(f).threads| == |s.outer.readers| &&
    forall t: nat :: t < |s.outer.readers| ==> Linked(s, f, t)
  }

  ghost predicate Inv(files: Files, s: System)
  {
    FileInv(files, s, U.User) && FileInv(files, s, U.Acl)
  }

  // ---------------------------------------------------------------- refinement

  /** The steps of `UserInfoCache` a step of the system stands for. */
  ghost function Abstract(mode: U.Generation, files: Files, s: System, a: Action): seq<U.Action>
  {
    if !Enabled(mode, files, s, a) then []
    else
      match a
      case Outer(o) => [o]
      case Replace(w, f) => [U.Replace(w, f)]
      case Stat(f, t) => if f.User? then [U.BeginUser(t)] else []
      case Check(f, t) => Ended(files, s, f, t, M.Check(t))
      case Read(f, t) => Ended(files, s, f, t, M.Read(t))
      case Store(f, t) => Ended(files, s, f, t, M.Store(t))
  }

  ghost function Ended(files: Files, s: System, f: U.File, t: nat, a: M.Action): seq<U.Action>
  {
    var m := M.Next(files.Of(f), s.Of(f), a);
    if t < |m.threads| && m.threads[t].Returned? then
      [if f.User? then U.EndUser(t, m.threads[t].got) else U.EndAcl(t, m.threads[t].got)]
    else []
  }

  lemma OneStep(mode: U.Generation, s: U.State, a: U.Action)
    ensures U.Run(mode, s, [a]) == U.Next(mode, s, a)
  {
    assert [a][1..] == [];
  }

  /** A call of a mtime cache that returns gives a version current during the load, so the outer
      step is one of `UserInfoCache`. */
  lemma InnerRefines(mode: U.Generation, files: Files, s: System, f: U.File, t: nat, a: M.Action)
    requires GoodFiles(files) && Inv(files, s) && Loads(s, f, t)
    requires a == M.Check(t) || a == M.Read(t) || a == M.Store(t)
    requires M.Enabled(files.Of(f), s.Of(f), a)
    ensures Inner(files, s, f, t, a).outer == U.Run(mode, s.outer, Ended(files, s, f, t, a))
  {
    ReturnInRange(files, s, f, t, a);
    hide M.Next, M.Enabled, FileInv, GoodFiles;
    if Ended(files, s, f, t, a) != [] { OneStep(mode, s.outer, Ended(files, s, f, t, a)[0]); }
  }

  lemma ReturnInRange(files: Files, s: System, f: U.File, t: nat, a: M.Action)
    requires GoodFiles(files) && FileInv(files, s, f) && Loads(s, f, t)
    requires a == M.Check(t) || a == M.Read(t) || a == M.Store(t)
    requires M.Enabled(files.Of(f), s.Of(f), a)
    ensures var m := M.Next(files.Of(f), s.Of(f), a);
            t < |m.threads| &&
            (m.threads[t].Returned? ==> s.outer.readers[t].from <= m.threads[t].got <= s.outer.current.Of(f))
  {
    M.StepKeepsInv(files.Of(f), s.Of(f), a);
    assert Linked(s, f, t);
    assert M.ThreadOk(files.Of(f), M.Next(files.Of(f), s.Of(f), a), t);
  }

  lemma StepRefines(mode: U.Generation, files: Files, s: System, a: Action)
    requires GoodFiles(files) && Inv(files, s)
    ensures Next(mode, files, s, a).outer == U.Run(mode, s.outer, Abstract(mode, files, s, a))
  {
    hide U.Next, M.Next, U.Enabled, M.Enabled, GoodFiles, Inv, Ended;
    if Enabled(mode, files, s, a) {
      match a
      case Outer(o) => OneStep(mode, s.outer, o);
      case Replace(w, f) => OneStep(mode, s.outer, U.Replace(w, f));
      case Stat(f, t) => if f.User? { OneStep(mode, s.outer, U.BeginUser(t)); }
      case Check(f, t) => InnerRefines(mode, files, s, f, t, M.Check(t));
      case Read(f, t) => InnerRefines(mode, files, s, f, t, M.Read(t));
      case Store(f, t) => InnerRefines(mode, files, s, f, t, M.Store(t));
    }
  }

  lemma OuterKeeps(mode: U.Generation, files: Files, s: System, o: U.Action, f: U.File)
    requires FileInv(files, s, f) && IsOuter(o) && U.Enabled(mode, s.outer, o)
    ensures FileInv(files, s.(outer := U.Next(mode, s.outer, o)), f)
  {
    var u := s.(outer := U.Next(mode, s.outer, o));
    assert u.Of(f) == s.Of(f);
    forall t: nat | t < |u.outer.readers| ensures Linked(u, f, t) { assert Linked(s, f, t); }
  }

  lemma ReplaceKeeps(mode: U.Generation, files: Files, s: System, w: nat, g: U.File, f: U.File)
    requires GoodFiles(files) && FileInv(files, s, f) && Enabled(mode, files, s, Replace(w, g))
    ensures FileInv(files, Next(mode, files, s, Replace(w, g)), f)
  {
    var u := Next(mode, files, s, Replace(w, g));
    M.StepKeepsInv(files.Of(f), s.Of(f), M.Replace);
    assert u.outer.readers == s.outer.readers && u.Of(f).threads == s.Of(f).threads;
    forall t: nat | t < |u.outer.readers| ensures Linked(u, f, t) { assert Linked(s, f, t); }
  }

  lemma StatKeeps(mode: U.Generation, files: Files, s: System, g: U.File, t: nat, f: U.File)
    requires GoodFiles(files) && FileInv(files, s, f) && Enabled(mode, files, s, Stat(g, t))
    ensures FileInv(files, Next(mode, files, s, Stat(g, t)), f)
  {
    var u := Next(mode, files, s, Stat(g, t));
    M.StepKeepsInv(files.Of(f), s.Of(f), M.Stat(t));
    forall k: nat | k < |u.outer.readers| ensures Linked(u, f, k) { assert Linked(s, f, k); }
  }

  lemma InnerKeeps(files: Files, s: System, g: U.File, t: nat, a: M.Action, f: U.File)
    requires GoodFiles(files) && FileInv(files, s, f) && FileInv(files, s, g) && Loads(s, g, t)
    requires a == M.Check(t) || a == M.Read(t) || a == M.Store(t)
    requires M.Enabled(files.Of(g), s.Of(g), a)
    ensures FileInv(files, Inner(files, s, g, t, a), f)
  {
    var u := Inner(files, s, g, t, a);
    if f == g { M.StepKeepsInv(files.Of(f), s.Of(f), a); }
    forall k: nat | k < |u.outer.readers| ensures Linked(u, f, k) { assert Linked(s, f, k) && Linked(s, g, k); }
  }

  lemma StepKeepsInv(mode: U.Generation, files: Files, s: System, a: Action)
    requires GoodFiles(files) && Inv(files, s)
    ensures Inv(files, Next(mode, files, s, a))
  {
    hide FileInv, GoodFiles, U.Next, M.Next, U.Enabled, M.Enabled, Inner;
    if Enabled(mode, files, s, a) {
      forall f: U.File ensures FileInv(files, Next(mode, files, s, a), f) {
        assert FileInv(files, s, f) by { assert f == U.User || f == U.Acl; }
        match a
        case Outer(o) => OuterKeeps(mode, files, s, o, f);
        case Replace(w, g) => ReplaceKeeps(mode, files, s, w, g, f);
        case Stat(g, t) => StatKeeps(mode, files, s, g, t, f);
        case Check(g, t) => InnerKeeps(files, s, g, t, M.Check(t), f);
        case Read(g, t) => InnerKeeps(files, s, g, t, M.Read(t), f);
        case Store(g, t) => InnerKeeps(files, s, g, t, M.Store(t), f);
      }
    }
  }

  lemma InitInv(files: Files, clock: int, readers: nat, writers: nat)
    requires GoodFiles(files)
    ensures Inv(files, Init(clock, readers, writers))
  {
    var s := Init(clock, readers, writers);
    forall f: U.File, t: nat | t < readers ensures Linked(s, f, t) {}
  }

  /** Every run of the system is, seen from outside, a run of `UserInfoCache`. */
  lemma {:induction false} RunRefines(mode: U.Generation, files: Files, s: System, actions: seq<Action>)
    returns (outer: seq<U.Action>)
    requires GoodFiles(files) && Inv(files, s)
    ensures Inv(files, Run(mode, files, s, actions))
    ensures Run(mode, files, s, actions).outer == U.Run(mode, s.outer, outer)
    decreases |actions|
  {
    hide Inv, GoodFiles, Next, U.Next, Abstract;
    if actions == [] {
      outer := [];
    } else {
      StepKeepsInv(mode, files, s, actions[0]);
      StepRefines(mode, files, s, actions[0]);
      var next := Next(mode, files, s, actions[0]);
      var first := Abstract(mode, files, s, actions[0]);
      var rest := RunRefines(mode, files, next, actions[1..]);
      outer := first + rest;
      U.RunAppend(mode, s.outer, first, rest);
    }
  }

  /** In every interleaving of readers, of the steps of both mtime caches, of saves and of the
      clock, a call begun after a save returned yields that save or a later one. */
  lemma RunsFresh(mode: U.Generation, files: Files, clock: int, readers: nat, writers: nat, actions: seq<Action>)
    requires GoodFiles(files) && !mode.Sometimes?
    ensures U.Fresh(Run(mode, files, Init(clock, readers, writers), actions).outer)
  {
    hide Inv, GoodFiles, Run;
    InitInv(files, clock, readers, writers);
    var outer := RunRefines(mode, files, Init(clock, readers, writers), actions);
    U.RunsFresh(mode, clock, readers, writers, outer);
  }

  lemma StepOnTime(mode: U.Generation, files: Files, s: System, a: Action)
    requires U.OnTime(s.outer)
    ensures U.OnTime(Next(mode, files, s, a).outer)
  {
    hide U.OnTime, U.Next, U.Enabled, M.Next, M.Enabled;
    if Enabled(mode, files, s, a) {
      match a
      case Outer(o) => U.StepOnTime(mode, s.outer, o);
      case Replace(w, f) => U.StepOnTime(mode, s.outer, U.Replace(w, f));
      case Stat(f, t) => U.StepOnTime(mode, s.outer, U.BeginUser(t));
      case Check(f, t) => InnerOnTime(files, s, f, t, M.Check(t));
      case Read(f, t) => InnerOnTime(files, s, f, t, M.Read(t));
      case Store(f, t) => InnerOnTime(files, s, f, t, M.Store(t));
    }
  }

  lemma InnerOnTime(files: Files, s: System, f: U.File, t: nat, a: M.Action)
    requires U.OnTime(s.outer) && Loads(s, f, t)
    ensures U.OnTime(Inner(files, s, f, t, a).outer)
  {
    hide U.OnTime, M.Next;
    var m := M.Next(files.Of(f), s.Of(f), a);
    if t < |m.threads| && m.threads[t].Returned? { U.LoadOnTime(s.outer, t, m.threads[t].got); }
  }

  lemma {:induction false} RunOnTime(mode: U.Generation, files: Files, s: System, actions: seq<Action>)
    requires U.OnTime(s.outer)
    ensures U.OnTime(Run(mode, files, s, actions).outer)
    decreases |actions|
  {
    hide U.OnTime, Next;
    if actions != [] {
      StepOnTime(mode, files, s, actions[0]);
      RunOnTime(mode, files, Next(mode, files, s, actions[0]), actions[1..]);
    }
  }

  /** In every interleaving, for any files, the load behind a hit began less than five seconds before
      the call's clock reading. */
  lemma RunsRecent(mode: U.Generation, files: Files, clock: int, readers: nat, writers: nat, actions: seq<Action>)
    ensures U.Recent(Run(mode, files, Init(clock, readers, writers), actions).outer)
  {
    RunOnTime(mode, files, Init(clock, readers, writers), actions);
    U.OnTimeIsRecent(Run(mode, files, Init(clock, readers, writers), actions).outer);
  }

  // ---------------------------------------------------------------- an unreliable generation

  lemma {:induction false} RunAppend(mode: U.Generation, files: Files, s: System, a: seq<Action>, b: seq<Action>)
    ensures Run(mode, files, s, a + b) == Run(mode, files, Run(mode, files, s, a), b)
    decreases |a|
  {
    hide Next;
    if a == [] {
      assert a + b == b;
    } else {
      assert (a + b)[1..] == a[1..] + b;
      RunAppend(mode, files, Next(mode, files, s, a[0]), a[1..], b);
    }
  }

  /** `s` is reached from `s0`. */
  ghost predicate Reached(mode: U.Generation, files: Files, s0: System, done: seq<Action>, s: System)
  {
    GoodFiles(files) && Inv(files, s) && Run(mode, files, s0, done) == s
  }

  lemma Extend(mode: U.Generation, files: Files, s0: System, done: seq<Action>, s: System, a: Action)
    requires Reached(mode, files, s0, done, s)
    ensures Reached(mode, files, s0, done + [a], Next(mode, files, s, a))
  {
    hide Next, Inv, GoodFiles;
    RunAppend(mode, files, s0, done, [a]);
    assert [a][1..] == [];
    StepKeepsInv(mode, files, s, a);
  }

  function Finished(f: U.File, s: U.State, t: nat, v: nat): U.State
    requires t < |s.readers| && if f.User? then s.readers[t].LoadingUser? else s.readers[t].LoadingAcl?
  {
    if f.User? then U.UserLoaded(s, t, v) else U.AclLoaded(s, t, v)
  }

  function Other(f: U.File): U.File
  {
    if f.User? then U.Acl else U.User
  }

  /** A check right after the stat returns the current version or misses. */
  lemma CheckNow(mode: U.Generation, files: Files, s: System, f: U.File, t: nat)
    requires GoodFiles(files) && Inv(files, s) && Loads(s, f, t) && s.Of(f).threads[t] == M.Statted(s.Of(f).current)
    ensures Enabled(mode, files, s, Check(f, t))
    ensures var u := Next(mode, files, s, Check(f, t));
            var v := s.Of(f).current;
            (u.outer == Finished(f, s.outer, t, s.outer.current.Of(f))) ||
            (u.outer == s.outer && u.Of(f).current == v && u.Of(f).threads == s.Of(f).threads[t := M.Missed(v)])
    ensures Next(mode, files, s, Check(f, t)).Of(Other(f)) == s.Of(Other(f))
  {
    ReturnInRange(files, s, f, t, M.Check(t));
    assert Linked(s, f, t);
    M.StepKeepsInv(files.Of(f), s.Of(f), M.Check(t));
    assert M.ThreadOk(files.Of(f), M.Next(files.Of(f), s.Of(f), M.Check(t)), t);
  }

  /** A miss reads and stores the current version. */
  lemma ReadNow(mode: U.Generation, files: Files, s: System, f: U.File, t: nat)
    requires Inv(files, s) && Loads(s, f, t) && s.Of(f).threads[t] == M.Missed(s.Of(f).current)
    ensures var v := s.Of(f).current;
            var u := Next(mode, files, s, Read(f, t));
            u.outer == s.outer && u.Of(f).current == v && u.Of(f).threads == s.Of(f).threads[t := M.Reading(v, v)] &&
            Next(mode, files, u, Store(f, t)).outer == Finished(f, s.outer, t, s.outer.current.Of(f)) &&
            u.Of(Other(f)) == s.Of(Other(f)) == Next(mode, files, u, Store(f, t)).Of(Other(f))
  {
    assert FileInv(files, s, f);
  }

  /** A load that nothing interrupts gives the current version. */
  lemma LoadFile(mode: U.Generation, files: Files, s0: System, done: seq<Action>, s: System, f: U.File, t: nat)
    returns (more: seq<Action>, u: System)
    requires Reached(mode, files, s0, done, s) && Loads(s, f, t)
    requires t < |s.Of(f).threads| && s.Of(f).threads[t] == M.Statted(s.Of(f).current)
    ensures Reached(mode, files, s0, more, u) && u.outer == Finished(f, s.outer, t, s.outer.current.Of(f))
    ensures u.Of(Other(f)) == s.Of(Other(f))
  {
    hide Next, Run, GoodFiles, Inv;
    CheckNow(mode, files, s, f, t);
    Extend(mode, files, s0, done, s, Check(f, t));
    more, u := done + [Check(f, t)], Next(mode, files, s, Check(f, t));
    if u.outer == s.outer {
      ReadNow(mode, files, u, f, t);
      Extend(mode, files, s0, more, u, Read(f, t));
      more, u := more + [Read(f, t)], Next(mode, files, u, Read(f, t));
      Extend(mode, files, s0, more, u, Store(f, t));
      more, u := more + [Store(f, t)], Next(mode, files, u, Store(f, t));
    }
  }

  /** A reader that missed starts with the user configuration. */
  lemma BeginUser(mode: U.Generation, files: Files, s: System, t: nat)
    requires GoodFiles(files) && Inv(files, s) && t < |s.outer.readers| && s.outer.readers[t].Missed?
    ensures var u := Next(mode, files, s, Stat(U.User, t));
            u.outer == U.Next(mode, s.outer, U.BeginUser(t)) && Loads(u, U.User, t) && u.acl == s.acl &&
            t < |u.user.threads| && u.user.threads[t] == M.Statted(u.user.current) &&
            t < |s.acl.threads| && !Busy(s.acl.threads[t])
  {
    assert Linked(s, U.User, t) && Linked(s, U.Acl, t);
  }

  /** And goes on with the ACL. */
  lemma BeginAcl(mode: U.Generation, files: Files, s: System, t: nat)
    requires Inv(files, s) && Loads(s, U.Acl, t) && t < |s.acl.threads| && !Busy(s.acl.threads[t])
    ensures var u := Next(mode, files, s, Stat(U.Acl, t));
            u.outer == s.outer && Loads(u, U.Acl, t) && t < |u.acl.threads| &&
            u.acl.threads[t] == M.Statted(u.acl.current)
  {
  }

  /** One complete load by reader `t`, up to the point before the store. */
  lemma LoadBoth(mode: U.Generation, files: Files, s0: System, done: seq<Action>, s: System, t: nat)
    returns (more: seq<Action>, u: System)
    requires Reached(mode, files, s0, done, s) && t < |s.outer.readers| && s.outer.readers[t].Missed?
    ensures Reached(mode, files, s0, more, u)
    ensures var r := s.outer.readers[t];
            u.outer == U.StepReader(s.outer, t, U.Loaded(r.now, r.must, r.tag, s.outer.clock, s.outer.current))
  {
    hide Next, Run, GoodFiles, Inv, Busy;
    BeginUser(mode, files, s, t);
    Extend(mode, files, s0, done, s, Stat(U.User, t));
    more, u := done + [Stat(U.User, t)], Next(mode, files, s, Stat(U.User, t));
    more, u := LoadFile(mode, files, s0, more, u, U.User, t);
    BeginAcl(mode, files, u, t);
    Extend(mode, files, s0, more, u, Stat(U.Acl, t));
    more, u := more + [Stat(U.Acl, t)], Next(mode, files, u, Stat(U.Acl, t));
    more, u := LoadFile(mode, files, s0, more, u, U.Acl, t);
  }

  /** A step that touches no file. */
  lemma OuterStep(mode: U.Generation, files: Files, s0: System, done: seq<Action>, s: System, o: U.Action)
    returns (more: seq<Action>, u: System)
    requires Reached(mode, files, s0, done, s) && IsOuter(o) && U.Enabled(mode, s.outer, o)
    ensures Reached(mode, files, s0, more, u) && u.outer == U.Next(mode, s.outer, o)
  {
    hide Run, GoodFiles, Inv, U.Next, U.Enabled;
    Extend(mode, files, s0, done, s, Outer(o));
    more, u := done + [Outer(o)], Next(mode, files, s, Outer(o));
  }

  /** A call by an idle reader while the outer cache is empty, up to the point before the store. */
  lemma Call(mode: U.Generation, files: Files, s0: System, done: seq<Action>, s: System, t: nat, ok: bool)
    returns (more: seq<Action>, u: System)
    requires Reached(mode, files, s0, done, s) && t < |s.outer.readers| && s.outer.readers[t].Idle?
    requires U.TagAllowed(mode, ok) && s.outer.cache.data.None?
    ensures Reached(mode, files, s0, more, u)
    ensures var tag := if ok then Some(s.outer.generation) else None;
            u.outer == U.StepReader(s.outer, t,
                                    U.Loaded(s.outer.clock, s.outer.saved, tag, s.outer.clock, s.outer.current))
  {
    hide Run, GoodFiles, Inv, Next;
    more, u := OuterStep(mode, files, s0, done, s, U.ReadClock(t));
    more, u := OuterStep(mode, files, s0, more, u, U.ReadTag(t, ok));
    more, u := OuterStep(mode, files, s0, more, u, U.Check(t));
    more, u := LoadBoth(mode, files, s0, more, u, t);
  }

  lemma ReplaceStep(mode: U.Generation, files: Files, s0: System, done: seq<Action>, s: System, f: U.File)
    returns (more: seq<Action>, u: System)
    requires Reached(mode, files, s0, done, s) && |s.outer.writers| > 0 && s.outer.writers[0].Resting?
    requires s.outer.current.Of(f) + 1 < |files.Of(f)|
    ensures Reached(mode, files, s0, more, u) && u.outer == U.Next(mode, s.outer, U.Replace(0, f))
  {
    hide Run, GoodFiles, U.Next;
    assert FileInv(files, s, f);
    Extend(mode, files, s0, done, s, Replace(0, f));
    more, u := done + [Replace(0, f)], Next(mode, files, s, Replace(0, f));
  }

  /** A reader that found no generation stores old data under the tag of a newer load. */
  lemma UnreliableGenerationBreaks(files: Files, f: U.File) returns (actions: seq<Action>)
    requires GoodFiles(files) && |files.Of(f)| >= 2
    ensures !U.Fresh(Run(U.Sometimes, files, Init(0, 3, 1), actions).outer)
  {
    var s0 := Init(0, 3, 1);
    InitInv(files, 0, 3, 1);
    assert s0.outer.readers == [U.Idle, U.Idle, U.Idle] && s0.outer.writers == [U.Resting];
    hide Run, GoodFiles, Inv, Next;
    actions := [];
    var s := s0;
    assert Reached(U.Sometimes, files, s0, actions, s) by { NothingRun(U.Sometimes, files, s0); }
    var zero := U.Pair(0, 0);
    var one := zero.With(f, 1);
    var l0, l1 := U.Loaded(0, zero, None, 0, zero), U.Loaded(0, one, Some(1), 0, one);
    actions, s := Call(U.Sometimes, files, s0, actions, s, 0, false);
    assert s.outer.readers == [l0, U.Idle, U.Idle];
    actions, s := ReplaceStep(U.Sometimes, files, s0, actions, s, f);
    actions, s := OuterStep(U.Sometimes, files, s0, actions, s, U.Bump(0));
    assert s.outer.current == one && s.outer.saved == one && s.outer.generation == 1;
    actions, s := Call(U.Sometimes, files, s0, actions, s, 1, true);
    assert s.outer.readers == [l0, l1, U.Idle];
    actions := StaleHit(files, s0, actions, s, zero, one);
  }

  lemma NothingRun(mode: U.Generation, files: Files, s: System)
    ensures Run(mode, files, s, []) == s
  {
  }

  lemma StaleHit(files: Files, s0: System, done: seq<Action>, s1: System, zero: U.Pair, one: U.Pair)
    returns (actions: seq<Action>)
    requires Reached(U.Sometimes, files, s0, done, s1) && !one.AtMost(zero)
    requires s1.outer.generation == 1 && s1.outer.clock == 0 && s1.outer.saved == one
    requires s1.outer.readers == [U.Loaded(0, zero, None, 0, zero), U.Loaded(0, one, Some(1), 0, one), U.Idle]
    ensures !U.Fresh(Run(U.Sometimes, files, s0, actions).outer)
  {
    hide Run, GoodFiles, Inv, Next;
    var s := s1;
    actions, s := OuterStep(U.Sometimes, files, s0, done, s, U.Store(1));
    assert s.outer.cache == U.Cache(Some(U.Data(one, 0)), 0, 1);
    actions, s := OuterStep(U.Sometimes, files, s0, actions, s, U.Store(0));
    assert s.outer.cache == U.Cache(Some(U.Data(zero, 0)), 0, 1);
    actions, s := OuterStep(U.Sometimes, files, s0, actions, s, U.ReadClock(2));
    actions, s := OuterStep(U.Sometimes, files, s0, actions, s, U.ReadTag(2, true));
    actions, s := OuterStep(U.Sometimes, files, s0, actions, s, U.Check(2));
    assert s.outer.readers[2] == U.Returned(0, one, 0, zero, true);
  }

  /** Without a second version there is nothing newer to return. */
  lemma OneVersionFresh(mode: U.Generation, files: Files, clock: int, readers: nat, writers: nat, actions: seq<Action>)
    requires GoodFiles(files) && |files.user| == 1 && |files.acl| == 1
    ensures U.Fresh(Run(mode, files, Init(clock, readers, writers), actions).outer)
  {
    InitInv(files, clock, readers, writers);
    var s0 := Init(clock, readers, writers);
    var outer := RunRefines(mode, files, s0, actions);
    U.InitInv(mode, clock, readers, writers);
    U.RunKeepsInv(mode, s0.outer, outer);
    var s := Run(mode, files, s0, actions);
    assert s.outer.current == U.Pair(0, 0);
    forall t | 0 <= t < |s.outer.readers| && s.outer.readers[t].Returned?
      ensures s.outer.readers[t].must.AtMost(s.outer.readers[t].got)
    {
      assert U.ReaderOk(mode, s.outer, s.outer.readers[t]);
    }
  }

  /** Every call in every run is fresh exactly when the generation is always or never there, or no
      file is ever replaced. */
  lemma FreshIff(mode: U.Generation, files: Files)
    requires GoodFiles(files)
    ensures (forall clock: int, readers: nat, writers: nat, actions: seq<Action> ::
               U.Fresh(Run(mode, files, Init(clock, readers, writers), actions).outer)) <==>
            !mode.Sometimes? || (|files.user| == 1 && |files.acl| == 1)
  {
    hide Run, GoodFiles, U.Fresh, Init;
    if !mode.Sometimes? || (|files.user| == 1 && |files.acl| == 1) {
      forall clock: int, readers: nat, writers: nat, actions: seq<Action>
        ensures U.Fresh(Run(mode, files, Init(clock, readers, writers), actions).outer)
      {
        if mode.Sometimes? {
          OneVersionFresh(mode, files, clock, readers, writers, actions);
        } else {
          RunsFresh(mode, files, clock, readers, writers, actions);
        }
      }
    } else {
      SomeVersion(files);
      var f := if |files.user| >= 2 then U.User else U.Acl;
      var actions := UnreliableGenerationBreaks(files, f);
    }
  }

  lemma SomeVersion(files: Files)
    requires GoodFiles(files)
    ensures |files.user| >= 1 && |files.acl| >= 1
  {
  }
}
