/** A configuration file that is created after it was missing: a stale load can hide it from
    calls begun after its save returned, in both caches together and whatever the generation
    does. */
module ConfigRecreation {
  import opened Wrappers
  import M = MtimeCache
  import U = UserInfoCache
  import opened ConfigCaches

  ghost predicate At(mode: U.Generation, files: Files, done: seq<Action>, s: System)
  {
    Run(mode, files, Init(0, 3, 1), done) == s
  }

  lemma Go(mode: U.Generation, files: Files, done: seq<Action>, s: System, a: Action)
    requires At(mode, files, done, s)
    ensures At(mode, files, done + [a], Next(mode, files, s, a))
  {
    hide Next, Init;
    RunAppend(mode, files, Init(0, 3, 1), done, [a]);
    assert [a][1..] == [];
  }

  /** The stamp the cache holds after a load of version 0. */
  function FirstStamp(stamps: M.Stamps): M.Stamp
    requires stamps != []
  {
    match stamps[0] case Some(m) => m case None => M.ZERO
  }

  /** A file that is never replaced: whatever was loaded is version 0. */
  ghost predicate Quiet(stamps: M.Stamps, m: M.State)
  {
    stamps != [] && m.current == 0 && |m.threads| == 3 &&
    (m.cache == M.Cache(None, M.ZERO) || m.cache == M.Cache(Some(M.Load(0, 0)), FirstStamp(stamps)))
  }

  ghost predicate Resting(m: M.State)
  {
    forall t :: 0 <= t < |m.threads| ==> !Busy(m.threads[t])
  }

  /** The outer cache, the state of file `f`, and the other file at rest in version 0. */
  ghost predicate Scene(files: Files, f: U.File, s: System, outer: U.State, fs: M.State)
  {
    s.outer == outer && s.Of(f) == fs && |outer.readers| == 3 && |fs.threads| == 3 &&
    Quiet(files.Of(Other(f)), s.Of(Other(f))) && Resting(s.Of(Other(f)))
  }

  // ---------------------------------------------------------------- the file that rests

  /** A load of the resting file, right after its stat, returns version 0 and changes nothing else. */
  lemma QuietLoad(mode: U.Generation, files: Files, done: seq<Action>, s: System, g: U.File, t: nat)
    returns (more: seq<Action>, u: System)
    requires At(mode, files, done, s) && Loads(s, g, t) && Quiet(files.Of(g), s.Of(g)) && t < 3
    requires s.Of(g).threads[t] == M.Statted(0)
    ensures At(mode, files, more, u) && u.outer == Finished(g, s.outer, t, 0) && u.Of(Other(g)) == s.Of(Other(g))
    ensures Quiet(files.Of(g), u.Of(g)) && u.Of(g).threads == s.Of(g).threads[t := M.Returned(0, 0, 0)]
  {
    hide At;
    Go(mode, files, done, s, Check(g, t));
    more, u := done + [Check(g, t)], Next(mode, files, s, Check(g, t));
    if s.Of(g).cache.data.None? {
      assert u.outer == s.outer && u.Of(g) == s.Of(g).(threads := s.Of(g).threads[t := M.Missed(0)]);
      Go(mode, files, more, u, Read(g, t));
      more, u := more + [Read(g, t)], Next(mode, files, u, Read(g, t));
      assert u.outer == s.outer && u.Of(g) == s.Of(g).(threads := s.Of(g).threads[t := M.Reading(0, 0)]);
      Go(mode, files, more, u, Store(g, t));
      more, u := more + [Store(g, t)], Next(mode, files, u, Store(g, t));
    }
  }

  // ---------------------------------------------------------------- moves

  lemma OuterMove(mode: U.Generation, files: Files, f: U.File, done: seq<Action>, s: System, outer: U.State,
                  fs: M.State, o: U.Action)
    returns (more: seq<Action>, u: System)
    requires At(mode, files, done, s) && Scene(files, f, s, outer, fs) && IsOuter(o) && U.Enabled(mode, outer, o)
    ensures At(mode, files, more, u) && Scene(files, f, u, U.Next(mode, outer, o), fs)
  {
    hide At, Quiet, Resting;
    Go(mode, files, done, s, Outer(o));
    more, u := done + [Outer(o)], Next(mode, files, s, Outer(o));
  }

  lemma ReplaceMove(mode: U.Generation, files: Files, f: U.File, done: seq<Action>, s: System, outer: U.State,
                    fs: M.State)
    returns (more: seq<Action>, u: System)
    requires At(mode, files, done, s) && Scene(files, f, s, outer, fs) && outer.writers == [U.Resting]
    requires fs.current + 1 < |files.Of(f)|
    ensures At(mode, files, more, u) &&
            Scene(files, f, u, U.Next(mode, outer, U.Replace(0, f)), fs.(current := fs.current + 1))
  {
    hide At, Quiet, Resting;
    Go(mode, files, done, s, Replace(0, f));
    more, u := done + [Replace(0, f)], Next(mode, files, s, Replace(0, f));
  }

  /** A step of the file's own cache. */
  lemma InnerMove(mode: U.Generation, files: Files, f: U.File, done: seq<Action>, s: System, outer: U.State,
                  fs: M.State, a: Action, m: M.Action)
    returns (more: seq<Action>, u: System)
    requires At(mode, files, done, s) && Scene(files, f, s, outer, fs) && M.Enabled(files.Of(f), fs, m)
    requires (m.Check? && a == Check(f, m.t)) || (m.Read? && a == Read(f, m.t)) || (m.Store? && a == Store(f, m.t))
    requires Loads(s, f, m.t)
    ensures var next := M.Next(files.Of(f), fs, m);
            At(mode, files, more, u) && m.t < |next.threads| &&
            Scene(files, f, u,
                  if next.threads[m.t].Returned? then Finished(f, outer, m.t, next.threads[m.t].got) else outer, next)
  {
    hide At, Quiet, Resting;
    Go(mode, files, done, s, a);
    more, u := done + [a], Next(mode, files, s, a);
  }

  /** The reader's state when it loads file `f`, from the state in which it missed the outer cache. */
  function Begun(f: U.File, outer: U.State, t: nat): U.State
    requires t < |outer.readers| && outer.readers[t].Missed?
  {
    var r := outer.readers[t];
    U.StepReader(outer, t,
      if f.User? then U.LoadingUser(r.now, r.must, r.tag, outer.clock, outer.current.user)
      else U.LoadingAcl(r.now, r.must, r.tag, outer.clock, 0, outer.current.acl))
  }

  /** From a miss to the stat of file `f`; the other file, if it comes first, is loaded. */
  lemma Prepare(mode: U.Generation, files: Files, f: U.File, done: seq<Action>, s: System, outer: U.State,
                fs: M.State, t: nat)
    returns (more: seq<Action>, u: System)
    requires At(mode, files, done, s) && Scene(files, f, s, outer, fs) && t < 3 && outer.readers[t].Missed?
    requires fs.current < |files.Of(f)| && !Busy(fs.threads[t])
    ensures At(mode, files, more, u)
    ensures Scene(files, f, u, Begun(f, outer, t), fs.(threads := fs.threads[t := M.Statted(fs.current)]))
  {
    hide At;
    Go(mode, files, done, s, Stat(U.User, t));
    more, u := done + [Stat(U.User, t)], Next(mode, files, s, Stat(U.User, t));
    if f.Acl? {
      assert u.user.threads[t] == M.Statted(0) && Loads(u, U.User, t);
      more, u := QuietLoad(mode, files, more, u, U.User, t);
      Go(mode, files, more, u, Stat(U.Acl, t));
      more, u := more + [Stat(U.Acl, t)], Next(mode, files, u, Stat(U.Acl, t));
    }
  }

  /** From the return of file `f` to the end of the load. */
  lemma Complete(mode: U.Generation, files: Files, f: U.File, done: seq<Action>, s: System, outer: U.State,
                 fs: M.State, t: nat, v: nat)
    returns (more: seq<Action>, u: System)
    requires At(mode, files, done, s) && Scene(files, f, s, outer, fs) && t < 3 && outer.cache.data.None?
    requires if f.User? then outer.readers[t].LoadingAcl? && outer.readers[t].user == v
             else outer.readers[t].Loaded? && outer.readers[t].got.acl == v
    ensures At(mode, files, more, u) && t < |u.outer.readers| && u.outer.readers[t].Loaded?
    ensures u.outer.readers[t].must == outer.readers[t].must && u.outer.readers[t].got.Of(f) == v
  {
    hide At;
    more, u := done, s;
    if f.User? {
      Go(mode, files, more, u, Stat(U.Acl, t));
      more, u := more + [Stat(U.Acl, t)], Next(mode, files, u, Stat(U.Acl, t));
      more, u := QuietLoad(mode, files, more, u, U.Acl, t);
    }
  }

  /** An idle reader calls, and misses the outer cache. */
  lemma Arrive(mode: U.Generation, files: Files, f: U.File, done: seq<Action>, s: System, outer: U.State,
               fs: M.State, t: nat)
    returns (more: seq<Action>, u: System)
    requires At(mode, files, done, s) && Scene(files, f, s, outer, fs) && t < 3 && outer.readers[t].Idle? &&
             outer.cache.data.None?
    ensures At(mode, files, more, u) && Scene(files, f, u, Arrived(mode, outer, t), fs)
  {
    hide At, Quiet, Resting;
    more, u := OuterMove(mode, files, f, done, s, outer, fs, U.ReadClock(t));
    more, u := OuterMove(mode, files, f, more, u, u.outer, fs, U.ReadTag(t, mode.Always?));
    more, u := OuterMove(mode, files, f, more, u, u.outer, fs, U.Check(t));
  }

  function Arrived(mode: U.Generation, outer: U.State, t: nat): U.State
    requires t < |outer.readers|
  {
    U.StepReader(outer, t, U.Missed(outer.clock, outer.saved, if mode.Always? then Some(outer.generation) else None))
  }

  // ---------------------------------------------------------------- the run

  /** `k` saves of the file have returned and nobody has read anything. */
  ghost predicate Saved(f: U.File, outer: U.State, k: nat)
  {
    outer.readers == [U.Idle, U.Idle, U.Idle] && outer.writers == [U.Resting] && outer.cache.data.None? &&
    outer.current.Of(f) == outer.saved.Of(f) == k
  }

  lemma {:induction false} Saves(mode: U.Generation, files: Files, f: U.File, k: nat)
    returns (more: seq<Action>, u: System)
    requires files.user != [] && files.acl != [] && k < |files.Of(f)|
    ensures At(mode, files, more, u) && Saved(f, u.outer, k) && Scene(files, f, u, u.outer, M.Init(3).(current := k))
    decreases k
  {
    hide At;
    if k == 0 {
      more, u := [], Init(0, 3, 1);
      assert At(mode, files, more, u) by { NothingRun(mode, files, u); AtStart(mode, files); }
      assert u.outer.readers == [U.Idle, U.Idle, U.Idle] && u.outer.writers == [U.Resting];
    } else {
      more, u := Saves(mode, files, f, k - 1);
      more, u := ReplaceMove(mode, files, f, more, u, u.outer, u.Of(f));
      assert u.outer.writers == [U.Replaced(f, k)];
      more, u := OuterMove(mode, files, f, more, u, u.outer, u.Of(f), U.Bump(0));
      assert u.outer.writers == [U.Resting];
    }
  }

  lemma AtStart(mode: U.Generation, files: Files)
    ensures At(mode, files, [], Init(0, 3, 1))
  {
  }

  /** The first reader has read the missing file and not yet stored it. */
  lemma FirstReads(mode: U.Generation, files: Files, f: U.File, k: nat) returns (more: seq<Action>, u: System)
    requires files.user != [] && files.acl != [] && k + 1 < |files.Of(f)|
    ensures At(mode, files, more, u) && Loads(u, f, 0) && |u.outer.readers| == 3 && u.outer.readers[1].Idle? &&
            u.outer.readers[2].Idle?
    ensures u.outer.writers == [U.Resting] && u.outer.cache.data.None? &&
            u.outer.current.Of(f) == u.outer.saved.Of(f) == k
    ensures Scene(files, f, u, u.outer, M.State(k, M.Cache(None, M.ZERO), [M.Reading(k, k), M.Idle, M.Idle]))
  {
    hide At, Quiet, Resting;
    more, u := Saves(mode, files, f, k);
    more, u := Arrive(mode, files, f, more, u, u.outer, u.Of(f), 0);
    more, u := Prepare(mode, files, f, more, u, u.outer, u.Of(f), 0);
    assert u.Of(f) == M.State(k, M.Cache(None, M.ZERO), [M.Statted(k), M.Idle, M.Idle]);
    more, u := InnerMove(mode, files, f, more, u, u.outer, u.Of(f), Check(f, 0), M.Check(0));
    assert u.Of(f) == M.State(k, M.Cache(None, M.ZERO), [M.Missed(k), M.Idle, M.Idle]);
    more, u := InnerMove(mode, files, f, more, u, u.outer, u.Of(f), Read(f, 0), M.Read(0));
    assert u.Of(f) == M.State(k, M.Cache(None, M.ZERO), [M.Reading(k, k), M.Idle, M.Idle]);
  }

  /** The file is created and saved, and the second reader has read it. */
  lemma SecondReads(mode: U.Generation, files: Files, f: U.File, k: nat) returns (more: seq<Action>, u: System)
    requires files.user != [] && files.acl != [] && k + 1 < |files.Of(f)|
    ensures At(mode, files, more, u) && Loads(u, f, 0) && Loads(u, f, 1)
    ensures |u.outer.readers| == 3 && u.outer.readers[2].Idle? && u.outer.cache.data.None? &&
            u.outer.saved.Of(f) == k + 1
    ensures Scene(files, f, u, u.outer,
                  M.State(k + 1, M.Cache(None, M.ZERO), [M.Reading(k, k), M.Reading(k + 1, k + 1), M.Idle]))
  {
    hide At, Quiet, Resting;
    more, u := FirstReads(mode, files, f, k);
    more, u := ReplaceMove(mode, files, f, more, u, u.outer, u.Of(f));
    assert u.outer.writers == [U.Replaced(f, k + 1)];
    more, u := OuterMove(mode, files, f, more, u, u.outer, u.Of(f), U.Bump(0));
    more, u := Arrive(mode, files, f, more, u, u.outer, u.Of(f), 1);
    more, u := Prepare(mode, files, f, more, u, u.outer, u.Of(f), 1);
    assert u.Of(f) == M.State(k + 1, M.Cache(None, M.ZERO), [M.Reading(k, k), M.Statted(k + 1), M.Idle]);
    more, u := InnerMove(mode, files, f, more, u, u.outer, u.Of(f), Check(f, 1), M.Check(1));
    assert u.Of(f) == M.State(k + 1, M.Cache(None, M.ZERO), [M.Reading(k, k), M.Missed(k + 1), M.Idle]);
    more, u := InnerMove(mode, files, f, more, u, u.outer, u.Of(f), Read(f, 1), M.Read(1));
  }

  /** It stores what it read, and then the first one's stale data replaces that in the cache under
      the new stamp. */
  lemma StaleStored(mode: U.Generation, files: Files, f: U.File, k: nat, m: M.Stamp)
    returns (more: seq<Action>, u: System)
    requires files.user != [] && files.acl != [] && k + 1 < |files.Of(f)|
    requires files.Of(f)[k].None? && files.Of(f)[k + 1] == Some(m)
    ensures At(mode, files, more, u) && |u.outer.readers| == 3 && u.outer.readers[2].Idle? && u.outer.cache.data.None?
    ensures u.outer.saved.Of(f) == k + 1 && u.Of(f).current == k + 1
    ensures u.Of(f).cache == M.Cache(Some(M.Load(k, k)), m) && Scene(files, f, u, u.outer, u.Of(f)) &&
            u.Of(f).threads[2] == M.Idle
  {
    hide At, Quiet, Resting;
    more, u := SecondReads(mode, files, f, k);
    more, u := InnerMove(mode, files, f, more, u, u.outer, u.Of(f), Store(f, 1), M.Store(1));
    assert u.Of(f).cache == M.Cache(Some(M.Load(k + 1, k + 1)), m);
    more, u := InnerMove(mode, files, f, more, u, u.outer, u.Of(f), Store(f, 0), M.Store(0));
  }

  /** A call begun after the save returned is given the missing file. */
  lemma RecreationBreaks(mode: U.Generation, files: Files, f: U.File, k: nat) returns (actions: seq<Action>)
    requires files.user != [] && files.acl != [] && k + 1 < |files.Of(f)|
    requires files.Of(f)[k].None? && files.Of(f)[k + 1].Some?
    ensures !U.Fresh(Run(mode, files, Init(0, 3, 1), actions).outer)
  {
    var u: System;
    actions, u := StaleStored(mode, files, f, k, files.Of(f)[k + 1].value);
    actions, u := LastReader(mode, files, f, k, actions, u);
    assert At(mode, files, actions, u);
  }

  lemma LastReader(mode: U.Generation, files: Files, f: U.File, k: nat, done: seq<Action>, s: System)
    returns (more: seq<Action>, u: System)
    requires At(mode, files, done, s) && Scene(files, f, s, s.outer, s.Of(f)) && s.outer.readers[2].Idle? &&
             s.outer.cache.data.None?
    requires k + 1 < |files.Of(f)| && files.Of(f)[k + 1].Some? && s.outer.saved.Of(f) == k + 1 &&
             s.Of(f).current == k + 1
    requires s.Of(f).cache == M.Cache(Some(M.Load(k, k)), files.Of(f)[k + 1].value) && s.Of(f).threads[2] == M.Idle
    ensures At(mode, files, more, u) && !U.Fresh(u.outer)
  {
    hide At, Quiet, Resting;
    more, u := Arrive(mode, files, f, done, s, s.outer, s.Of(f), 2);
    more, u := Prepare(mode, files, f, more, u, u.outer, u.Of(f), 2);
    more, u := InnerMove(mode, files, f, more, u, u.outer, u.Of(f), Check(f, 2), M.Check(2));
    assert u.Of(f).threads[2] == M.Returned(k + 1, k, k + 1);
    more, u := Complete(mode, files, f, more, u, u.outer, u.Of(f), 2, k);
    assert u.outer.readers[2].must.Of(f) == k + 1 && u.outer.readers[2].got.Of(f) == k;
    Go(mode, files, more, u, Outer(U.Store(2)));
    more, u := more + [Outer(U.Store(2))], Next(mode, files, u, Outer(U.Store(2)));
    assert u.outer.readers[2].Returned? && !u.outer.readers[2].must.AtMost(u.outer.readers[2].got);
  }

  /** For modification times that identify versions: every call in every run is fresh exactly when
      neither file is created after it was missing, and the generation is always or never there or
      no file is ever replaced. */
  lemma FreshExactly(mode: U.Generation, files: Files)
    requires M.GoodStamps(files.user) && M.GoodStamps(files.acl)
    ensures (forall clock: int, readers: nat, writers: nat, actions: seq<Action> ::
               U.Fresh(Run(mode, files, Init(clock, readers, writers), actions).outer)) <==>
            M.NeverRecreated(files.user) && M.NeverRecreated(files.acl) &&
            (!mode.Sometimes? || (|files.user| == 1 && |files.acl| == 1))
  {
    hide Run, U.Fresh, Init;
    if M.NeverRecreated(files.user) && M.NeverRecreated(files.acl) {
      FreshIff(mode, files);
    } else {
      var f := if M.NeverRecreated(files.user) then U.Acl else U.User;
      var k :| 0 <= k && k + 1 < |files.Of(f)| && files.Of(f)[k].None?;
      var actions := RecreationBreaks(mode, files, f, k);
    }
  }
}
