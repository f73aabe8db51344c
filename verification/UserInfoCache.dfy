/** The shared cache of user and ACL configuration: `CachedUserInfo::new` in any number of
    threads, interleaved with `save_config` of both files and a running clock.

    Here a load of one file returns any version between the one current when it began and the
    one current when it ended; `ConfigCaches` runs the loads through the mtime caches of the
    two files and shows that they do. A product either provides a cache generation or it does
    not; `Sometimes` is one whose counter is occasionally unreadable. */
module UserInfoCache {
  import opened Wrappers

  datatype File = User | Acl

  /** A version of each file. */
  datatype Pair = Pair(user: nat, acl: nat)
  {
    function Of(f: File): nat { if f.User? then user else acl }
    function With(f: File, v: nat): Pair { if f.User? then Pair(v, acl) else Pair(user, v) }
    predicate AtMost(p: Pair) { user <= p.user && acl <= p.acl }
  }

  datatype Generation = Always | Never | Sometimes

  datatype Reader =
    | Idle
    | Clocked(now: int, must: Pair)
    | Tagged(now: int, must: Pair, tag: Option<nat>)
    | Missed(now: int, must: Pair, tag: Option<nat>)
    | LoadingUser(now: int, must: Pair, tag: Option<nat>, began: int, from: nat)
    | LoadingAcl(now: int, must: Pair, tag: Option<nat>, began: int, user: nat, from: nat)
    | Loaded(now: int, must: Pair, tag: Option<nat>, began: int, got: Pair)
    | Returned(now: int, must: Pair, began: int, got: Pair, hit: bool)

  datatype Writer = Resting | Replaced(file: File, version: nat)

  /** Data with the clock reading at which its load began. */
  datatype Data = Data(got: Pair, began: int)

  datatype Cache = Cache(data: Option<Data>, lastUpdate: int, lastTag: nat)

  /** `saved` are the newest versions whose save returned; `floors[g]` is what had been saved
      when the generation counter reached g. */
  datatype State = State(
    clock: int, current: Pair, saved: Pair, generation: nat, floors: seq<Pair>,
    cache: Cache, readers: seq<Reader>, writers: seq<Writer>)

  datatype Action =
    | Tick(seconds: nat)
    | Replace(w: nat, file: File)
    | Bump(w: nat)
    | ReadClock(t: nat)
    | ReadTag(t: nat, ok: bool)
    | Check(t: nat)
    | BeginUser(t: nat)
    | EndUser(t: nat, v: nat)
    | EndAcl(t: nat, v: nat)
    | Store(t: nat)

  function Init(clock: int, readers: nat, writers: nat): State
  {
    State(clock, Pair(0, 0), Pair(0, 0), 0, [Pair(0, 0)], Cache(None, 0, 0),
          seq(readers, _ => Idle), seq(writers, _ => Resting))
  }

  /** The generation is readable as the product promises. */
  predicate TagAllowed(mode: Generation, ok: bool)
  {
    (mode.Always? ==> ok) && (mode.Never? ==> !ok)
  }

  predicate Hits(cache: Cache, now: int, tag: Option<nat>)
  {
    tag == Some(cache.lastTag) && now - cache.lastUpdate < 5 && cache.data.Some?
  }

  predicate Enabled(mode: Generation, s: State, a: Action)
  {
    match a
    case Tick(_) => true
    case Replace(w, _) => w < |s.writers| && s.writers[w].Resting?
    case Bump(w) => w < |s.writers| && s.writers[w].Replaced?
    case ReadClock(t) => t < |s.readers| && (s.readers[t].Idle? || s.readers[t].Returned?)
    case ReadTag(t, ok) => t < |s.readers| && s.readers[t].Clocked? && TagAllowed(mode, ok)
    case Check(t) => t < |s.readers| && s.readers[t].Tagged?
    case BeginUser(t) => t < |s.readers| && s.readers[t].Missed?
    case EndUser(t, v) => t < |s.readers| && s.readers[t].LoadingUser? && s.readers[t].from <= v <= s.current.user
    case EndAcl(t, v) => t < |s.readers| && s.readers[t].LoadingAcl? && s.readers[t].from <= v <= s.current.acl
    case Store(t) => t < |s.readers| && s.readers[t].Loaded?
  }

  function StepReader(s: State, t: nat, r: Reader): State
    requires t < |s.readers|
  {
    s.(readers := s.readers[t := r])
  }

  /** The user configuration was loaded as version `v`; the ACL is next. */
  function UserLoaded(s: State, t: nat, v: nat): State
    requires t < |s.readers| && s.readers[t].LoadingUser?
  {
    var r := s.readers[t];
    StepReader(s, t, LoadingAcl(r.now, r.must, r.tag, r.began, v, s.current.acl))
  }

  function AclLoaded(s: State, t: nat, v: nat): State
    requires t < |s.readers| && s.readers[t].LoadingAcl?
  {
    var r := s.readers[t];
    StepReader(s, t, Loaded(r.now, r.must, r.tag, r.began, Pair(r.user, v)))
  }

  function Max(p: Pair, f: File, v: nat): Pair
  {
    if p.Of(f) < v then p.With(f, v) else p
  }

  /** One step; an action that is not enabled does nothing. */
  function Next(mode: Generation, s: State, a: Action): State
  {
    if !Enabled(mode, s, a) then s
    else
      match a
      case Tick(n) => s.(clock := s.clock + n)
      case Replace(w, f) =>
        var v := s.current.Of(f) + 1;
        s.(current := s.current.With(f, v), writers := s.writers[w := Replaced(f, v)])
      case Bump(w) =>
        var saved := Max(s.saved, s.writers[w].file, s.writers[w].version);
        s.(saved := saved, generation := s.generation + 1, floors := s.floors + [saved],
           writers := s.writers[w := Resting])
      case ReadClock(t) => StepReader(s, t, Clocked(s.clock, s.saved))
      case ReadTag(t, ok) =>
        var r := s.readers[t];
        StepReader(s, t, Tagged(r.now, r.must, if ok then Some(s.generation) else None))
      case Check(t) =>
        var r := s.readers[t];
        StepReader(s, t,
          if Hits(s.cache, r.now, r.tag)
          then Returned(r.now, r.must, s.cache.data.value.began, s.cache.data.value.got, true)
          else Missed(r.now, r.must, r.tag))
      case BeginUser(t) =>
        var r := s.readers[t];
        StepReader(s, t, LoadingUser(r.now, r.must, r.tag, s.clock, s.current.user))
      case EndUser(t, v) => UserLoaded(s, t, v)
      case EndAcl(t, v) => AclLoaded(s, t, v)
      case Store(t) =>
        var r := s.readers[t];
        var tag := match r.tag case Some(g) => g case None => s.cache.lastTag;
        StepReader(s.(cache := Cache(Some(Data(r.got, r.began)), r.now, tag)), t,
                   Returned(r.now, r.must, r.began, r.got, false))
  }

  function Run(mode: Generation, s: State, actions: seq<Action>): State
    decreases |actions|
  {
    if actions == [] then s else Run(mode, Next(mode, s, actions[0]), actions[1..])
  }

  /** Every finished call returned, for both files, the newest version whose save had returned
      when the call began, or a later one. */
  ghost predicate Fresh(s: State)
  {
    forall t :: 0 <= t < |s.readers| && s.readers[t].Returned? ==> s.readers[t].must.AtMost(s.readers[t].got)
  }

  /** No hit returned data whose load began five seconds or more before the call's clock
      reading. */
  ghost predicate Recent(s: State)
  {
    forall t :: 0 <= t < |s.readers| && s.readers[t].Returned? && s.readers[t].hit ==>
      s.readers[t].now - s.readers[t].began < 5
  }

  // ---------------------------------------------------------------- the invariant

  /** What a call with this tag has to return at least. */
  ghost predicate TagOk(mode: Generation, s: State, must: Pair, tag: Option<nat>)
  {
    must.AtMost(s.saved) &&
    (tag.None? ==> !mode.Always?) &&
    (tag.Some? ==> !mode.Never? && tag.value < |s.floors| && must.AtMost(s.floors[tag.value]))
  }

  /** Data at least as new as everything saved when the tag was current. */
  ghost predicate CoversTag(s: State, tag: Option<nat>, user: nat, acl: nat)
  {
    tag.Some? ==> tag.value < |s.floors| && s.floors[tag.value].user <= user && s.floors[tag.value].acl <= acl
  }

  ghost predicate ReaderOk(mode: Generation, s: State, r: Reader)
  {
    match r
    case Idle => true
    case Clocked(_, must) => must.AtMost(s.saved)
    case Tagged(_, must, tag) => TagOk(mode, s, must, tag)
    case Missed(_, must, tag) => TagOk(mode, s, must, tag)
    case LoadingUser(_, must, tag, _, from) =>
      TagOk(mode, s, must, tag) && must.user <= from && CoversTag(s, tag, from, s.current.acl)
    case LoadingAcl(_, must, tag, _, user, from) =>
      TagOk(mode, s, must, tag) && must.user <= user && must.acl <= from && CoversTag(s, tag, user, from)
    case Loaded(_, must, tag, _, got) =>
      TagOk(mode, s, must, tag) && must.AtMost(got) && CoversTag(s, tag, got.user, got.acl)
    case Returned(_, must, _, got, _) => must.AtMost(s.saved) && (!mode.Sometimes? ==> must.AtMost(got))
  }

  ghost predicate WriterOk(s: State, w: Writer)
  {
    w.Replaced? ==> w.version <= s.current.Of(w.file)
  }

  ghost predicate CacheOk(mode: Generation, s: State)
  {
    s.cache.data.Some? && mode.Always? ==>
      CoversTag(s, Some(s.cache.lastTag), s.cache.data.value.got.user, s.cache.data.value.got.acl)
  }

  ghost predicate CountersOk(s: State)
  {
    |s.floors| == s.generation + 1 && s.floors[s.generation] == s.saved && s.saved.AtMost(s.current) &&
    forall g :: 0 <= g < |s.floors| ==> s.floors[g].AtMost(s.saved)
  }

  ghost predicate Inv(mode: Generation, s: State)
  {
    CountersOk(s) && CacheOk(mode, s) &&
    (forall t :: 0 <= t < |s.readers| ==> ReaderOk(mode, s, s.readers[t])) &&
    (forall w :: 0 <= w < |s.writers| ==> WriterOk(s, s.writers[w]))
  }

  /** Nothing a reader relies on is lost when the clock, the files and the counters move on. */
  ghost predicate Later(s: State, u: State)
  {
    s.clock <= u.clock && s.current.AtMost(u.current) && s.saved.AtMost(u.saved) && s.floors <= u.floors
  }

  lemma ReaderStays(mode: Generation, s: State, u: State, r: Reader)
    requires ReaderOk(mode, s, r) && Later(s, u)
    ensures ReaderOk(mode, u, r)
  {
  }

  lemma ReaderSteps(mode: Generation, s: State, a: Action)
    requires Inv(mode, s) && Enabled(mode, s, a) && !a.Tick? && !a.Replace? && !a.Bump?
    ensures var u := Next(mode, s, a); a.t < |u.readers| && ReaderOk(mode, u, u.readers[a.t])
  {
    assert ReaderOk(mode, s, s.readers[a.t]);
  }

  lemma LaterStep(mode: Generation, s: State, a: Action)
    requires Inv(mode, s)
    ensures Later(s, Next(mode, s, a))
  {
    if Enabled(mode, s, a) && a.Bump? {
      assert WriterOk(s, s.writers[a.w]);
    }
  }

  lemma CountersStep(mode: Generation, s: State, a: Action)
    requires Inv(mode, s)
    ensures CountersOk(Next(mode, s, a))
  {
    if Enabled(mode, s, a) && a.Bump? {
      assert WriterOk(s, s.writers[a.w]);
    }
  }

  lemma CacheStep(mode: Generation, s: State, a: Action)
    requires Inv(mode, s)
    ensures CacheOk(mode, Next(mode, s, a))
  {
    LaterStep(mode, s, a);
    if Enabled(mode, s, a) && a.Store? {
      assert ReaderOk(mode, s, s.readers[a.t]);
    }
  }

  lemma StepKeepsInv(mode: Generation, s: State, a: Action)
    requires Inv(mode, s)
    ensures Inv(mode, Next(mode, s, a))
  {
    hide ReaderOk, CountersOk, CacheOk, Later;
    var u := Next(mode, s, a);
    CountersStep(mode, s, a);
    CacheStep(mode, s, a);
    LaterStep(mode, s, a);
    if Enabled(mode, s, a) {
      if !a.Tick? && !a.Replace? && !a.Bump? { ReaderSteps(mode, s, a); }
      forall t | 0 <= t < |u.readers| ensures ReaderOk(mode, u, u.readers[t]) {
        if u.readers[t] == s.readers[t] { ReaderStays(mode, s, u, s.readers[t]); }
      }
      WritersStep(mode, s, a);
    }
  }

  lemma WritersStep(mode: Generation, s: State, a: Action)
    requires Inv(mode, s)
    ensures var u := Next(mode, s, a); forall w :: 0 <= w < |u.writers| ==> WriterOk(u, u.writers[w])
  {
  }

  lemma {:induction false} RunKeepsInv(mode: Generation, s: State, actions: seq<Action>)
    requires Inv(mode, s)
    ensures Inv(mode, Run(mode, s, actions))
    decreases |actions|
  {
    hide Inv, Next;
    if actions != [] {
      StepKeepsInv(mode, s, actions[0]);
      RunKeepsInv(mode, Next(mode, s, actions[0]), actions[1..]);
    }
  }

  lemma InitInv(mode: Generation, clock: int, readers: nat, writers: nat)
    ensures Inv(mode, Init(clock, readers, writers))
  {
  }

  /** In every interleaving, a call begun after a save returned yields that save or a later
      one, unless the generation is readable only at times. */
  lemma RunsFresh(mode: Generation, clock: int, readers: nat, writers: nat, actions: seq<Action>)
    requires !mode.Sometimes?
    ensures Fresh(Run(mode, Init(clock, readers, writers), actions))
  {
    RunKeepsInv(mode, Init(clock, readers, writers), actions);
    var s := Run(mode, Init(clock, readers, writers), actions);
    forall t | 0 <= t < |s.readers| && s.readers[t].Returned? ensures s.readers[t].must.AtMost(s.readers[t].got) {
      assert ReaderOk(mode, s, s.readers[t]);
    }
  }

  // ---------------------------------------------------------------- time

  /** A call reads the clock before it begins to load; a hit is less than five seconds old. */
  predicate ReaderOnTime(clock: int, r: Reader)
  {
    match r
    case Idle => true
    case Clocked(now, _) => now <= clock
    case Tagged(now, _, _) => now <= clock
    case Missed(now, _, _) => now <= clock
    case LoadingUser(now, _, _, began, _) => now <= began
    case LoadingAcl(now, _, _, began, _, _) => now <= began
    case Loaded(now, _, _, began, _) => now <= began
    case Returned(now, _, began, _, hit) => hit ==> now - began < 5
  }

  ghost predicate OnTime(s: State)
  {
    (s.cache.data.Some? ==> s.cache.lastUpdate <= s.cache.data.value.began) &&
    forall t :: 0 <= t < |s.readers| ==> ReaderOnTime(s.clock, s.readers[t])
  }

  lemma StepOnTime(mode: Generation, s: State, a: Action)
    requires OnTime(s)
    ensures OnTime(Next(mode, s, a))
  {
    if Enabled(mode, s, a) {
      var u := Next(mode, s, a);
      forall t | 0 <= t < |u.readers| ensures ReaderOnTime(u.clock, u.readers[t]) {
        assert ReaderOnTime(s.clock, s.readers[t]);
      }
    }
  }

  /** Whatever versions the loads return, they do not change when the load began. */
  lemma LoadOnTime(s: State, t: nat, v: nat)
    requires OnTime(s) && t < |s.readers|
    ensures s.readers[t].LoadingUser? ==> OnTime(UserLoaded(s, t, v))
    ensures s.readers[t].LoadingAcl? ==> OnTime(AclLoaded(s, t, v))
  {
    assert ReaderOnTime(s.clock, s.readers[t]);
  }

  lemma OnTimeIsRecent(s: State)
    requires OnTime(s)
    ensures Recent(s)
  {
    forall t | 0 <= t < |s.readers| && s.readers[t].Returned? && s.readers[t].hit
      ensures s.readers[t].now - s.readers[t].began < 5
    {
      assert ReaderOnTime(s.clock, s.readers[t]);
    }
  }

  lemma {:induction false} RunAppend(mode: Generation, s: State, a: seq<Action>, b: seq<Action>)
    ensures Run(mode, s, a + b) == Run(mode, Run(mode, s, a), b)
    decreases |a|
  {
    hide Next;
    if a == [] {
      assert a + b == b;
    } else {
      assert (a + b)[1..] == a[1..] + b;
      RunAppend(mode, Next(mode, s, a[0]), a[1..], b);
    }
  }
}
