/** Backup namespaces: a path of components with a bounded depth and a bounded, cached text
    length. Lengths count characters; an accepted component is ASCII, so they are the byte
    lengths of the original. */
module Namespace {
  import opened Wrappers
  import Text
  import opened AuthId

  const MAX_DEPTH := 7
  const MAX_LENGTH := 256

  // ---------------------------------------------------------------- text forms

  /** `Display`: the components separated by slashes. */
  function Print(parts: seq<string>): string
  {
    Text.Join(parts, '/')
  }

  /** `display_as_path`: every component below a directory named `ns`. */
  function PrintPath(parts: seq<string>): string
  {
    if parts == [] then ""
    else if |parts| == 1 then "ns/" + parts[0]
    else "ns/" + parts[0] + "/" + PrintPath(parts[1..])
  }

  predicate IsPath(path: string)
  {
    |path| >= 3 && path[..3] == "ns/"
  }

  /** The components `from_path` pushes, in order. */
  function PathParts(path: string): (r: Option<seq<string>>)
    decreases |path|
  {
    if !IsPath(path) then (if path == "" then Some([]) else None)
    else
      var next := path[3..];
      var pos := Text.IndexOf(next, '/');
      if pos == |next| then Some([next])
      else
        match PathParts(next[pos + 1..])
        case None => None
        case Some(rest) => Some([next[..pos]] + rest)
  }

  // ---------------------------------------------------------------- valid namespaces

  /** The guard of `push`. */
  predicate Pushable(parts: seq<string>, subdir: string)
  {
    '/' !in subdir && |parts| < MAX_DEPTH && |Print(parts)| + |subdir| + 1 <= MAX_LENGTH && SafeId(subdir)
  }

  /** The namespaces that exist: at most seven safe components, at most 256 characters as text,
      and one less for a single component, because the length check always counts a slash. */
  predicate Good(parts: seq<string>)
  {
    |parts| <= MAX_DEPTH &&
    (forall k :: 0 <= k < |parts| ==> SafeId(parts[k])) &&
    |Print(parts)| + (if |parts| == 1 then 1 else 0) <= MAX_LENGTH
  }

  lemma SafeIdHasNoSlash(s: string)
    requires SafeId(s)
    ensures '/' !in s
  {
  }

  lemma GoodFreeOfSlash(parts: seq<string>)
    requires Good(parts)
    ensures Text.FreeOf(parts, '/')
  {
    forall k | 0 <= k < |parts| ensures '/' !in parts[k] { SafeIdHasNoSlash(parts[k]); }
  }

  lemma PrintLength(parts: seq<string>, s: string)
    ensures |Print(parts + [s])| == |Print(parts)| + |s| + (if parts == [] then 0 else 1)
  {
    if parts != [] { Text.JoinLast(parts, '/', s); }
  }

  /** `push` accepts exactly the components that lead to another valid namespace, and every
      non-root valid namespace is reached by a push on a valid one. */
  lemma GoodPush(parts: seq<string>, s: string)
    ensures Good(parts + [s]) <==> Good(parts) && Pushable(parts, s)
  {
    PrintLength(parts, s);
    var all := parts + [s];
    if Good(all) {
      assert all[|parts|] == s;
      SafeIdHasNoSlash(s);
      assert forall k :: 0 <= k < |parts| ==> parts[k] == all[k];
    }
    if Good(parts) && Pushable(parts, s) {
      assert forall k :: 0 <= k < |all| ==> all[k] == if k < |parts| then parts[k] else s;
    }
  }

  /** A single component of 256 characters is refused although its name is not too long, and one
      of 255 is not. */
  lemma LongestComponent(s: string)
    requires SafeId(s)
    ensures |s| == 256 ==> |Print([s])| == MAX_LENGTH && !Good([s])
    ensures |s| == 255 ==> Good([s])
  {
  }

  lemma LongComponentRefused()
    ensures var s := seq(256, _ => 'a'); SafeId(s) && |Print([s])| == MAX_LENGTH && !Good([s]) && !Pushable([], s)
  {
    var s := seq(256, _ => 'a');
    LongestComponent(s);
    GoodPush([], s);
    assert [] + [s] == [s];
  }

  lemma {:induction false} GoodPrefix(parts: seq<string>, k: nat)
    requires Good(parts) && k <= |parts|
    ensures Good(parts[..k])
    decreases |parts| - k
  {
    if k == |parts| {
      assert parts[..k] == parts;
    } else {
      GoodPrefix(parts, k + 1);
      assert parts[..k + 1] == parts[..k] + [parts[k]];
      GoodPush(parts[..k], parts[k]);
    }
  }

  /** The cached length plus three per level is the length of the path form. */
  lemma {:induction false} PathLength(parts: seq<string>)
    ensures |PrintPath(parts)| == |Print(parts)| + 3 * |parts|
    decreases |parts|
  {
    if |parts| > 1 { PathLength(parts[1..]); }
  }

  // ---------------------------------------------------------------- parsing

  /** The components of a namespace name. */
  function NameParts(name: string): seq<string>
  {
    if name == "" then [] else Text.Split(name, '/')
  }

  lemma PartsOfPrinted(parts: seq<string>)
    requires Good(parts)
    ensures NameParts(Print(parts)) == parts
  {
    if parts != [] {
      GoodFreeOfSlash(parts);
      Text.SplitJoin(parts, '/');
      assert Print(parts) != "" by {
        if |parts| == 1 { assert SafeId(parts[0]); }
      }
    }
  }

  lemma PrintedParts(name: string)
    ensures Print(NameParts(name)) == name
  {
    Text.JoinSplit(name, '/');
  }

  lemma PathStep(part: string, rest: string)
    requires '/' !in part
    ensures var next := part + ['/'] + rest;
            var path := "ns/" + next;
            IsPath(path) && path[3..] == next && Text.IndexOf(next, '/') == |part| &&
            next[..|part|] == part && next[|part| + 1..] == rest
  {
    Text.IndexOfPrefix(part, '/', rest);
  }

  lemma PathEnd(part: string)
    requires '/' !in part
    ensures PathParts("ns/" + part) == Some([part])
  {
    assert ("ns/" + part)[..3] == "ns/" && ("ns/" + part)[3..] == part;
  }

  lemma PathCons(part: string, rest: string, parts: seq<string>)
    requires '/' !in part && PathParts(rest) == Some(parts)
    ensures PathParts("ns/" + part + "/" + rest) == Some([part] + parts)
  {
    PathStep(part, rest);
    assert "ns/" + part + "/" + rest == "ns/" + (part + ['/'] + rest);
  }

  /** Reading a printed path gives the components back. */
  lemma {:induction false} PathOfPrinted(parts: seq<string>)
    requires Text.FreeOf(parts, '/')
    ensures PathParts(PrintPath(parts)) == Some(parts)
    decreases |parts|
  {
    if |parts| == 1 {
      PathEnd(parts[0]);
      assert parts == [parts[0]];
    } else if |parts| > 1 {
      hide PathParts;
      PathOfPrinted(parts[1..]);
      PathCons(parts[0], PrintPath(parts[1..]), parts[1..]);
      assert parts == [parts[0]] + parts[1..];
    }
  }

  lemma PathEmpty()
    ensures PathParts("") == Some([])
  {
  }

  /** A slash after a printed path changes nothing. */
  lemma {:induction false} PathOfPrintedSlash(parts: seq<string>)
    requires Text.FreeOf(parts, '/') && parts != []
    ensures PathParts(PrintPath(parts) + "/") == Some(parts)
    decreases |parts|
  {
    hide PathParts;
    if |parts| == 1 {
      PathEmpty();
      PathCons(parts[0], "", []);
      assert PrintPath(parts) + "/" == "ns/" + parts[0] + "/" + "";
      assert parts == [parts[0]] + [];
    } else {
      PathOfPrintedSlash(parts[1..]);
      PathCons(parts[0], PrintPath(parts[1..]) + "/", parts[1..]);
      Text.AppendAssoc("ns/" + parts[0] + "/", PrintPath(parts[1..]), "/");
      assert parts == [parts[0]] + parts[1..];
    }
  }

  /** The components read so far and those still to come. */
  ghost function Prepend(done: seq<string>, rest: Option<seq<string>>): Option<seq<string>>
  {
    match rest
    case None => None
    case Some(parts) => Some(done + parts)
  }

  lemma PathAdvance(done: seq<string>, path: string)
    requires IsPath(path)
    ensures var next := path[3..];
            var pos := Text.IndexOf(next, '/');
            var more := done + [next[..pos]];
            Prepend(done, PathParts(path)) ==
            if pos == |next| then Some(more) else Prepend(more, PathParts(next[pos + 1..]))
  {
    var next := path[3..];
    var pos := Text.IndexOf(next, '/');
    if pos == |next| {
      assert next[..pos] == next;
    } else if PathParts(next[pos + 1..]).Some? {
      Text.AppendAssoc(done, [next[..pos]], PathParts(next[pos + 1..]).value);
    }
  }

  lemma PathStops(path: string)
    requires !IsPath(path)
    ensures PathParts(path) == if path == "" then Some([]) else None
  {
  }

  lemma PathStuck(whole: Option<seq<string>>, done: seq<string>, rest: Option<seq<string>>)
    requires (whole == Some(done) || whole == Prepend(done, rest)) && !Good(done)
    ensures whole.Some? ==> !Good(whole.value)
  {
    if whole.Some? {
      assert whole.value[..|done|] == done;
      if Good(whole.value) { GoodPrefix(whole.value, |done|); }
    }
  }

  /** Only printed paths are read, with at most one trailing slash. */
  lemma {:induction false} PathForm(path: string)
    requires PathParts(path).Some?
    ensures var parts := PathParts(path).value;
            path == PrintPath(parts) || (parts != [] && path == PrintPath(parts) + "/")
    decreases |path|
  {
    if IsPath(path) {
      var next := path[3..];
      assert path == "ns/" + next;
      var pos := Text.IndexOf(next, '/');
      if pos < |next| {
        Text.CutAt(next, pos);
        PathForm(next[pos + 1..]);
        var rest := PathParts(next[pos + 1..]).value;
        var parts := [next[..pos]] + rest;
        assert parts[1..] == rest;
        PathTail(path, next[..pos], next[pos + 1..], rest);
      }
    }
  }

  lemma PathTail(path: string, part: string, text: string, rest: seq<string>)
    requires path == "ns/" + (part + ['/'] + text)
    requires text == PrintPath(rest) || (rest != [] && text == PrintPath(rest) + "/")
    ensures path == PrintPath([part] + rest) || path == PrintPath([part] + rest) + "/"
  {
    var parts := [part] + rest;
    assert parts[1..] == rest;
    var head := "ns/" + part + "/";
    assert path == head + text by {
      Text.AppendAssoc("ns/", part + ['/'], text);
      Text.AppendAssoc("ns/", part, ['/']);
    }
    if rest == [] {
      assert head + text == head;
    } else {
      assert PrintPath(parts) == head + PrintPath(rest);
      hide PrintPath;
      Text.AppendAssoc(head, PrintPath(rest), "/");
    }
  }

  // ---------------------------------------------------------------- prefixes

  /** `contains`: the number of levels below `a`, if `b` is at or below `a`. */
  function Contains(a: seq<string>, b: seq<string>): Option<nat>
  {
    if a <= b then Some(|b| - |a|) else None
  }

  /** `b` is reached from `a` by so many levels. */
  lemma ContainsIff(a: seq<string>, b: seq<string>, n: nat)
    ensures Contains(a, b) == Some(n) <==> exists below: seq<string> :: |below| == n && b == a + below
  {
    if a <= b {
      var below := b[|a|..];
      assert b == a + below;
    }
  }

  /** The namespace `map_prefix` aims at; `None` where it refuses. */
  ghost function Mapped(ns: seq<string>, source: seq<string>, target: seq<string>): Option<seq<string>>
  {
    if source <= ns && Good(target + ns[|source|..]) then Some(target + ns[|source|..]) else None
  }

  /** Mapping keeps the distance to the prefix, and mapping back restores the namespace. */
  lemma MapBack(ns: seq<string>, source: seq<string>, target: seq<string>)
    requires Good(ns) && Mapped(ns, source, target).Some?
    ensures var r := Mapped(ns, source, target).value;
            Contains(target, r) == Contains(source, ns) && Mapped(r, target, source) == Some(ns)
  {
    var r := Mapped(ns, source, target).value;
    assert r[|target|..] == ns[|source|..];
    assert ns == source + ns[|source|..];
  }

  // ---------------------------------------------------------------- the class

  class BackupNamespace {
    var inner: seq<string>
    var len: nat

    ghost predicate Valid()
      reads this
    {
      Good(inner) && len == |Print(inner)|
    }

    constructor Root()
      ensures Valid() && inner == []
    {
      inner, len := [], 0;
    }

    /** `clone` */
    constructor Copy(other: BackupNamespace)
      requires other.Valid()
      ensures Valid() && inner == other.inner
    {
      inner, len := other.inner, other.len;
    }

    /** `from_vec_unchecked`: any components, with the length they have as text. */
    constructor FromVecUnchecked(components: seq<string>)
      ensures inner == components && len == |Print(components)|
      ensures Good(components) ==> Valid()
    {
      inner, len := components, 0;
      new;
      RecalculateLen();
    }

    method RecalculateLen()
      modifies this`len
      ensures len == |Print(inner)|
    {
      len := (if |inner| > 1 then |inner| else 1) - 1;
      for k := 0 to |inner|
        invariant len == |Print(inner[..k])| + (if k == 0 then if |inner| > 1 then |inner| - 1 else 0 else |inner| - k)
      {
        len := len + |inner[k]|;
        assert inner[..k + 1] == inner[..k] + [inner[k]];
        PrintLength(inner[..k], inner[k]);
      }
      assert inner[..|inner|] == inner;
    }

    function PathLen(): (n: nat)
      requires Valid()
      reads this
      ensures n == |PrintPath(inner)|
    {
      PathLength(inner);
      len + 3 * |inner|
    }

    method Push(subdir: string) returns (r: Result<(), ()>)
      requires Valid()
      modifies this
      ensures Valid()
      ensures r.Ok? <==> Good(old(inner) + [subdir])
      ensures inner == if r.Ok? then old(inner) + [subdir] else old(inner)
    {
      GoodPush(inner, subdir);
      if '/' in subdir { return Err(()); }
      if |inner| >= MAX_DEPTH { return Err(()); }
      if len + |subdir| + 1 > MAX_LENGTH { return Err(()); }
      if !SafeId(subdir) { return Err(()); }
      PrintLength(inner, subdir);
      if inner != [] { len := len + 1; }
      len := len + |subdir|;
      inner := inner + [subdir];
      return Ok(());
    }

    /** Drops the last component; the length never wraps below zero. */
    method Pop() returns (dropped: Option<string>)
      requires Valid()
      modifies this
      ensures Valid()
      ensures if old(inner) == [] then dropped == None && inner == []
              else dropped.Some? && inner + [dropped.value] == old(inner)
    {
      if inner == [] { return None; }
      var last := inner[|inner| - 1];
      GoodPrefix(inner, |inner| - 1);
      PrintLength(inner[..|inner| - 1], last);
      assert inner == inner[..|inner| - 1] + [last];
      inner := inner[..|inner| - 1];
      len := if len >= |last| + 1 then len - (|last| + 1) else 0;
      return Some(last);
    }

    method Parent() returns (parent: BackupNamespace)
      requires Valid()
      ensures fresh(parent) && parent.Valid()
      ensures parent.inner == if inner == [] then [] else inner[..|inner| - 1]
    {
      if inner == [] {
        parent := new BackupNamespace.Root();
      } else {
        parent := new BackupNamespace.Copy(this);
        var _ := parent.Pop();
        assert inner[..|inner| - 1] == parent.inner;
      }
    }

    /** Pushes the components in turn, stopping at the first that does not fit. */
    method PushAll(parts: seq<string>) returns (r: Result<(), ()>)
      requires Valid()
      modifies this
      ensures Valid()
      ensures r.Ok? <==> Good(old(inner) + parts)
      ensures r.Ok? ==> inner == old(inner) + parts
    {
      var base := inner;
      for k := 0 to |parts|
        invariant Valid() && inner == base + parts[..k]
      {
        var whole := base + parts;
        assert inner + [parts[k]] == whole[..|base| + k + 1];
        var one := Push(parts[k]);
        if one.Err? {
          if Good(whole) { GoodPrefix(whole, |base| + k + 1); }
          return Err(());
        }
        assert inner == base + parts[..k + 1];
      }
      assert parts[..|parts|] == parts;
      return Ok(());
    }

    /** `new`: accepts exactly the names of valid namespaces. */
    static method New(name: string) returns (r: Result<BackupNamespace, ()>)
      ensures r.Ok? <==> Good(NameParts(name))
      ensures r.Ok? ==>
                fresh(r.value) && r.value.Valid() && r.value.inner == NameParts(name) && Print(r.value.inner) == name
    {
      PrintedParts(name);
      var this_ := new BackupNamespace.Root();
      assert [] + NameParts(name) == NameParts(name);
      if name == "" { return Ok(this_); }
      var pushed := this_.PushAll(Text.Split(name, '/'));
      if pushed.Err? { return Err(()); }
      return Ok(this_);
    }

    /** `from_path`: accepts exactly the paths of valid namespaces, with an optional slash at
        the end. */
    static method FromPath(text: string) returns (r: Result<BackupNamespace, ()>)
      ensures r.Ok? <==> PathParts(text).Some? && Good(PathParts(text).value)
      ensures r.Ok? ==> fresh(r.value) && r.value.Valid() && r.value.inner == PathParts(text).value
    {
      hide PathParts;
      var this_ := new BackupNamespace.Root();
      var path := text;
      assert PathParts(text).Some? ==> [] + PathParts(text).value == PathParts(text).value;
      while true
        invariant fresh(this_) && this_.Valid()
        invariant PathParts(text) == Prepend(this_.inner, PathParts(path))
        decreases |path|
      {
        if !IsPath(path) {
          PathStops(path);
          if path != "" { return Err(()); }
          assert this_.inner + [] == this_.inner;
          return Ok(this_);
        }
        PathAdvance(this_.inner, path);
        var next := path[3..];
        var pos := Text.IndexOf(next, '/');
        ghost var more := this_.inner + [next[..pos]];
        var pushed := this_.Push(next[..pos]);
        if pushed.Err? {
          PathStuck(PathParts(text), more, if pos == |next| then None else PathParts(next[pos + 1..]));
          return Err(());
        }
        if pos == |next| { return Ok(this_); }
        path := next[pos + 1..];
      }
    }

    /** `map_prefix` */
    method MapPrefix(source: BackupNamespace, target: BackupNamespace) returns (r: Result<BackupNamespace, ()>)
      requires Valid() && source.Valid() && target.Valid()
      ensures r.Ok? <==> Mapped(inner, source.inner, target.inner).Some?
      ensures r.Ok? ==>
                fresh(r.value) && r.value.Valid() && Mapped(inner, source.inner, target.inner) == Some(r.value.inner)
    {
      if !(source.inner <= inner) { return Err(()); }
      var suffix := inner[|source.inner|..];
      var mapped := new BackupNamespace.Copy(target);
      var pushed := mapped.PushAll(suffix);
      if pushed.Err? { return Err(()); }
      return Ok(mapped);
    }
  }
}
