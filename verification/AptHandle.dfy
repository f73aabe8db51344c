/** Handles of standard APT repositories and their text form: a component, after the name of the
    software and a dash unless that is the host product itself. */
module AptHandle {
  import opened Wrappers

  datatype RepoType =
    | Pve | Pbs | PbsClient | Pdm | Pmg
    | Debian | DebianSecurity | DebianBackports | CephSquid | CephTentacle
    | OtherType(payload: string)

  datatype Component = Enterprise | NoSubscription | Test | Main | Staging | OtherComponent(name: string)

  datatype Handle = Handle(repoType: Option<RepoType>, component: Component)

  // ---------------------------------------------------------------- names

  function TypeName(t: RepoType): string
  {
    match t
    case Pve => "pve"
    case Pbs => "pbs"
    case PbsClient => "pbs-client"
    case Pdm => "pdm"
    case Pmg => "pmg"
    case Debian => "debian"
    case DebianSecurity => "debian-security"
    case DebianBackports => "debian-backports"
    case CephSquid => "ceph-squid"
    case CephTentacle => "ceph-tentacle"
    case OtherType(payload) => payload
  }

  predicate IsHostProduct(t: RepoType)
  {
    t.Pve? || t.Pbs? || t.Pdm? || t.Pmg?
  }

  function ComponentName(c: Component): string
  {
    match c
    case Enterprise => "enterprise"
    case NoSubscription => "no-subscription"
    case Test => "test"
    case Main => "main"
    case Staging => "staging"
    case OtherComponent(name) => name
  }

  const KNOWN_COMPONENTS: seq<(string, Component)> := [
    ("no-subscription", NoSubscription),
    ("enterprise", Enterprise),
    ("staging", Staging),
    ("test", Test),
    ("main", Main)
  ]

  const KNOWN_TYPES: seq<(string, RepoType)> := [
    ("debian-backports", DebianBackports),
    ("debian-security", DebianSecurity),
    ("ceph-tentacle", CephTentacle),
    ("ceph-squid", CephSquid),
    ("pbs-client", PbsClient),
    ("debian", Debian)
  ]

  predicate Lowercase(c: char)
  {
    'a' <= c <= 'z'
  }

  predicate TokenChar(c: char)
  {
    Lowercase(c) || '0' <= c <= '9' || c == '-'
  }

  /** The handle expression: lowercase words of letters and digits joined by single dashes, the
      first one starting with a letter. */
  predicate Token(s: string)
  {
    s != [] && Lowercase(s[0]) && s[|s| - 1] != '-' &&
    (forall i :: 0 <= i < |s| ==> TokenChar(s[i])) &&
    forall i :: 0 <= i < |s| - 1 && s[i] == '-' ==> s[i + 1] != '-'
  }

  // ---------------------------------------------------------------- printing and parsing

  function Print(h: Handle): string
  {
    match h.repoType
    case None => ComponentName(h.component)
    case Some(t) =>
      if IsHostProduct(t) then ComponentName(h.component) else TypeName(t) + "-" + ComponentName(h.component)
  }

  predicate EndsWith(s: string, suffix: string)
  {
    |suffix| <= |s| && s[|s| - |suffix|..] == suffix
  }

  /** The type named `prefix`, looked up from entry `k` of the table on. */
  function TypeFrom(prefix: string, k: nat): RepoType
    requires k <= |KNOWN_TYPES|
    decreases |KNOWN_TYPES| - k
  {
    if k == |KNOWN_TYPES| then OtherType(prefix)
    else if KNOWN_TYPES[k].0 == prefix then KNOWN_TYPES[k].1
    else TypeFrom(prefix, k + 1)
  }

  /** Scan of the component table from entry `k` on. */
  function ParseFrom(s: string, k: nat): Handle
    requires k <= |KNOWN_COMPONENTS|
    decreases |KNOWN_COMPONENTS| - k
  {
    if k == |KNOWN_COMPONENTS| then Handle(None, OtherComponent(s))
    else
      var (name, component) := KNOWN_COMPONENTS[k];
      if !EndsWith(s, name) then ParseFrom(s, k + 1)
      else
        var prefix := s[..|s| - |name|];
        if prefix == [] then Handle(None, component)
        else if prefix[|prefix| - 1] == '-' && |prefix| > 1 then
          Handle(Some(TypeFrom(prefix[..|prefix| - 1], 0)), component)
        else ParseFrom(s, k + 1)
  }

  /** `FromStr` */
  function Parse(s: string): Option<Handle>
  {
    if Token(s) then Some(ParseFrom(s, 0)) else None
  }

  function Lower(s: string): (r: string)
    ensures |r| == |s|
  {
    seq(|s|, i requires 0 <= i < |s| => if 'A' <= s[i] <= 'Z' then s[i] + 32 as char else s[i])
  }

  /** `APTRepositoryHandle::new`: no type for a host product, payloads in lower case. */
  function New(repoType: Option<RepoType>, component: Component): Handle
  {
    Handle(
      if repoType.Some? && IsHostProduct(repoType.value) then None
      else if repoType.Some? && repoType.value.OtherType? then Some(OtherType(Lower(repoType.value.payload)))
      else repoType,
      if component.OtherComponent? then OtherComponent(Lower(component.name)) else component)
  }

  // ---------------------------------------------------------------- the tables

  lemma ComponentNames(k: nat)
    requires k < |KNOWN_COMPONENTS|
    ensures ComponentName(KNOWN_COMPONENTS[k].1) == KNOWN_COMPONENTS[k].0 && !KNOWN_COMPONENTS[k].1.OtherComponent?
    ensures Token(KNOWN_COMPONENTS[k].0) && |KNOWN_COMPONENTS[k].0| >= 4
  {
    var s := KNOWN_COMPONENTS[k].0;
    assert s in ["no-subscription", "enterprise", "staging", "test", "main"];
  }

  lemma KnownComponent(c: Component) returns (k: nat)
    requires !c.OtherComponent?
    ensures k < |KNOWN_COMPONENTS| && KNOWN_COMPONENTS[k].1 == c
  {
    k := match c
      case NoSubscription => 0
      case Enterprise => 1
      case Staging => 2
      case Test => 3
      case Main => 4;
  }

  /** No text ends in two of the component names. */
  lemma OneSuffix(s: string, i: nat, j: nat)
    requires i < |KNOWN_COMPONENTS| && j < |KNOWN_COMPONENTS|
    requires EndsWith(s, KNOWN_COMPONENTS[i].0) && EndsWith(s, KNOWN_COMPONENTS[j].0)
    ensures i == j
  {
    LastTwo(s, i);
    LastTwo(s, j);
    var last := ["on", "se", "ng", "st", "in"];
    assert last[i] == last[j];
  }

  lemma LastTwo(s: string, k: nat)
    requires k < |KNOWN_COMPONENTS| && EndsWith(s, KNOWN_COMPONENTS[k].0)
    ensures |s| >= 2 && s[|s| - 2..] == ["on", "se", "ng", "st", "in"][k]
  {
    ComponentNames(k);
    var name := KNOWN_COMPONENTS[k].0;
    assert name[|name| - 2..] == ["on", "se", "ng", "st", "in"][k];
    assert s[|s| - 2..] == s[|s| - |name|..][|name| - 2..];
  }

  lemma {:induction false} TypeFromPrints(prefix: string, k: nat)
    requires k <= |KNOWN_TYPES|
    ensures var t := TypeFrom(prefix, k); TypeName(t) == prefix && !IsHostProduct(t)
    decreases |KNOWN_TYPES| - k
  {
    if k < |KNOWN_TYPES| && KNOWN_TYPES[k].0 != prefix { TypeFromPrints(prefix, k + 1); }
  }

  /** The name is that of a type the table knows. */
  predicate KnownType(name: string)
  {
    exists k :: 0 <= k < |KNOWN_TYPES| && KNOWN_TYPES[k].0 == name
  }

  /** A type is the one its own name leads to exactly when it is no host product and not a
      known name in disguise. */
  lemma TypeFromName(t: RepoType)
    ensures TypeFrom(TypeName(t), 0) == t <==> !IsHostProduct(t) && (t.OtherType? ==> !KnownType(t.payload))
  {
    if t.OtherType? {
      OtherFrom(t.payload, 0);
    } else {
      TypeFromPrints(TypeName(t), 0);
      if !IsHostProduct(t) { TypeTable(t); }
    }
  }

  lemma {:induction false} OtherFrom(payload: string, k: nat)
    requires k <= |KNOWN_TYPES|
    ensures TypeFrom(payload, k) == OtherType(payload) <==>
            forall i :: k <= i < |KNOWN_TYPES| ==> KNOWN_TYPES[i].0 != payload
    decreases |KNOWN_TYPES| - k
  {
    if k < |KNOWN_TYPES| { OtherFrom(payload, k + 1); }
  }

  lemma TypeTable(t: RepoType)
    requires !t.OtherType? && !IsHostProduct(t)
    ensures TypeFrom(TypeName(t), 0) == t
  {
    var s := TypeName(t);
    assert TypeFrom(s, 4) == if s == "pbs-client" then PbsClient else if s == "debian" then Debian else OtherType(s);
    assert TypeFrom(s, 2) ==
           if s == "ceph-tentacle" then CephTentacle else if s == "ceph-squid" then CephSquid else TypeFrom(s, 4);
  }

  // ---------------------------------------------------------------- the scan

  /** The text is a known component, or ends in one after a dash with something before it. */
  predicate Matches(s: string, k: nat)
    requires k < |KNOWN_COMPONENTS|
  {
    var name := KNOWN_COMPONENTS[k].0;
    EndsWith(s, name) && (|s| == |name| || (|s| > |name| + 1 && s[|s| - |name| - 1] == '-'))
  }

  function Found(s: string, k: nat): Handle
    requires k < |KNOWN_COMPONENTS| && Matches(s, k)
  {
    var (name, component) := KNOWN_COMPONENTS[k];
    if |s| == |name| then Handle(None, component) else Handle(Some(TypeFrom(s[..|s| - |name| - 1], 0)), component)
  }

  /** Whatever the order of the table, the scan finds the one entry that matches. */
  lemma {:induction false} ScanFinds(s: string, k: nat, from: nat)
    requires from <= k < |KNOWN_COMPONENTS| && Matches(s, k)
    ensures ParseFrom(s, from) == Found(s, k)
    decreases k - from
  {
    hide TypeFrom;
    if from < k {
      if EndsWith(s, KNOWN_COMPONENTS[from].0) { OneSuffix(s, from, k); }
      ScanFinds(s, k, from + 1);
    } else {
      var name := KNOWN_COMPONENTS[k].0;
      var prefix := s[..|s| - |name|];
      assert |prefix| > 0 ==> prefix[..|prefix| - 1] == s[..|s| - |name| - 1];
    }
  }

  lemma {:induction false} ScanFails(s: string, from: nat)
    requires from <= |KNOWN_COMPONENTS| && forall k :: from <= k < |KNOWN_COMPONENTS| ==> !Matches(s, k)
    ensures ParseFrom(s, from) == Handle(None, OtherComponent(s))
    decreases |KNOWN_COMPONENTS| - from
  {
    hide TypeFrom;
    if from < |KNOWN_COMPONENTS| {
      assert !Matches(s, from);
      ScanFails(s, from + 1);
    }
  }

  lemma {:induction false} PrintParseFrom(s: string, k: nat)
    requires k <= |KNOWN_COMPONENTS|
    ensures Print(ParseFrom(s, k)) == s
    decreases |KNOWN_COMPONENTS| - k
  {
    hide TypeFrom, TypeName, ComponentName, IsHostProduct;
    if k == |KNOWN_COMPONENTS| {
      OtherName(s);
    } else {
      PrintParseFrom(s, k + 1);
      ComponentNames(k);
      if EndsWith(s, KNOWN_COMPONENTS[k].0) { Pieces(s, KNOWN_COMPONENTS[k].0); }
      var n := |s| - |KNOWN_COMPONENTS[k].0|;
      if n > 0 { TypeFromPrints(s[..n][..n - 1], 0); }
    }
  }

  lemma Pieces(s: string, name: string)
    requires EndsWith(s, name)
    ensures var n := |s| - |name|;
            s == s[..n] + name && (n > 0 && s[..n][n - 1] == '-' ==> s == s[..n][..n - 1] + "-" + name)
  {
    var n := |s| - |name|;
    if n > 0 && s[..n][n - 1] == '-' { assert s[..n] == s[..n][..n - 1] + "-"; }
  }

  lemma OtherName(s: string)
    ensures ComponentName(OtherComponent(s)) == s
  {
  }

  /** Printing a parsed handle gives back the text, whatever it names. */
  lemma PrintParse(s: string)
    ensures Parse(s).Some? <==> Token(s)
    ensures Parse(s).Some? ==> Print(Parse(s).value) == s
  {
    PrintParseFrom(s, 0);
  }

  // ---------------------------------------------------------------- canonical handles

  predicate EndsInComponent(s: string)
  {
    exists k :: 0 <= k < |KNOWN_COMPONENTS| && Matches(s, k)
  }

  /** The handles that their own text leads back to. */
  predicate Canonical(h: Handle)
  {
    match h.repoType
    case None => h.component.OtherComponent? ==> Token(h.component.name) && !EndsInComponent(h.component.name)
    case Some(t) =>
      !IsHostProduct(t) && !h.component.OtherComponent? && (t.OtherType? ==> Token(t.payload) && !KnownType(t.payload))
  }

  lemma TokenJoin(p: string, c: string)
    requires Token(c)
    ensures Token(p + "-" + c) <==> Token(p)
  {
    var s := p + "-" + c;
    assert forall i :: 0 <= i < |p| ==> s[i] == p[i];
    assert s[|p|] == '-';
    assert forall i :: 0 <= i < |c| ==> s[|p| + 1 + i] == c[i];
    if Token(s) {
      assert p != [];
      assert s[|p| - 1] != '-';
    }
  }

  predicate Word(w: string)
  {
    w != [] && forall i :: 0 <= i < |w| ==> Lowercase(w[i])
  }

  lemma WordIsToken(w: string)
    requires Word(w)
    ensures Token(w)
  {
  }

  lemma TwoWords(s: string, v: string, w: string)
    requires Word(v) && Word(w) && s == v + "-" + w
    ensures Token(s)
  {
    WordIsToken(v);
    WordIsToken(w);
    TokenJoin(v, w);
  }

  lemma DebianTypeIsToken(t: RepoType)
    requires t.DebianSecurity? || t.DebianBackports?
    ensures Token(TypeName(t))
  {
    hide Token;
    if t.DebianSecurity? {
      TwoWords("debian-security", "debian", "security");
    } else {
      TwoWords("debian-backports", "debian", "backports");
    }
  }

  lemma CephTypeIsToken(t: RepoType)
    requires t.CephSquid? || t.CephTentacle?
    ensures Token(TypeName(t))
  {
    hide Token;
    if t.CephSquid? {
      TwoWords("ceph-squid", "ceph", "squid");
    } else {
      TwoWords("ceph-tentacle", "ceph", "tentacle");
    }
  }

  lemma KnownTypeIsToken(t: RepoType)
    requires !t.OtherType?
    ensures Token(TypeName(t))
  {
    hide Token;
    match t
    case PbsClient => TwoWords("pbs-client", "pbs", "client");
    case DebianSecurity | DebianBackports => DebianTypeIsToken(t);
    case CephSquid | CephTentacle => CephTypeIsToken(t);
    case _ => WordIsToken(TypeName(t));
  }

  lemma JoinMatches(p: string, k: nat)
    requires k < |KNOWN_COMPONENTS| && p != []
    ensures var s := p + "-" + KNOWN_COMPONENTS[k].0;
            Matches(s, k) && Found(s, k) == Handle(Some(TypeFrom(p, 0)), KNOWN_COMPONENTS[k].1)
  {
    var name := KNOWN_COMPONENTS[k].0;
    var s := p + "-" + name;
    assert s[|s| - |name|..] == name;
    assert s[..|s| - |name| - 1] == p;
  }

  lemma HostRoundTrip(h: Handle)
    requires h.repoType.None?
    ensures Parse(Print(h)) == Some(h) <==> Canonical(h)
  {
    hide ParseFrom, Token;
    var s := ComponentName(h.component);
    if h.component.OtherComponent? {
      if EndsInComponent(s) {
        var k :| 0 <= k < |KNOWN_COMPONENTS| && Matches(s, k);
        ScanFinds(s, k, 0);
        ComponentNames(k);
      } else {
        ScanFails(s, 0);
      }
    } else {
      var k := KnownComponent(h.component);
      ComponentNames(k);
      assert s[|s| - |s|..] == s;
      ScanFinds(s, k, 0);
    }
  }

  lemma TypedRoundTrip(h: Handle, t: RepoType)
    requires h.repoType == Some(t) && !IsHostProduct(t) && !h.component.OtherComponent?
    ensures Parse(Print(h)) == Some(h) <==> Canonical(h)
  {
    hide ParseFrom, Token, TypeFrom, TypeName, ComponentName, KnownType, Matches, Found;
    var k := KnownComponent(h.component);
    ComponentNames(k);
    TokenJoin(TypeName(t), KNOWN_COMPONENTS[k].0);
    TypeFromName(t);
    TokenOfType(t);
    if Token(TypeName(t)) {
      TokenNotEmpty(TypeName(t));
      JoinMatches(TypeName(t), k);
      ScanFinds(Print(h), k, 0);
    }
  }

  lemma TokenNotEmpty(s: string)
    requires Token(s)
    ensures s != []
  {
  }

  lemma TokenOfType(t: RepoType)
    ensures Token(TypeName(t)) <==> (t.OtherType? ==> Token(t.payload))
  {
    if !t.OtherType? { KnownTypeIsToken(t); }
  }

  /** A parsed handle never has a host product for its type, and never a type beside a component
      it does not know. */
  lemma {:induction false} ParsedShape(s: string, k: nat)
    requires k <= |KNOWN_COMPONENTS|
    ensures var h := ParseFrom(s, k);
            h.repoType.Some? ==> !IsHostProduct(h.repoType.value) && !h.component.OtherComponent?
    decreases |KNOWN_COMPONENTS| - k
  {
    hide TypeFrom;
    if k < |KNOWN_COMPONENTS| {
      ParsedShape(s, k + 1);
      ComponentNames(k);
      var name := KNOWN_COMPONENTS[k].0;
      if EndsWith(s, name) && |s| > |name| { TypeFromPrints(s[..|s| - |name|][..|s| - |name| - 1], 0); }
    }
  }

  /** Parsing a printed handle returns it exactly when it is canonical. */
  lemma ParsePrintIff(h: Handle)
    ensures Parse(Print(h)) == Some(h) <==> Canonical(h)
  {
    hide ParseFrom, Token, TypeName, ComponentName;
    match h.repoType
    case None => HostRoundTrip(h);
    case Some(t) =>
      ParsedShape(Print(h), 0);
      if !IsHostProduct(t) && !h.component.OtherComponent? { TypedRoundTrip(h, t); }
  }

  /** Parsing only makes canonical handles. */
  lemma ParsedCanonical(s: string)
    requires Parse(s).Some?
    ensures Canonical(Parse(s).value)
  {
    PrintParse(s);
    ParsePrintIff(Parse(s).value);
  }

  /** A handle made by `new` is read back from its text if and only if it has an unknown component
      that is a token without a known ending, and no software of its own, or a known component
      beside no software, a host product, other known software, or an unknown token. */
  lemma NewRoundTripIff(repoType: Option<RepoType>, component: Component)
    ensures var own := repoType.Some? && !IsHostProduct(repoType.value);
            Parse(Print(New(repoType, component))) == Some(New(repoType, component)) <==>
            if component.OtherComponent?
            then !own && Token(Lower(component.name)) && !EndsInComponent(Lower(component.name))
            else own && repoType.value.OtherType? ==>
                   Token(Lower(repoType.value.payload)) && !KnownType(Lower(repoType.value.payload))
  {
    hide Parse, Print, Token, EndsInComponent, KnownType, Lower;
    ParsePrintIff(New(repoType, component));
  }

  /** The text of a handle made by `new` names the software, unless it is the host product, and the
      component, in lower case. */
  lemma NewPrints(repoType: Option<RepoType>, component: Component)
    ensures var name := Lower(ComponentName(component));
            Print(New(repoType, component)) ==
            if repoType.None? || IsHostProduct(repoType.value) then name
            else Lower(TypeName(repoType.value)) + "-" + name
  {
    hide Lower;
    if !component.OtherComponent? { LowerComponent(component); }
    if repoType.Some? && !repoType.value.OtherType? { LowerType(repoType.value); }
  }

  lemma LowerToken(s: string)
    requires forall i :: 0 <= i < |s| ==> TokenChar(s[i])
    ensures Lower(s) == s
  {
  }

  lemma LowerComponent(c: Component)
    requires !c.OtherComponent?
    ensures Lower(ComponentName(c)) == ComponentName(c)
  {
    var k := KnownComponent(c);
    ComponentNames(k);
    LowerToken(ComponentName(c));
  }

  lemma LowerType(t: RepoType)
    requires !t.OtherType?
    ensures Lower(TypeName(t)) == TypeName(t)
  {
    hide TypeName;
    KnownTypeIsToken(t);
    LowerToken(TypeName(t));
  }

  /** `new` does not make every handle canonical: a known type beside an unknown component prints
      as a text that is read as one unknown component. */
  lemma NewMayNotRoundTrip()
    ensures var h := New(Some(Debian), OtherComponent("weird"));
            Print(h) == "debian-weird" && Parse(Print(h)) == Some(Handle(None, OtherComponent("debian-weird")))
  {
    hide Token, ParseFrom, EndsWith;
    var s := "debian-weird";
    assert Lower("weird") == "weird";
    TwoWords(s, "debian", "weird");
    assert s[|s| - 2..] == "rd";
    forall k: nat | k < |KNOWN_COMPONENTS| && EndsWith(s, KNOWN_COMPONENTS[k].0) ensures false { LastTwo(s, k); }
    ScanFails(s, 0);
  }
}
