/** Saving and reloading an ACL tree: which role lookups are kept, and exactly which trees come
    back as they were. */
module AclFaithful {
  import opened Wrappers
  import opened AuthId
  import opened AclTree
  import opened AclEdits
  import opened AclPrivs
  import opened AclStore
  import opened AclReload
  import opened AclLoaded

  /** Where nothing is lost all entries are written. */
  lemma ApartTarget(o: Node, p: Path, who: string)
    requires Apart(o) && who != "root@pam"
    ensures Target(o, p, who) == WhoAt(o, p, who)
  {
    hide Lost, WhoAt;
  }

  lemma ReloadedUser(conf: Conf, o: Node, p: Path, id: Authid)
    requires Storable(conf, o) && !IsRootUser(id)
    ensures Load(conf, Save(conf, o)).Ok?
    ensures UserAt(Load(conf, Save(conf, o)).value, p, id) == UserAt(o, p, id)
  {
    hide Load, Save, Sound, PathOk, RolesNamed, Apart, Target;
    ReloadEntries(conf, o);
    var t := Load(conf, Save(conf, o)).value;
    LoadedRecordable(conf, Save(conf, o));
    if ValidAuthid(id) && Recordable(id) {
      ParsePrintAuthid(id);
      RootText(id);
      assert WhoAt(t, p, PrintAuthid(id)) == Target(o, p, PrintAuthid(id));
      ApartTarget(o, p, PrintAuthid(id));
    } else {
      assert UserAt(t, p, id) == map[];
      assert UserAt(o, p, id) == map[];
    }
  }

  lemma ReloadedGroup(conf: Conf, o: Node, p: Path, g: string)
    requires Storable(conf, o)
    ensures Load(conf, Save(conf, o)).Ok?
    ensures GroupAt(Load(conf, Save(conf, o)).value, p, g) == GroupAt(o, p, g)
  {
    hide Load, Save, Legible, Apart, Target;
    ReloadEntries(conf, o);
    var who := "@" + g;
    assert who[1..] == g;
    assert WhoAt(Load(conf, Save(conf, o)).value, p, who) == Target(o, p, who);
    ApartTarget(o, p, who);
  }

  /** Saving and reloading keeps the roles of every id but `root@pam` on every path, and the
      entries of every group. */
  lemma ReloadKeepsRoles(conf: Conf, o: Node)
    requires Storable(conf, o)
    ensures Load(conf, Save(conf, o)).Ok?
    ensures var t := Load(conf, Save(conf, o)).value;
            (forall id: Authid, p: Path :: !IsRootUser(id) ==> Roles(conf, t, id, p) == Roles(conf, o, id, p)) &&
            (forall g: string, p: Path :: GroupAt(t, p, g) == GroupAt(o, p, g))
  {
    hide Load, Save, Legible, Apart, Roles;
    ReloadEntries(conf, o);
    var t := Load(conf, Save(conf, o)).value;
    forall id: Authid, p: Path | !IsRootUser(id) ensures Roles(conf, t, id, p) == Roles(conf, o, id, p) {
      forall j | 0 <= j <= |p| ensures UserAt(t, p[..j], id) == UserAt(o, p[..j], id) {
        ReloadedUser(conf, o, p[..j], id);
      }
      RolesSame(conf, t, o, id, p);
    }
    forall g: string, p: Path ensures GroupAt(t, p, g) == GroupAt(o, p, g) { ReloadedGroup(conf, o, p, g); }
  }

  /** With `root@pam` a superuser, every privilege lookup is kept. */
  lemma ReloadKeepsPrivs(conf: Conf, o: Node, id: Authid, p: Path)
    requires Storable(conf, o) && forall x: Authid :: IsRootUser(x) ==> IsAdmin(conf, x)
    ensures Load(conf, Save(conf, o)).Ok?
    ensures Details(conf, Load(conf, Save(conf, o)).value, id, p) == Details(conf, o, id, p)
    decreases id.IsToken()
  {
    hide Load, Save, Legible, Apart, Roles;
    ReloadKeepsRoles(conf, o);
    if id.IsToken() { ReloadKeepsPrivs(conf, o, Owner(id), p); }
  }

  // ---------------------------------------------------------------- exactly which trees

  /** The same entries, those of `root@pam` aside. */
  ghost predicate SameEntries(a: Node, b: Node)
  {
    (forall p: Path, id: Authid :: !IsRootUser(id) ==> UserAt(a, p, id) == UserAt(b, p, id)) &&
    (forall p: Path, g: string :: GroupAt(a, p, g) == GroupAt(b, p, g))
  }

  ghost predicate ReloadFaithful(conf: Conf, o: Node)
  {
    Load(conf, Save(conf, o)).Ok? && SameEntries(Load(conf, Save(conf, o)).value, o)
  }

  lemma ReloadSame(conf: Conf, o: Node)
    requires Storable(conf, o)
    ensures ReloadFaithful(conf, o)
  {
    hide Load, Save, Legible, Apart, UserAt, GroupAt, IsRootUser;
    ReloadEntries(conf, o);
    var t := Load(conf, Save(conf, o)).value;
    forall p: Path, id: Authid | !IsRootUser(id) ensures UserAt(t, p, id) == UserAt(o, p, id) {
      ReloadedUser(conf, o, p, id);
    }
    forall p: Path, g: string ensures GroupAt(t, p, g) == GroupAt(o, p, g) { ReloadedGroup(conf, o, p, g); }
  }

  lemma SameEntriesSameNames(conf: Conf, a: Node, b: Node)
    requires SameEntries(a, b) && Named(a) && RolesNamed(conf, a)
    ensures Named(b) && RolesNamed(conf, b)
  {
    hide UserAt, GroupAt, ValidAuthid, Recordable, PathOk, PlainText, RoleOk, IsRootUser;
  }

  /** Where the role with the empty name is lost, the reload is not faithful. */
  lemma LossShows(conf: Conf, o: Node, p: Path, pg: bool)
    requires Legible(conf, o) && Find(o, p).Some? && Lost(Find(o, p).value, "", pg)
    ensures !ReloadFaithful(conf, o)
  {
    hide Load, Save, Legible, Find, Apart;
    var n := Find(o, p).value;
    LegibleNode(conf, o, p, n);
    ReloadEntries(conf, o);
    var s :| s != "" && s in HeldRoles(n, pg) && Holders(n, s, pg) == Holders(n, "", pg);
    var who :| who in Holders(n, "", pg);
    HoldersHaveEntries(conf, o, p, n, "", pg, who);
    HoldersAreEntries(conf, o, p, n, "", pg, who);
    var t := Load(conf, Save(conf, o)).value;
    assert WhoAt(t, p, who) == Target(o, p, who) != WhoAt(o, p, who);
    DifferentEntry(t, o, p, who);
  }

  lemma DifferentEntry(a: Node, b: Node, p: Path, who: string)
    requires Writable(who) && who != "root@pam" && WhoAt(a, p, who) != WhoAt(b, p, who)
    ensures !SameEntries(a, b)
  {
    if who[0] != '@' {
      PrintParseAuthid(who);
      RootText(ParseAuthid(who).value);
    }
  }

  /** The reload restores the tree if and only if every written entry belongs to an id without a
      comma or leading '@', or to a group with a plain name, holds known plain roles, stands on a
      path without colon and line feed, and no role with an empty name shares all its holders on a
      node with another role. */
  lemma ReloadFaithfulIff(conf: Conf, o: Node)
    requires Sound(conf, o)
    ensures ReloadFaithful(conf, o) <==> Named(o) && RolesNamed(conf, o) && Apart(o)
  {
    hide Load, Save, Named, RolesNamed, Sound, UserAt, GroupAt, IsRootUser, Lost;
    if ReloadFaithful(conf, o) {
      LoadedRecordable(conf, Save(conf, o));
      SameEntriesSameNames(conf, Load(conf, Save(conf, o)).value, o);
      forall p: Path, pg: bool | Find(o, p).Some? ensures !Lost(Find(o, p).value, "", pg) {
        if Lost(Find(o, p).value, "", pg) { LossShows(conf, o, p, pg); }
      }
    }
    if Named(o) && RolesNamed(conf, o) && Apart(o) { ReloadSame(conf, o); }
  }
}
