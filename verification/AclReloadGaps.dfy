/** Trees that edits reach and that do not survive a reload. */
module AclReloadGaps {
  import opened Wrappers
  import opened Text
  import opened Ordering
  import opened AuthId
  import opened AclTree
  import opened AclEdits
  import opened AclStore
  import opened AclReload
  import opened AclFaithful

  const CONF: Conf := Conf(map["Audit" := {0}], None, None, (id: Authid) => false)
  const COMMA_ID: Authid := Authid(Userid("a,b@pbs", 3), None)
  const COMMA_GROUP := "a,b@pam"
  const BYSTANDER: Authid := Authid(Userid("b@pam", 1), None)

  lemma OneEdit(e: Edit)
    ensures Run(CONF, EMPTY, [e]) == Apply(CONF, EMPTY, e) && Sound(CONF, Apply(CONF, EMPTY, e))
  {
    assert [e][1..] == [];
    EmptySound(CONF);
    EditKeepsSound(CONF, EMPTY, e);
  }

  lemma EntryMade(path: string, id: Authid)
    ensures "Audit" in UserAt(Run(CONF, EMPTY, [InsertUserRole(path, id, "Audit", true)]), SplitAclPath(path), id)
  {
    var p := SplitAclPath(path);
    OneEdit(InsertUserRole(path, id, "Audit", true));
    InsertEntries(CONF, EMPTY, p, AddUser(id, "Audit", true), p, id, "");
  }

  /** An entry that cannot be recorded, or on a path that cannot, is lost. */
  lemma EntryLost(path: string, id: Authid)
    requires !IsRootUser(id) && (!Recordable(id) || !PathOk(SplitAclPath(path)))
    ensures !ReloadFaithful(CONF, Run(CONF, EMPTY, [InsertUserRole(path, id, "Audit", true)]))
  {
    hide ReloadFaithful, Recordable, PathOk, ValidAuthid, SplitAclPath, Run, Sound, RolesNamed, PlainText;
    var e := InsertUserRole(path, id, "Audit", true);
    var o := Run(CONF, EMPTY, [e]);
    OneEdit(e);
    EntryMade(path, id);
    assert UserAt(o, SplitAclPath(path), id) != map[];
    assert !Named(o);
    ReloadFaithfulIff(CONF, o);
  }

  /** The entry of a user whose name has a comma. */
  lemma CommaIdLost()
    ensures ValidAuthid(COMMA_ID) &&
            !ReloadFaithful(CONF, Run(CONF, EMPTY, [InsertUserRole("", COMMA_ID, "Audit", true)]))
  {
    CommaIdValid();
    hide ReloadFaithful, Run, ValidAuthid, SplitAclPath, PathOk;
    assert ',' in PrintAuthid(COMMA_ID) by { assert PrintAuthid(COMMA_ID)[1] == ','; }
    assert PrintAuthid(COMMA_ID)[0] == 'a';
    EntryLost("", COMMA_ID);
  }

  lemma CommaIdValid()
    ensures ValidAuthid(COMMA_ID)
  {
    ParseUseridOfParts("a,b", "pbs");
    assert "a,b" + "@" + "pbs" == "a,b@pbs";
  }

  /** An entry on a path with a colon. */
  lemma ColonPathLost(id: Authid)
    requires !IsRootUser(id)
    ensures !ReloadFaithful(CONF, Run(CONF, EMPTY, [InsertUserRole("a:b", id, "Audit", true)]))
  {
    assert SplitAclPath("a:b") == ["a:b"] by {
      assert Split("a:b", '/') == ["a:b"];
      assert ["a:b"][1..] == [];
    }
    assert ':' in "a:b" by { assert "a:b"[1] == ':'; }
    EntryLost("a:b", id);
  }

  /** An entry of a role that is not registered. */
  lemma UnknownRoleLost(path: string, id: Authid, role: string)
    requires !IsRootUser(id) && role !in CONF.roles
    ensures !ReloadFaithful(CONF, Run(CONF, EMPTY, [InsertUserRole(path, id, role, true)]))
  {
    hide ReloadFaithful, Run, Sound, Named, SplitAclPath;
    var p, e := SplitAclPath(path), InsertUserRole(path, id, role, true);
    var o := Run(CONF, EMPTY, [e]);
    OneEdit(e);
    InsertEntries(CONF, EMPTY, p, AddUser(id, role, true), p, id, "");
    assert role in UserAt(o, p, id) && !RoleOk(CONF, role);
    assert !RolesNamed(CONF, o);
    ReloadFaithfulIff(CONF, o);
  }

  // ---------------------------------------------------------------- a role with an empty name

  const UNNAMED: Conf := Conf(map["" := {0}, "Audit" := {1}], None, None, (id: Authid) => false)

  function BothRoles(id: Authid): Node
  {
    Node(map[id := map["" := true, "Audit" := true]], map[], map[])
  }

  lemma BothRolesMade(id: Authid)
    ensures Run(UNNAMED, EMPTY, [InsertUserRole("", id, "", true), InsertUserRole("", id, "Audit", true)]) ==
            BothRoles(id)
    ensures Sound(UNNAMED, BothRoles(id))
  {
    var e0, e1 := InsertUserRole("", id, "", true), InsertUserRole("", id, "Audit", true);
    assert [e0, e1][1..] == [e1] && [e1][1..] == [];
    assert Split("", '/') == [""] && [""][1..] == [];
    assert SplitAclPath("") == [];
    EmptySound(UNNAMED);
    EditKeepsSound(UNNAMED, EMPTY, e0);
    var t := Node(map[id := map["" := true]], map[], map[]);
    assert Apply(UNNAMED, EMPTY, e0) == t;
    EditKeepsSound(UNNAMED, t, e1);
    assert map["" := true]["Audit" := true] == map["" := true, "Audit" := true];
    assert Apply(UNNAMED, t, e1) == BothRoles(id);
    assert Run(UNNAMED, t, [e1]) == Run(UNNAMED, BothRoles(id), []);
  }

  /** An id that holds the role with the empty name beside another one. */
  lemma UnnamedRoleLost(id: Authid)
    requires !IsRootUser(id)
    ensures var es := [InsertUserRole("", id, "", true), InsertUserRole("", id, "Audit", true)];
            !ReloadFaithful(UNNAMED, Run(UNNAMED, EMPTY, es))
  {
    hide ReloadFaithful, Run, Sound, Named, RolesNamed;
    var n := BothRoles(id);
    BothRolesMade(id);
    assert Holders(n, "", true) == {PrintAuthid(id)} == Holders(n, "Audit", true);
    assert Lost(n, "", true);
    assert Find(n, []) == Some(n);
    ReloadFaithfulIff(UNNAMED, n);
  }

  // ---------------------------------------------------------------- a group with a comma

  lemma FoldOne(s: string)
    ensures CommaFold("", Sorted({s})) == s
  {
    SortedSingle(s);
    assert "" + s == s && [s][1..] == [];
    assert CommaFold("", [s]) == CommaFold(s, []);
  }

  lemma OneGroupRoles(g: string)
    ensures var n := Node(map[], map[g := map["Audit" := true]], map[]);
            Holders(n, "Audit", true) == {"@" + g} && HeldRoles(n, true) == {"Audit"} && HeldRoles(n, false) == {}
  {
    var n := Node(map[], map[g := map["Audit" := true]], map[]);
    assert Holders(n, "Audit", true) == {"@" + g};
    assert forall r :: r in HeldRoles(n, false) ==> Holders(n, r, false) == {};
  }

  lemma OneGroupLines(g: string)
    ensures var n := Node(map[], map[g := map["Audit" := true]], map[]);
            TreeLines(CONF, n, "") == [AclLine(true, "", "@" + g, "Audit")]
  {
    var n := Node(map[], map[g := map["Audit" := true]], map[]);
    OneGroupRoles(g);
    hide Holders, HeldRoles, AclLine;
    FoldOne("@" + g);
    FoldOne("Audit");
    assert HolderLists(n, true) == {"@" + g} && HolderLists(n, false) == {};
    assert RolesWithList(n, true, "@" + g) == {"Audit"};
    SortedSingle("@" + g);
    assert ["@" + g][1..] == [];
    assert ListLines(CONF, n, "", true, ["@" + g]) ==
           [AclLine(true, "", "@" + g, "Audit")] + ListLines(CONF, n, "", true, []);
    assert NodeLines(CONF, n, "") == [AclLine(true, "", "@" + g, "Audit")];
    assert Sorted(n.children.Keys) == [];
  }

  // The line, item by item, for a group `g,u` where `u` reads as an id.

  function Items(g: string, u: string): seq<string>
  {
    ["acl", "1", "/", "@" + g + "," + u, "Audit"]
  }

  /** A name without the characters that separate parts of a line. */
  predicate Simple(s: string)
  {
    s != [] && forall i :: 0 <= i < |s| ==> s[i] != ':' && s[i] != ',' && !IsWhite(s[i])
  }

  lemma ItemsFree(g: string, u: string)
    requires Simple(g) && Simple(u)
    ensures FreeOf(Items(g, u), ':') && FreeOf(Items(g, u), '\n')
  {
    var who := "@" + g + "," + u;
    FiveFree("acl", "1", "/", who, "Audit", ':');
    FiveFree("acl", "1", "/", who, "Audit", '\n');
  }

  lemma TwoParts(a: string, b: string)
    requires ',' !in a && ',' !in b && Trimmed(a) && Trimmed(b)
    ensures CommaParts(a + "," + b) == [a, b]
  {
    SplitHead(a, ',', b);
    TrimAllTrimmed([a, b]);
  }

  lemma OnePart(a: string)
    requires ',' !in a && Trimmed(a)
    ensures CommaParts(a) == [a]
  {
    TrimAllTrimmed([a]);
  }

  /** The tree the line makes. */
  function Misread(g: string, id: Authid): Node
  {
    Node(map[id := map["Audit" := true]], map[g := map["Audit" := true]], map[])
  }

  lemma AssignTwo(g: string, u: string, id: Authid)
    requires ParseAuthid(u) == Ok(id) && (u != [] ==> u[0] != '@')
    ensures AssignAll(CONF, EMPTY, [], ["@" + g, u], ["Audit"], true) == Ok(Misread(g, id))
  {
    hide ParseAuthid;
    var t := Node(map[], map[g := map["Audit" := true]], map[]);
    assert ["@" + g, u][1..] == [u] && [u][1..] == [] && ["Audit"][1..] == [] && ("@" + g)[1..] == g;
    assert Assign(CONF, EMPTY, [], "@" + g, "Audit", true) == Ok(t);
    assert AssignRoles(CONF, EMPTY, [], "@" + g, ["Audit"], true) == AssignRoles(CONF, t, [], "@" + g, [], true);
    assert Assign(CONF, t, [], u, "Audit", true) == Ok(Misread(g, id));
    assert AssignRoles(CONF, t, [], u, ["Audit"], true) == AssignRoles(CONF, Misread(g, id), [], u, [], true);
    assert AssignAll(CONF, t, [], [u], ["Audit"], true) == AssignAll(CONF, Misread(g, id), [], [], ["Audit"], true);
  }

  lemma ItemsRead(g: string, u: string)
    requires Simple(g) && Simple(u)
    ensures CommaParts("@" + g + "," + u) == ["@" + g, u] && CommaParts("Audit") == ["Audit"] && SplitAclPath("/") == []
  {
    hide CommaParts, SplitAclPath;
    TwoParts("@" + g, u);
    OnePart("Audit");
    WrittenPathReadsBack([]);
  }

  lemma LineMisread(g: string, u: string, id: Authid)
    requires Simple(g) && Simple(u) && ParseAuthid(u) == Ok(id) && u[0] != '@'
    ensures ParseLine(CONF, EMPTY, Join(Items(g, u), ':')) == Ok(Misread(g, id))
  {
    hide ParseLine, ParseAuthid, CommaParts, SplitAclPath, AssignAll, FreeOf, Simple, Join, Misread;
    ItemsFree(g, u);
    ItemsRead(g, u);
    ItemsParse(CONF, EMPTY, true, Items(g, u), [], ["@" + g, u], ["Audit"]);
    AssignTwo(g, u, id);
  }

  lemma LineOfItems(g: string, u: string)
    requires Simple(g) && Simple(u)
    ensures var l := Join(Items(g, u), ':'); IsLine(l) && Trim(l) == l && l != []
  {
    ItemsFree(g, u);
    JoinEnds(Items(g, u), ':');
    JoinFreeOf(Items(g, u), ':', '\n');
    hide Join;
    TrimTrimmed(Join(Items(g, u), ':'));
  }

  lemma ItemsLine(g: string, u: string)
    ensures AclLine(true, "", "@" + (g + "," + u), "Audit") == Join(Items(g, u), ':')
  {
    assert "@" + (g + "," + u) == "@" + g + "," + u;
  }

  /** Any group whose name is another name, a comma and a user id: the reload succeeds, but hands
      the group's role to that user and to the other group. */
  lemma GroupMisread(g: string, u: string, id: Authid)
    requires Simple(g) && Simple(u) && ParseAuthid(u) == Ok(id) && u[0] != '@'
    ensures var o := Node(map[], map[g + "," + u := map["Audit" := true]], map[]);
            Load(CONF, Save(CONF, o)) == Ok(Misread(g, id))
  {
    hide ParseLine, ParseLines, TreeLines, AclLine, Join, Lines, Unlines, IsLine, Trim, ParseAuthid, Simple,
         Misread, Items;
    var l := Join(Items(g, u), ':');
    OneGroupLines(g + "," + u);
    ItemsLine(g, u);
    LineMisread(g, u, id);
    LineOfItems(g, u);
    LinesUnlines([l]);
    OneLine(CONF, EMPTY, l);
  }

  lemma BystanderReads()
    ensures ParseAuthid("b@pam") == Ok(BYSTANDER)
  {
    ParseUseridOfParts("b", "pam");
    assert "b" + "@" + "pam" == "b@pam";
    assert ValidAuthid(BYSTANDER);
    ParsePrintAuthid(BYSTANDER);
  }

  lemma GroupInserted(g: string)
    ensures Run(CONF, EMPTY, [InsertGroupRole("", g, "Audit", true)]) ==
            Node(map[], map[g := map["Audit" := true]], map[])
  {
    OneEdit(InsertGroupRole("", g, "Audit", true));
    assert Split("", '/') == [""] && [""][1..] == [];
    assert SplitAclPath("") == [];
  }

  /** The group `a,b@pam`: its role goes to the user `b@pam`, and the group loses it. */
  lemma CommaGroupMisread()
    ensures var o := Run(CONF, EMPTY, [InsertGroupRole("", COMMA_GROUP, "Audit", true)]);
            var r := Load(CONF, Save(CONF, o));
            GroupAt(o, [], COMMA_GROUP) == map["Audit" := true] && UserAt(o, [], BYSTANDER) == map[] &&
            r.Ok? && GroupAt(r.value, [], COMMA_GROUP) == map[] &&
            UserAt(r.value, [], BYSTANDER) == map["Audit" := true]
  {
    hide Load, Save, Run, ParseAuthid;
    GroupInserted(COMMA_GROUP);
    BystanderReads();
    assert "a" + "," + "b@pam" == COMMA_GROUP;
    GroupMisread("a", "b@pam", BYSTANDER);
    assert |COMMA_GROUP| != |"a"|;
  }
}
