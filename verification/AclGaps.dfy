/** The three situations in which `any_privs_below` answers "no" although a path below the
    anchor grants the privilege, each on a tree that edits reach. */
module AclGaps {
  import opened Wrappers
  import opened Text
  import opened AuthId
  import opened AclTree
  import opened AclEdits
  import opened AclPrivs
  import opened AclBelow

  const CONF: Conf := Conf(map["Audit" := {0}, "Backup" := {1}], None, None, (id: Authid) => false)
  const USER: Authid := Authid(Userid("joe@pbs", 3), None)
  const TOKEN: Authid := Authid(Userid("joe@pbs", 3), Some("t1"))

  function After(e0: Edit, e1: Edit): Node
  {
    Apply(CONF, Apply(CONF, EMPTY, e0), e1)
  }

  lemma AfterIsRun(e0: Edit, e1: Edit)
    ensures After(e0, e1) == Run(CONF, EMPTY, [e0, e1])
    ensures Sound(CONF, After(e0, e1))
  {
    assert [e0, e1][1..] == [e1] && [e1][1..] == [];
    assert Run(CONF, Apply(CONF, EMPTY, e0), [e1]) == Run(CONF, After(e0, e1), []);
    EmptySound(CONF);
    EditKeepsSound(CONF, EMPTY, e0);
    EditKeepsSound(CONF, Apply(CONF, EMPTY, e0), e1);
  }

  lemma Components()
    ensures SplitAclPath("") == [] && SplitAclPath("a") == ["a"] && SplitAclPath("a/b") == ["a", "b"]
    ensures Flatten(["a"]) == ["a"]
  {
    assert Split("", '/') == [""] && Split("a", '/') == ["a"] && Split("b", '/') == ["b"];
    SplitAppend("a", '/', "b");
    assert "a" + ['/'] + "b" == "a/b";
    assert [""][1..] == [] && ["a"][1..] == [] && ["a", "b"][1..] == ["b"] && ["b"][1..] == [];
    FlattenProper(["a"]);
  }

  /** Two inserted roles are the only entries of the tree. */
  lemma EntriesOf(p0: string, i0: Authid, r0: string, f0: bool, p1: string, i1: Authid, r1: string, f1: bool,
                  p: Path, id: Authid)
    requires (SplitAclPath(p0), i0) != (SplitAclPath(p1), i1)
    ensures UserAt(After(InsertUserRole(p0, i0, r0, f0), InsertUserRole(p1, i1, r1, f1)), p, id) ==
            if (p, id) == (SplitAclPath(p0), i0) then map[r0 := f0]
            else if (p, id) == (SplitAclPath(p1), i1) then map[r1 := f1]
            else map[]
  {
    FindInEmpty(p);
    InsertEntries(CONF, EMPTY, SplitAclPath(p0), AddUser(i0, r0, f0), p, id, "");
    InsertEntries(CONF, Apply(CONF, EMPTY, InsertUserRole(p0, i0, r0, f0)), SplitAclPath(p1), AddUser(i1, r1, f1),
      p, id, "");
  }

  lemma OneRole(role: string, flag: bool)
    requires role == "Audit" || role == "Backup"
    ensures PrivsOf(CONF, map[role := flag]) == CONF.roles[role]
    ensures PropagatedOf(CONF, map[role := flag]) == if flag then CONF.roles[role] else {}
    ensures Applicable(CONF, map[role := flag], true) == map[role := flag]
    ensures Applicable(CONF, map[role := flag], false) == if flag then map[role := flag] else map[]
  {
    var m: RoleMap := map[role := flag];
    assert role in m && role in CONF.roles;
  }

  /** The empty anchor: the user may audit `/a` and `/a/b`, but below the root nothing is found. */
  lemma EmptyAnchorGap()
    ensures var root := Run(CONF, EMPTY,
                            [InsertUserRole("a", USER, "Audit", true), InsertUserRole("a/b", USER, "Audit", true)]);
            GrantedBelow(CONF, root, USER, [], {0}) && !AnyPrivsBelow(CONF, root, USER, [], {0})
  {
    var e0, e1 := InsertUserRole("a", USER, "Audit", true), InsertUserRole("a/b", USER, "Audit", true);
    var root := After(e0, e1);
    AfterIsRun(e0, e1);
    Components();
    OneRole("Audit", true);
    EntriesOf("a", USER, "Audit", true, "a/b", USER, "Audit", true, [], USER);
    EntriesOf("a", USER, "Audit", true, "a/b", USER, "Audit", true, ["a"], USER);
    AnchorRoles(CONF, root, USER, ["a"]);
    assert [] + ["a"] == ["a"] && ProperPath(["a"]);
    assert 0 in PrivsAt(CONF, root, USER, [] + ["a"]) * {0};
    var none: Path := [];
    assert none[..0] == none;
    assert InheritedPrivs(CONF, root, USER, []) == {};
    PropagatedVsInherited(CONF, root, USER, []);
    EmptyAnchorAnswer(CONF, root, USER, {0});
  }

  lemma NothingAsked(root: Node, id: Authid, privs: Privs)
    requires Sound(CONF, root) && NothingBelow(root, id, ["a"])
    requires Details(CONF, root, id, ["a"]).1 * privs == {}
    ensures !AnyPrivsBelow(CONF, root, id, ["a"], privs)
  {
    Components();
    if Find(root, ["a"]).Some? {
      forall q: Path ensures !HasRolesAt(CONF, Find(root, ["a"]).value, id, q) {
        FindAppend(root, ["a"], q);
        if q != [] { LeafApplies(CONF, UserAt(root, ["a"] + q, id)); }
      }
    }
  }

  function OpaqueEntries(p: Path): RoleMap
  {
    if p == [] then map["Audit" := true] else if p == ["a"] then map["Backup" := false] else map[]
  }

  lemma OpaqueAnchor(root: Node)
    requires Sound(CONF, root)
    requires forall p: Path :: UserAt(root, p, USER) == OpaqueEntries(p)
    ensures GrantedBelow(CONF, root, USER, ["a"], {0}) && !AnyPrivsBelow(CONF, root, USER, ["a"], {0})
  {
    OneRole("Audit", true);
    OneRole("Backup", false);
    assert ["a"][..1] == ["a"] && ["a"][..0] == [];
    assert Inherited(CONF, root, USER, ["a"], 0) == map["Audit" := true];
    assert 0 in InheritedPrivs(CONF, root, USER, ["a"]) * {0};
    InheritedIsGranted(CONF, root, USER, ["a"], {0});
    AnchorRoles(CONF, root, USER, ["a"]);
    NothingAsked(root, USER, {0});
  }

  /** An anchor with only a non-propagating role: the role inherited from the root reaches
      every path below `/a`, but it is not looked for there. */
  lemma NonPropagatingAnchorGap()
    ensures var root := Run(CONF, EMPTY,
                            [InsertUserRole("", USER, "Audit", true), InsertUserRole("a", USER, "Backup", false)]);
            GrantedBelow(CONF, root, USER, ["a"], {0}) && !AnyPrivsBelow(CONF, root, USER, ["a"], {0})
  {
    var e0, e1 := InsertUserRole("", USER, "Audit", true), InsertUserRole("a", USER, "Backup", false);
    AfterIsRun(e0, e1);
    Components();
    forall p: Path ensures UserAt(After(e0, e1), p, USER) == OpaqueEntries(p) {
      EntriesOf("", USER, "Audit", true, "a", USER, "Backup", false, p, USER);
    }
    OpaqueAnchor(After(e0, e1));
  }

  lemma OwnerDeeper(root: Node)
    requires Sound(CONF, root)
    requires forall p: Path :: UserAt(root, p, TOKEN) == if p == ["a"] then map["Audit" := true] else map[]
    requires forall p: Path :: UserAt(root, p, USER) == if p == ["a", "b"] then map["Audit" := true] else map[]
    ensures GrantedBelow(CONF, root, TOKEN, ["a"], {0}) && !AnyPrivsBelow(CONF, root, TOKEN, ["a"], {0})
  {
    hide Sound, AnyPrivsBelow, PrivsAt, Details;
    TokenBelow(root);
    assert ["a"] + ["b"] == ["a", "b"] && ProperPath(["b"]);
    assert 0 in PrivsAt(CONF, root, TOKEN, ["a"] + ["b"]) * {0};
    NothingPropagated(root);
    TokenLimited(CONF, root, TOKEN, ["a"]);
    NothingAsked(root, TOKEN, {0});
  }

  lemma NothingPropagated(root: Node)
    requires UserAt(root, ["a"], USER) == map[] && UserAt(root, [], USER) == map[]
    ensures Details(CONF, root, USER, ["a"]).1 == {}
  {
    assert ["a"][..1] == ["a"] && ["a"][..0] == [];
    AnchorRoles(CONF, root, USER, ["a"]);
    assert Inherited(CONF, root, USER, ["a"], 0) == map[];
  }

  lemma TokenBelow(root: Node)
    requires UserAt(root, ["a", "b"], TOKEN) == map[] && UserAt(root, ["a"], TOKEN) == map["Audit" := true]
    requires UserAt(root, ["a", "b"], USER) == map["Audit" := true]
    ensures 0 in PrivsAt(CONF, root, TOKEN, ["a", "b"])
  {
    var ab := ["a", "b"];
    OneRole("Audit", true);
    assert ab[..2] == ab && ab[..1] == ["a"];
    RolesAreNearest(CONF, root, TOKEN, ab);
    assert Nearest(CONF, root, TOKEN, ab, 1) == map["Audit" := true];
    AnchorRoles(CONF, root, USER, ab);
    assert 0 in PrivsAt(CONF, root, Owner(TOKEN), ab);
  }

  /** A token whose owner gains the role only deeper down: the token has it on `/a/b`, but
      with no entry of its own there the path is not asked about. */
  lemma TokenOwnerGap()
    ensures var root := Run(CONF, EMPTY,
                            [InsertUserRole("a", TOKEN, "Audit", true), InsertUserRole("a/b", USER, "Audit", true)]);
            GrantedBelow(CONF, root, TOKEN, ["a"], {0}) && !AnyPrivsBelow(CONF, root, TOKEN, ["a"], {0})
  {
    var e0, e1 := InsertUserRole("a", TOKEN, "Audit", true), InsertUserRole("a/b", USER, "Audit", true);
    AfterIsRun(e0, e1);
    Components();
    forall p: Path, id: Authid ensures UserAt(After(e0, e1), p, id) ==
      if (p, id) == (["a"], TOKEN) then map["Audit" := true]
      else if (p, id) == (["a", "b"], USER) then map["Audit" := true] else map[]
    {
      EntriesOf("a", TOKEN, "Audit", true, "a/b", USER, "Audit", true, p, id);
    }
    OwnerDeeper(After(e0, e1));
  }
}
