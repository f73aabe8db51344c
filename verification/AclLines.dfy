/** Which lines the ACL parser accepts, and what an accepted line does to the entries. */
module AclLines {
  import opened Wrappers
  import opened Text
  import opened AuthId
  import opened AclTree
  import opened AclEdits
  import opened AclStore
  import opened AclReload

  /** Five parts between colons: the word `acl`, a flag, a path, ids and groups, known roles. */
  ghost predicate GoodLine(conf: Conf, line: string, pg: bool, path: string, ids: string, roles: string)
  {
    ':' !in path && ':' !in ids && ':' !in roles &&
    line == Join(["acl", if pg then "1" else "0", path, ids, roles], ':') &&
    (forall w :: w in CommaParts(ids) ==> Writable(w)) && (forall r :: r in CommaParts(roles) ==> r in conf.roles)
  }

  ghost predicate Accepts(conf: Conf, line: string)
  {
    exists pg, path, ids, roles :: GoodLine(conf, line, pg, path, ids, roles)
  }

  // ---------------------------------------------------------------- acceptance

  lemma NoEmptyId()
    ensures ParseAuthid("").Err?
  {
    if ParseAuthid("").Ok? { PrintParseAuthid(""); }
  }

  lemma AssignOk(conf: Conf, t: Node, p: Path, who: string, role: string, pg: bool)
    ensures Assign(conf, t, p, who, role, pg).Ok? <==> Writable(who) && role in conf.roles
  {
    hide ParseAuthid, ChangeOrInsert;
    NoEmptyId();
  }

  lemma {:induction false} AssignRolesOk(conf: Conf, t: Node, p: Path, who: string, roles: seq<string>, pg: bool)
    ensures AssignRoles(conf, t, p, who, roles, pg).Ok? <==>
            (roles != [] ==> Writable(who)) && forall r :: r in roles ==> r in conf.roles
    decreases |roles|
  {
    hide Assign, Writable;
    if roles != [] {
      AssignOk(conf, t, p, who, roles[0], pg);
      assert roles == [roles[0]] + roles[1..];
      if Assign(conf, t, p, who, roles[0], pg).Ok? {
        AssignRolesOk(conf, Assign(conf, t, p, who, roles[0], pg).value, p, who, roles[1..], pg);
      }
    }
  }

  lemma {:induction false} AssignAllOk(conf: Conf, t: Node, p: Path, whos: seq<string>, roles: seq<string>, pg: bool)
    requires roles != []
    ensures AssignAll(conf, t, p, whos, roles, pg).Ok? <==>
            (forall w :: w in whos ==> Writable(w)) && (whos != [] ==> forall r :: r in roles ==> r in conf.roles)
    decreases |whos|
  {
    hide AssignRoles, Writable;
    if whos != [] {
      AssignRolesOk(conf, t, p, whos[0], roles, pg);
      assert whos == [whos[0]] + whos[1..];
      if AssignRoles(conf, t, p, whos[0], roles, pg).Ok? {
        AssignAllOk(conf, AssignRoles(conf, t, p, whos[0], roles, pg).value, p, whos[1..], roles, pg);
      }
    }
  }

  lemma SomeParts(s: string)
    ensures CommaParts(s) != []
  {
    assert Split(s, ',') != [];
  }

  /** What a good line does is one assignment of every role to every id. */
  lemma GoodLineAssigns(conf: Conf, t: Node, line: string, pg: bool, path: string, ids: string, roles: string)
    requires GoodLine(conf, line, pg, path, ids, roles)
    ensures ParseLine(conf, t, line) == AssignAll(conf, t, SplitAclPath(path), CommaParts(ids), CommaParts(roles), pg)
  {
    hide AssignAll, CommaParts, SplitAclPath, Writable;
    var items := ["acl", if pg then "1" else "0", path, ids, roles];
    FiveFree("acl", if pg then "1" else "0", path, ids, roles, ':');
    SplitJoin(items, ':');
  }

  /** The parser accepts exactly the good lines, on every tree. */
  lemma ParseLineIff(conf: Conf, t: Node, line: string)
    ensures ParseLine(conf, t, line).Ok? <==> Accepts(conf, line)
  {
    hide AssignAll, CommaParts, SplitAclPath, Writable;
    if Accepts(conf, line) {
      var pg, path, ids, roles :| GoodLine(conf, line, pg, path, ids, roles);
      GoodLineAssigns(conf, t, line, pg, path, ids, roles);
      SomeParts(roles);
      AssignAllOk(conf, t, SplitAclPath(path), CommaParts(ids), CommaParts(roles), pg);
    }
    if ParseLine(conf, t, line).Ok? {
      var items := Split(line, ':');
      JoinSplit(line, ':');
      var pg := items[1] == "1";
      assert items == ["acl", if pg then "1" else "0", items[2], items[3], items[4]];
      SomeParts(items[3]);
      SomeParts(items[4]);
      AssignAllOk(conf, t, SplitAclPath(items[2]), CommaParts(items[3]), CommaParts(items[4]), pg);
      assert GoodLine(conf, line, pg, items[2], items[3], items[4]);
    }
  }

  lemma {:induction false} ParseLinesIff(conf: Conf, t: Node, ls: seq<string>)
    ensures ParseLines(conf, t, ls).Ok? <==> forall l :: l in ls ==> Trim(l) == [] || Accepts(conf, Trim(l))
    decreases |ls|
  {
    hide ParseLine, Trim, Accepts;
    if ls != [] {
      assert ls == [ls[0]] + ls[1..];
      if Trim(ls[0]) == [] {
        ParseLinesIff(conf, t, ls[1..]);
      } else {
        ParseLineIff(conf, t, Trim(ls[0]));
        if ParseLine(conf, t, Trim(ls[0])).Ok? {
          ParseLinesIff(conf, ParseLine(conf, t, Trim(ls[0])).value, ls[1..]);
        }
      }
    }
  }

  /** A text loads if and only if every line of it is blank or a good line. */
  lemma LoadIff(conf: Conf, raw: string)
    ensures Load(conf, raw).Ok? <==> forall l :: l in Lines(raw) ==> Trim(l) == [] || Accepts(conf, Trim(l))
  {
    hide ParseLines, Trim, Accepts, Lines;
    ParseLinesIff(conf, EMPTY, Lines(raw));
  }

  // ---------------------------------------------------------------- meaning

  predicate NoAccessIn(conf: Conf, roles: seq<string>)
  {
    conf.noAccess.Some? && conf.noAccess.value in roles
  }

  /** `r` is listed with no 'no access' behind it; 'no access' itself has to be the last one. */
  ghost predicate Survives(conf: Conf, roles: seq<string>, r: string)
  {
    exists i :: 0 <= i < |roles| && roles[i] == r && !NoAccessIn(conf, roles[i + 1..]) &&
      (conf.noAccess == Some(r) ==> i == |roles| - 1)
  }

  /** The entry after a list of roles was added: the surviving ones with their flag, and of the
      entry before what is not 'no access', unless that is listed. */
  ghost predicate ListAdded(conf: Conf, before: RoleMap, after: RoleMap, roles: seq<string>, pg: bool)
  {
    forall r :: RoleListed(conf, before, after, roles, pg, r)
  }

  ghost predicate RoleListed(conf: Conf, before: RoleMap, after: RoleMap, roles: seq<string>, pg: bool, r: string)
  {
    (r in after <==>
     Survives(conf, roles, r) || (r in before && conf.noAccess != Some(r) && !NoAccessIn(conf, roles))) &&
    (r in after ==> if Survives(conf, roles, r) then after[r] == pg else r in before && after[r] == before[r])
  }

  function AddAll(conf: Conf, m: RoleMap, roles: seq<string>, pg: bool): RoleMap
    decreases |roles|
  {
    if roles == [] then m else AddAll(conf, AddRole(conf, m, roles[0], pg), roles[1..], pg)
  }

  lemma SurvivesCons(conf: Conf, roles: seq<string>, r: string)
    requires roles != []
    ensures Survives(conf, roles, r) <==>
            Survives(conf, roles[1..], r) ||
            (r == roles[0] && !NoAccessIn(conf, roles[1..]) && (conf.noAccess == Some(r) ==> |roles| == 1))
  {
    var rest := roles[1..];
    if Survives(conf, roles, r) {
      var i :| 0 <= i < |roles| && roles[i] == r && !NoAccessIn(conf, roles[i + 1..]) &&
               (conf.noAccess == Some(r) ==> i == |roles| - 1);
      if i > 0 { assert rest[i - 1] == r && rest[i - 1 + 1..] == roles[i + 1..]; }
    }
    if Survives(conf, rest, r) {
      var i :| 0 <= i < |rest| && rest[i] == r && !NoAccessIn(conf, rest[i + 1..]) &&
               (conf.noAccess == Some(r) ==> i == |rest| - 1);
      assert roles[i + 1] == r && roles[i + 1 + 1..] == rest[i + 1..];
    }
    if r == roles[0] && !NoAccessIn(conf, rest) && (conf.noAccess == Some(r) ==> |roles| == 1) {
      assert roles[0 + 1..] == rest;
    }
  }

  lemma {:induction false} AddAllAdds(conf: Conf, m: RoleMap, roles: seq<string>, pg: bool)
    requires roles != []
    ensures ListAdded(conf, m, AddAll(conf, m, roles, pg), roles, pg)
    decreases |roles|
  {
    hide RoleListed, AddRole;
    var next, rest, after := AddRole(conf, m, roles[0], pg), roles[1..], AddAll(conf, m, roles, pg);
    if rest != [] { AddAllAdds(conf, next, rest, pg); }
    forall r ensures RoleListed(conf, m, after, roles, pg, r) {
      if rest == [] {
        OneListed(conf, m, roles[0], pg, r);
        assert roles == [roles[0]] && after == next;
      } else {
        NextListed(conf, m, after, roles, pg, r);
      }
    }
  }

  lemma OneListed(conf: Conf, m: RoleMap, role: string, pg: bool, r: string)
    ensures RoleListed(conf, m, AddRole(conf, m, role, pg), [role], pg, r)
  {
    SurvivesCons(conf, [role], r);
    assert [role][1..] == [];
    NoneSurvives(conf, r);
    hide Survives;
  }

  lemma NextListed(conf: Conf, m: RoleMap, after: RoleMap, roles: seq<string>, pg: bool, r: string)
    requires |roles| > 1 && RoleListed(conf, AddRole(conf, m, roles[0], pg), after, roles[1..], pg, r)
    ensures RoleListed(conf, m, after, roles, pg, r)
  {
    hide Survives;
    SurvivesCons(conf, roles, r);
    assert roles == [roles[0]] + roles[1..];
  }

  lemma NoneSurvives(conf: Conf, r: string)
    ensures !Survives(conf, [], r)
  {
  }

  lemma AddedTwice(conf: Conf, a: RoleMap, b: RoleMap, c: RoleMap, roles: seq<string>, pg: bool)
    requires ListAdded(conf, a, b, roles, pg) && ListAdded(conf, b, c, roles, pg)
    ensures ListAdded(conf, a, c, roles, pg)
  {
    hide Survives, NoAccessIn;
    forall r ensures RoleListed(conf, a, c, roles, pg, r) {
      assert RoleListed(conf, a, b, roles, pg, r) && RoleListed(conf, b, c, roles, pg, r);
    }
  }

  lemma {:induction false} AssignRolesEntries(conf: Conf, t: Node, p: Path, who: string, roles: seq<string>, pg: bool,
                                              q: Path, w: string)
    requires Writable(who) && Writable(w) && forall r :: r in roles ==> r in conf.roles
    ensures AssignRoles(conf, t, p, who, roles, pg).Ok?
    ensures WhoAt(AssignRoles(conf, t, p, who, roles, pg).value, q, w) ==
            if q == p && w == who then AddAll(conf, WhoAt(t, p, who), roles, pg) else WhoAt(t, q, w)
    decreases |roles|
  {
    hide Assign, WhoAt, Writable, AddRole;
    if roles != [] {
      assert roles[0] in roles;
      AssignEntries(conf, t, p, who, roles[0], pg, q, w);
      AssignEntries(conf, t, p, who, roles[0], pg, p, who);
      AssignRolesEntries(conf, Assign(conf, t, p, who, roles[0], pg).value, p, who, roles[1..], pg, q, w);
    }
  }

  lemma {:induction false} AssignAllEntries(conf: Conf, t: Node, p: Path, whos: seq<string>, roles: seq<string>,
                                            pg: bool, q: Path, w: string)
    requires Writable(w) && roles != []
    requires (forall x :: x in whos ==> Writable(x)) && forall r :: r in roles ==> r in conf.roles
    ensures AssignAll(conf, t, p, whos, roles, pg).Ok?
    ensures var u := AssignAll(conf, t, p, whos, roles, pg).value;
            if q == p && w in whos then ListAdded(conf, WhoAt(t, q, w), WhoAt(u, q, w), roles, pg)
            else WhoAt(u, q, w) == WhoAt(t, q, w)
    decreases |whos|
  {
    hide AssignRoles, WhoAt, Writable, AddAll, ListAdded;
    if whos != [] {
      assert whos[0] in whos && whos == [whos[0]] + whos[1..];
      AssignRolesEntries(conf, t, p, whos[0], roles, pg, q, w);
      var next := AssignRoles(conf, t, p, whos[0], roles, pg).value;
      AssignAllEntries(conf, next, p, whos[1..], roles, pg, q, w);
      AddAllAdds(conf, WhoAt(t, p, whos[0]), roles, pg);
      if q == p && w == whos[0] && w in whos[1..] {
        var u := AssignAll(conf, next, p, whos[1..], roles, pg).value;
        AddedTwice(conf, WhoAt(t, q, w), WhoAt(next, q, w), WhoAt(u, q, w), roles, pg);
      }
    }
  }

  /** A good line adds its roles to the entries of its ids and groups on its path, and changes no
      other entry. */
  lemma LineMeaning(conf: Conf, t: Node, line: string, pg: bool, path: string, ids: string, roles: string,
                    q: Path, w: string)
    requires GoodLine(conf, line, pg, path, ids, roles) && Writable(w)
    ensures ParseLine(conf, t, line).Ok?
    ensures var u := ParseLine(conf, t, line).value;
            if q == SplitAclPath(path) && w in CommaParts(ids)
            then ListAdded(conf, WhoAt(t, q, w), WhoAt(u, q, w), CommaParts(roles), pg)
            else WhoAt(u, q, w) == WhoAt(t, q, w)
  {
    hide ParseLine, AssignAll, CommaParts, SplitAclPath, Writable, WhoAt, ListAdded;
    GoodLineAssigns(conf, t, line, pg, path, ids, roles);
    SomeParts(roles);
    AssignAllEntries(conf, t, SplitAclPath(path), CommaParts(ids), CommaParts(roles), pg, q, w);
  }
}
