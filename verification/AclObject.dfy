/** The ACL tree as the object the services use: methods that replace the tree, and the loops
    of the lookups, each tied to the function that specifies it. The iteration order of a
    hash map is arbitrary; the loops below pick the next key freely. */
module AclObject {
  import opened Wrappers
  import opened Text
  import opened AuthId
  import opened AclTree
  import opened AclEdits
  import opened AclPrivs
  import opened AclBelow
  import opened AclDescent
  import opened AclEffects
  import opened AclRules
  import opened AclStore

  lemma {:induction false} NonEmptyAppend(a: seq<string>, x: string)
    ensures NonEmpty(a + [x]) == NonEmpty(a) + (if x == [] then [] else [x])
    decreases |a|
  {
    if a == [] {
      assert a + [x] == [x] && [x][1..] == [];
    } else {
      assert (a + [x])[1..] == a[1..] + [x];
      NonEmptyAppend(a[1..], x);
    }
  }

  method SplitPath(path: string) returns (components: Path)
    ensures components == SplitAclPath(path)
  {
    var items := Split(path, '/');
    components := [];
    for i := 0 to |items|
      invariant components == NonEmpty(items[..i])
    {
      NonEmptyAppend(items[..i], items[i]);
      assert items[..i + 1] == items[..i] + [items[i]];
      if items[i] != [] {
        components := components + [items[i]];
      }
    }
    assert items[..|items|] == items;
  }

  /** The applicable roles of one entry, collected role by role in any order. */
  method ExtractUserRoles(conf: Conf, node: Node, id: Authid, leaf: bool) returns (r: RoleMap)
    ensures r == Applicable(conf, Lookup(node.users, id), leaf)
  {
    r := map[];
    if id !in node.users { return; }
    var roles := node.users[id];
    var todo := roles.Keys;
    while todo != {}
      invariant todo <= roles.Keys
      invariant r == map x | x in roles && x !in todo && (roles[x] || leaf) :: roles[x]
      invariant forall x :: x in roles && x !in todo && conf.noAccess == Some(x) ==> !(roles[x] || leaf)
      decreases |todo|
    {
      var role :| role in todo;
      if roles[role] || leaf {
        if conf.noAccess == Some(role) {
          return map[role := false];
        }
        r := r[role := roles[role]];
      }
      todo := todo - {role};
    }
  }

  method Extract(conf: Conf, node: Node, id: Authid, leaf: bool) returns (r: RoleMap)
    ensures r == ExtractRoles(conf, node, id, leaf)
  {
    r := ExtractUserRoles(conf, node, id, leaf);
    if r != map[] || id.IsToken() { return; }
    r := ExtractGroupRoles(node, id.user, leaf);
  }

  /** The rest of a path behind sub-component `j` of chunk `i`. */
  ghost function Rest(chunks: seq<string>, i: nat, subs: seq<string>, j: nat): Path
    requires i < |chunks| && j <= |subs|
  {
    subs[j..] + Flatten(chunks[i + 1..])
  }

  lemma FlattenStep(chunks: seq<string>, i: nat)
    requires i < |chunks|
    ensures Flatten(chunks[i..]) == Rest(chunks, i, Split(chunks[i], '/'), 0)
  {
    assert chunks[i..][1..] == chunks[i + 1..];
    assert Split(chunks[i], '/')[0..] == Split(chunks[i], '/');
  }

  method GetNode(root: Node, path: seq<string>) returns (r: Option<Node>)
    ensures r == Find(root, Flatten(path))
  {
    var node := root;
    for i := 0 to |path|
      invariant Find(node, Flatten(path[i..])) == Find(root, Flatten(path))
    {
      var subs := Split(path[i], '/');
      FlattenStep(path, i);
      for j := 0 to |subs|
        invariant Find(node, Rest(path, i, subs, j)) == Find(root, Flatten(path))
      {
        var rest := Rest(path, i, subs, j);
        assert rest[0] == subs[j] && rest[1..] == Rest(path, i, subs, j + 1);
        if subs[j] !in node.children { return None; }
        node := node.children[subs[j]];
      }
      assert Rest(path, i, subs, |subs|) == Flatten(path[i + 1..]);
    }
    return Some(node);
  }

  lemma {:induction false} FlattenEmpty(chunks: seq<string>)
    ensures Flatten(chunks) == [] <==> chunks == []
  {
  }

  /** `AclTree::roles`: the two nested loops over chunks and their components. The result
      depends on the flattened path only. */
  method FindRoles(conf: Conf, root: Node, id: Authid, path: seq<string>) returns (roleMap: RoleMap)
    ensures roleMap == Roles(conf, root, id, Flatten(path))
  {
    hide ExtractRoles, Split;
    var node := root;
    roleMap := Extract(conf, root, id, path == []);
    FlattenEmpty(path);
    ghost var goal := Roles(conf, root, id, Flatten(path));
    for i := 0 to |path|
      invariant Walk(conf, node, id, Flatten(path[i..]), roleMap) == goal
    {
      var lastComp := i == |path| - 1;
      var subs := Split(path[i], '/');
      FlattenStep(path, i);
      FlattenEmpty(path[i + 1..]);
      for j := 0 to |subs|
        invariant Walk(conf, node, id, Rest(path, i, subs, j), roleMap) == goal
      {
        var lastSubComp := lastComp && j == |subs| - 1;
        ghost var rest := Rest(path, i, subs, j);
        assert rest[0] == subs[j] && rest[1..] == Rest(path, i, subs, j + 1);
        assert lastSubComp <==> |rest| == 1;
        if subs[j] !in node.children { return; }
        node := node.children[subs[j]];
        var newMap := Extract(conf, node, id, lastSubComp);
        if newMap != map[] {
          roleMap := newMap;
        }
      }
      assert Rest(path, i, subs, |subs|) == Flatten(path[i + 1..]);
    }
  }

  /** The loop of `lookup_privs_details` over the roles found. */
  method SumPrivs(conf: Conf, roles: RoleMap) returns (privs: Privs, propagated: Privs)
    ensures privs == PrivsOf(conf, roles) && propagated == PropagatedOf(conf, roles)
  {
    privs, propagated := {}, {};
    var todo := roles.Keys;
    while todo != {}
      invariant todo <= roles.Keys
      invariant privs == set r, b | r in roles && r !in todo && r in conf.roles && b in conf.roles[r] :: b
      invariant propagated ==
                set r, b | r in roles && r !in todo && roles[r] && r in conf.roles && b in conf.roles[r] :: b
      decreases |todo|
    {
      var role :| role in todo;
      if role in conf.roles {
        if roles[role] {
          propagated := propagated + conf.roles[role];
        }
        privs := privs + conf.roles[role];
      }
      todo := todo - {role};
    }
  }

  /** The privileges on a path; for a user that is no superuser they are those of the entry that
      decides there. */
  method LookupPrivsDetails(conf: Conf, root: Node, id: Authid, path: seq<string>)
    returns (privs: Privs, propagated: Privs)
    ensures (privs, propagated) == Details(conf, root, id, Flatten(path))
    ensures !IsAdmin(conf, id) && !id.IsToken() ==>
              TellsPrivileges(conf, root, id, Flatten(path), privs, propagated)
    decreases id.IsToken()
  {
    hide TellsPrivileges, PrivsOf, PropagatedOf, Roles, Flatten;
    if !IsAdmin(conf, id) && !id.IsToken() { PlainPrivileges(conf, root, id, Flatten(path)); }
    if conf.superuser(id) {
      if conf.admin.Some? && conf.admin.value in conf.roles {
        return conf.roles[conf.admin.value], conf.roles[conf.admin.value];
      }
    }
    var roles := FindRoles(conf, root, id, path);
    privs, propagated := SumPrivs(conf, roles);
    if id.IsToken() {
      var ownerPrivs, ownerPropagated := LookupPrivsDetails(conf, root, Owner(id), path);
      privs := privs * ownerPrivs;
      propagated := propagated * ownerPropagated;
    }
  }

  // ---------------------------------------------------------------- below an anchor

  /** The child paths below `node`, as texts that continue `path`. */
  ghost predicate IsChildPath(conf: Conf, node: Node, id: Authid, path: string, s: string)
  {
    exists q: Path :: HasRolesAt(conf, node, id, q) && s == path + PathText(q)
  }

  lemma ChildPathCons(conf: Conf, node: Node, id: Authid, path: string, c: string, q: Path)
    requires c in node.children
    ensures path + PathText([c] + q) == path + "/" + c + PathText(q)
    ensures HasRolesAt(conf, node, id, [c] + q) <==>
            (if q == [] then ExtractRoles(conf, node.children[c], id, true) != map[]
             else HasRolesAt(conf, node.children[c], id, q))
  {
    FindCons(node, c, q);
    assert ([c] + q)[1..] == q;
    AppendAssoc(path, "/" + c, PathText(q));
    AppendAssoc(path, "/", c);
  }

  method GetChildPaths(conf: Conf, node: Node, id: Authid, path: string) returns (paths: seq<string>)
    ensures forall s :: s in paths <==> IsChildPath(conf, node, id, path, s)
    decreases node
  {
    hide Find, ExtractRoles, PathText;
    paths := [];
    var todo := node.children.Keys;
    HasRolesInChildren(conf, node, id);
    while todo != {}
      invariant todo <= node.children.Keys
      invariant forall s :: s in paths <==>
        exists q: Path :: HasRolesAt(conf, node, id, q) && q[0] !in todo && s == path + PathText(q)
      decreases |todo|
    {
      var c :| c in todo;
      var child := node.children[c];
      var childPath := path + "/" + c;
      var roles := Extract(conf, child, id, true);
      var below := GetChildPaths(conf, child, id, childPath);
      ghost var before := paths;
      if roles != map[] {
        paths := paths + [childPath];
      }
      paths := paths + below;
      ChildPathsStep(conf, node, id, path, c, todo, before, below, paths);
      todo := todo - {c};
    }
  }

  lemma HasRolesInChildren(conf: Conf, node: Node, id: Authid)
    ensures forall q: Path :: HasRolesAt(conf, node, id, q) ==> q[0] in node.children
  {
  }

  lemma ChildPathsStep(conf: Conf, node: Node, id: Authid, path: string, c: string, todo: set<string>,
                       before: seq<string>, below: seq<string>, after: seq<string>)
    requires c in todo && c in node.children
    requires forall s :: s in before <==>
      exists q: Path :: HasRolesAt(conf, node, id, q) && q[0] !in todo && s == path + PathText(q)
    requires forall s :: s in below <==> IsChildPath(conf, node.children[c], id, path + "/" + c, s)
    requires after == before +
      (if ExtractRoles(conf, node.children[c], id, true) != map[] then [path + "/" + c] else []) + below
    ensures forall s :: s in after <==>
      exists q: Path :: HasRolesAt(conf, node, id, q) && q[0] !in todo - {c} && s == path + PathText(q)
  {
    var child, here := node.children[c], path + "/" + c;
    forall s ensures s in after <==>
      exists q: Path :: HasRolesAt(conf, node, id, q) && q[0] !in todo - {c} && s == path + PathText(q)
    {
      if s in after {
        if s in before {
        } else if s in below {
          var q: Path :| HasRolesAt(conf, child, id, q) && s == here + PathText(q);
          ChildPathCons(conf, node, id, path, c, q);
          assert ([c] + q)[0] == c;
        } else {
          ChildPathCons(conf, node, id, path, c, []);
          assert [c] + [] == [c] && here + PathText([]) == here;
          assert HasRolesAt(conf, node, id, [c]) && [c][0] == c;
        }
      }
      if q: Path :| HasRolesAt(conf, node, id, q) && q[0] !in todo - {c} && s == path + PathText(q) {
        if q[0] == c {
          assert q == [c] + q[1..];
          ChildPathCons(conf, node, id, path, c, q[1..]);
          if q[1..] == [] { assert here + PathText([]) == here; }
        }
      }
    }
  }

  method ComputeAnyPrivsBelow(conf: Conf, root: Node, id: Authid, path: seq<string>, privs: Privs) returns (r: bool)
    ensures r <==> AnyPrivsBelow(conf, root, id, path, privs)
  {
    hide Details, Find, HasRolesAt, Flatten, PathText, Join;
    var _, propagated := LookupPrivsDetails(conf, root, id, path);
    if propagated * privs != {} { return true; }
    var node := GetNode(root, path);
    if node.None? { return false; }
    var text := Join(path, '/');
    var paths := GetChildPaths(conf, node.value, id, text);
    for i := 0 to |paths|
      invariant forall k :: 0 <= k < i ==> PrivsAt(conf, root, id, Flatten([paths[k]])) * privs == {}
    {
      var p, _ := LookupPrivsDetails(conf, root, id, [paths[i]]);
      if p * privs != {} {
        assert paths[i] in paths;
        return true;
      }
    }
    forall q: Path | HasRolesAt(conf, node.value, id, q)
      ensures PrivsAt(conf, root, id, Flatten([text + PathText(q)])) * privs == {}
    {
      assert IsChildPath(conf, node.value, id, text, text + PathText(q));
      var k :| 0 <= k < |paths| && paths[k] == text + PathText(q);
    }
    return false;
  }

  // ---------------------------------------------------------------- the object

  class AclTreeObject {
    const conf: Conf
    var root: Node

    ghost predicate Valid()
      reads this
    {
      Sound(conf, root)
    }

    constructor (conf: Conf)
      ensures this.conf == conf && root == EMPTY && Valid()
    {
      this.conf := conf;
      root := EMPTY;
      new;
      EmptySound(conf);
    }

    method InsertUserRole(path: string, id: Authid, role: string, propagate: bool)
      requires Valid()
      modifies this
      ensures root == Apply(conf, old(root), Edit.InsertUserRole(path, id, role, propagate)) && Valid()
      ensures RoleAdded(conf, UserAt(old(root), SplitAclPath(path), id),
                        UserAt(root, SplitAclPath(path), id), role, propagate)
      ensures OtherUsersKept(old(root), root, SplitAclPath(path), id) && GroupsKept(old(root), root)
      ensures NodesMade(old(root), root, SplitAclPath(path))
    {
      hide Sound, ChangeOrInsert;
      EditKeepsSound(conf, root, Edit.InsertUserRole(path, id, role, propagate));
      InsertUserEffect(conf, root, path, id, role, propagate);
      var components := SplitPath(path);
      root := ChangeInserting(conf, root, components, AddUser(id, role, propagate));
    }

    method InsertGroupRole(path: string, group: string, role: string, propagate: bool)
      requires Valid()
      modifies this
      ensures root == Apply(conf, old(root), Edit.InsertGroupRole(path, group, role, propagate)) && Valid()
      ensures RoleAdded(conf, GroupAt(old(root), SplitAclPath(path), group),
                        GroupAt(root, SplitAclPath(path), group), role, propagate)
      ensures OtherGroupsKept(old(root), root, SplitAclPath(path), group) && UsersKept(old(root), root)
      ensures NodesMade(old(root), root, SplitAclPath(path))
    {
      hide Sound, ChangeOrInsert;
      EditKeepsSound(conf, root, Edit.InsertGroupRole(path, group, role, propagate));
      InsertGroupEffect(conf, root, path, group, role, propagate);
      var components := SplitPath(path);
      root := ChangeInserting(conf, root, components, AddGroup(group, role, propagate));
    }

    method DeleteUserRole(path: string, id: Authid, role: string)
      requires Valid()
      modifies this
      ensures root == Apply(conf, old(root), Edit.DeleteUserRole(path, id, role)) && Valid()
      ensures RoleDropped(UserAt(old(root), SplitAclPath(path), id), UserAt(root, SplitAclPath(path), id), role)
      ensures OtherUsersKept(old(root), root, SplitAclPath(path), id) && GroupsKept(old(root), root)
      ensures NodesKept(old(root), root)
    {
      hide Sound, ChangeExisting;
      EditKeepsSound(conf, root, Edit.DeleteUserRole(path, id, role));
      DeleteUserEffect(conf, root, path, id, role);
      var components := SplitPath(path);
      root := ChangeIfThere(conf, root, components, DropUser(id, role));
    }

    method DeleteGroupRole(path: string, group: string, role: string)
      requires Valid()
      modifies this
      ensures root == Apply(conf, old(root), Edit.DeleteGroupRole(path, group, role)) && Valid()
      ensures RoleDropped(GroupAt(old(root), SplitAclPath(path), group), GroupAt(root, SplitAclPath(path), group), role)
      ensures OtherGroupsKept(old(root), root, SplitAclPath(path), group) && UsersKept(old(root), root)
      ensures NodesKept(old(root), root)
    {
      hide Sound, ChangeExisting;
      EditKeepsSound(conf, root, Edit.DeleteGroupRole(path, group, role));
      DeleteGroupEffect(conf, root, path, group, role);
      var components := SplitPath(path);
      root := ChangeIfThere(conf, root, components, DropGroup(group, role));
    }

    method DeleteNode(path: string)
      requires Valid()
      modifies this
      ensures root == Apply(conf, old(root), Edit.DeleteNode(path)) && Valid()
      ensures SubtreeRemoved(old(root), root, SplitAclPath(path))
      ensures EntriesKeptOutside(old(root), root, SplitAclPath(path))
    {
      hide Sound, RemoveNode, SubtreeRemoved, EntriesKeptOutside;
      EditKeepsSound(conf, root, Edit.DeleteNode(path));
      DeleteNodeEffect(conf, root, path);
      var components := SplitPath(path);
      root := RemoveFromParent(root, components);
    }

    method DeleteAuthid(id: Authid)
      requires Valid()
      modifies this
      ensures root == Apply(conf, old(root), Edit.DeleteAuthid(id)) && Valid()
      ensures OnlyUserGone(old(root), root, id) && GroupsKept(old(root), root) && NodesKept(old(root), root)
    {
      hide Sound, RemoveAuthid, OnlyUserGone, GroupsKept, NodesKept;
      EditKeepsSound(conf, root, Edit.DeleteAuthid(id));
      DeleteAuthidEffect(conf, root, id);
      root := RemoveEverywhere(root, id);
    }

    /** One line of the configuration. A failing line leaves the assignments made before the
        failure in the tree; the loader then discards it. */
    method ParseAclLine(line: string) returns (r: Result<(), Error>)
      requires Valid()
      modifies this
      ensures r.Ok? <==> ParseLine(conf, old(root), line).Ok?
      ensures r.Ok? ==> root == ParseLine(conf, old(root), line).value
      ensures r.Err? ==> r.error == ParseLine(conf, old(root), line).error
      ensures Valid()
    {
      hide Sound, ChangeOrInsert, Assign, CommaParts, SplitAclPath, Split;
      var items := Split(line, ':');
      if |items| != 5 { return Err(WrongNumberOfItems); }
      if items[0] != "acl" { return Err(NotAnAclLine); }
      var propagate;
      if items[1] == "0" { propagate := false; }
      else if items[1] == "1" { propagate := true; }
      else { return Err(BadPropagateFlag); }
      var path := SplitPath(items[2]);
      SplitAclPathProper(items[2]);
      var whos, roles := CommaParts(items[3]), CommaParts(items[4]);
      ghost var goal := AssignAll(conf, root, path, whos, roles, propagate);
      for i := 0 to |whos|
        invariant Valid() && AssignAll(conf, root, path, whos[i..], roles, propagate) == goal
      {
        assert whos[i..][1..] == whos[i + 1..];
        ghost var inner := AssignRoles(conf, root, path, whos[i], roles, propagate);
        for j := 0 to |roles|
          invariant Valid() && AssignRoles(conf, root, path, whos[i], roles[j..], propagate) == inner
        {
          assert roles[j..][1..] == roles[j + 1..];
          var next := Assign(conf, root, path, whos[i], roles[j], propagate);
          if next.Err? { return Err(next.error); }
          AssignSound(conf, root, path, whos[i], roles[j], propagate);
          root := next.value;
        }
      }
      return Ok(());
    }
  }

  lemma AssignSound(conf: Conf, root: Node, p: Path, who: string, role: string, pg: bool)
    requires Sound(conf, root) && ProperPath(p) && Assign(conf, root, p, who, role, pg).Ok?
    ensures Sound(conf, Assign(conf, root, p, who, role, pg).value)
  {
    hide Sound, ChangeOrInsert;
    if who != [] && who[0] == '@' {
      ChangeKeepsSound(conf, root, p, AddGroup(who[1..], role, pg));
    } else {
      ChangeKeepsSound(conf, root, p, AddUser(ParseAuthid(who).value, role, pg));
    }
  }

  /** `load`: a fresh tree filled line by line; empty lines are skipped. */
  method LoadTree(conf: Conf, raw: string) returns (r: Result<Node, Error>)
    ensures r == Load(conf, raw)
    ensures r.Ok? ==> Sound(conf, r.value)
  {
    hide Sound, ParseLine, Trim, Lines;
    var tree := new AclTreeObject(conf);
    var lines := Lines(raw);
    for i := 0 to |lines|
      invariant fresh(tree) && tree.conf == conf && tree.Valid()
      invariant ParseLines(conf, tree.root, lines[i..]) == Load(conf, raw)
    {
      assert lines[i..][1..] == lines[i + 1..];
      var line := Trim(lines[i]);
      if line != [] {
        var res := tree.ParseAclLine(line);
        if res.Err? { return Err(res.error); }
      }
    }
    return Ok(tree.root);
  }
}
