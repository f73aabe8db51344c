/** What each edit does to the entries and nodes of the tree: the named entry changes as told,
    and everything else stays. */
module AclEffects {
  import opened Wrappers
  import opened AuthId
  import opened AclTree
  import opened AclEdits

  ghost predicate NodesKept(a: Node, b: Node)
  {
    forall p: Path :: Find(b, p).Some? <==> Find(a, p).Some?
  }

  /** The nodes on the way to `at` are there now, and no other node came or went. */
  ghost predicate NodesMade(a: Node, b: Node, at: Path)
  {
    forall p: Path :: Find(b, p).Some? <==> Find(a, p).Some? || p <= at
  }

  ghost predicate UsersKept(a: Node, b: Node)
  {
    forall p: Path, id: Authid :: UserAt(b, p, id) == UserAt(a, p, id)
  }

  ghost predicate GroupsKept(a: Node, b: Node)
  {
    forall p: Path, g: string :: GroupAt(b, p, g) == GroupAt(a, p, g)
  }

  ghost predicate OtherUsersKept(a: Node, b: Node, at: Path, id: Authid)
  {
    forall p: Path, i: Authid :: p != at || i != id ==> UserAt(b, p, i) == UserAt(a, p, i)
  }

  ghost predicate OtherGroupsKept(a: Node, b: Node, at: Path, g: string)
  {
    forall p: Path, h: string :: p != at || h != g ==> GroupAt(b, p, h) == GroupAt(a, p, h)
  }

  /** Role by role: the role is in the entry with its flag. 'No access' drove out all others, any
      other role drove out 'no access', and the rest of the entry is as it was. */
  ghost predicate RoleAdded(conf: Conf, before: RoleMap, after: RoleMap, role: string, pg: bool)
  {
    role in after && after[role] == pg &&
    forall r :: r != role ==>
      (r in after <==> r in before && conf.noAccess != Some(role) && conf.noAccess != Some(r)) &&
      (r in after ==> after[r] == before[r])
  }

  /** Role by role: the role is gone, and the rest of the entry is as it was. */
  ghost predicate RoleDropped(before: RoleMap, after: RoleMap, role: string)
  {
    role !in after &&
    forall r :: r != role ==> (r in after <==> r in before) && (r in after ==> after[r] == before[r])
  }

  lemma InsertEverywhere(conf: Conf, root: Node, at: Path, ch: Change)
    ensures var after := ChangeOrInsert(conf, root, at, ch);
            (forall p: Path, id: Authid :: UserAt(after, p, id) == UserAfter(conf, root, at, ch, p, id)) &&
            (forall p: Path, g: string :: GroupAt(after, p, g) == GroupAfter(conf, root, at, ch, p, g)) &&
            NodesMade(root, after, at)
  {
    hide UserAt, GroupAt, Find, ChangeOrInsert, UserAfter, GroupAfter;
    var after := ChangeOrInsert(conf, root, at, ch);
    forall p: Path, id: Authid ensures UserAt(after, p, id) == UserAfter(conf, root, at, ch, p, id) {
      InsertEntries(conf, root, at, ch, p, id, "");
    }
    forall p: Path, g: string ensures GroupAt(after, p, g) == GroupAfter(conf, root, at, ch, p, g) {
      InsertEntries(conf, root, at, ch, p, ROOT, g);
    }
    forall p: Path ensures Find(after, p).Some? <==> Find(root, p).Some? || p <= at {
      InsertEntries(conf, root, at, ch, p, ROOT, "");
    }
  }

  lemma DropEverywhere(conf: Conf, root: Node, at: Path, ch: Change)
    requires ch.DropUser? || ch.DropGroup?
    ensures var after := ChangeExisting(conf, root, at, ch);
            (forall p: Path, id: Authid :: UserAt(after, p, id) == UserAfter(conf, root, at, ch, p, id)) &&
            (forall p: Path, g: string :: GroupAt(after, p, g) == GroupAfter(conf, root, at, ch, p, g)) &&
            NodesKept(root, after)
  {
    hide UserAt, GroupAt, Find, ChangeExisting, UserAfter, GroupAfter;
    var after := ChangeExisting(conf, root, at, ch);
    forall p: Path, id: Authid ensures UserAt(after, p, id) == UserAfter(conf, root, at, ch, p, id) {
      ExistingEntries(conf, root, at, ch, p, id, "");
    }
    forall p: Path, g: string ensures GroupAt(after, p, g) == GroupAfter(conf, root, at, ch, p, g) {
      ExistingEntries(conf, root, at, ch, p, ROOT, g);
    }
    forall p: Path ensures Find(after, p).Some? <==> Find(root, p).Some? {
      ExistingEntries(conf, root, at, ch, p, ROOT, "");
    }
  }

  lemma InsertUserEffect(conf: Conf, root: Node, path: string, id: Authid, role: string, pg: bool)
    ensures var at, after := SplitAclPath(path), Apply(conf, root, InsertUserRole(path, id, role, pg));
            RoleAdded(conf, UserAt(root, at, id), UserAt(after, at, id), role, pg) &&
            OtherUsersKept(root, after, at, id) && GroupsKept(root, after) && NodesMade(root, after, at)
  {
    hide UserAt, GroupAt, Find, ChangeOrInsert, SplitAclPath;
    var at, ch := SplitAclPath(path), AddUser(id, role, pg);
    InsertEverywhere(conf, root, at, ch);
  }

  lemma InsertGroupEffect(conf: Conf, root: Node, path: string, group: string, role: string, pg: bool)
    ensures var at, after := SplitAclPath(path), Apply(conf, root, InsertGroupRole(path, group, role, pg));
            RoleAdded(conf, GroupAt(root, at, group), GroupAt(after, at, group), role, pg) &&
            UsersKept(root, after) && OtherGroupsKept(root, after, at, group) && NodesMade(root, after, at)
  {
    hide UserAt, GroupAt, Find, ChangeOrInsert, SplitAclPath;
    var at, ch := SplitAclPath(path), AddGroup(group, role, pg);
    InsertEverywhere(conf, root, at, ch);
  }

  lemma DeleteUserEffect(conf: Conf, root: Node, path: string, id: Authid, role: string)
    ensures var at, after := SplitAclPath(path), Apply(conf, root, DeleteUserRole(path, id, role));
            RoleDropped(UserAt(root, at, id), UserAt(after, at, id), role) &&
            OtherUsersKept(root, after, at, id) && GroupsKept(root, after) && NodesKept(root, after)
  {
    hide UserAt, GroupAt, Find, ChangeExisting, SplitAclPath;
    var at, ch := SplitAclPath(path), DropUser(id, role);
    DropEverywhere(conf, root, at, ch);
  }

  lemma DeleteGroupEffect(conf: Conf, root: Node, path: string, group: string, role: string)
    ensures var at, after := SplitAclPath(path), Apply(conf, root, DeleteGroupRole(path, group, role));
            RoleDropped(GroupAt(root, at, group), GroupAt(after, at, group), role) &&
            UsersKept(root, after) && OtherGroupsKept(root, after, at, group) && NodesKept(root, after)
  {
    hide UserAt, GroupAt, Find, ChangeExisting, SplitAclPath;
    var at, ch := SplitAclPath(path), DropGroup(group, role);
    DropEverywhere(conf, root, at, ch);
  }

  /** Whether a path is at or below another one that is not the root. */
  predicate Below(at: Path, p: Path)
  {
    at != [] && at <= p
  }

  ghost predicate SubtreeRemoved(a: Node, b: Node, at: Path)
  {
    forall p: Path :: Find(b, p).Some? <==> Find(a, p).Some? && !Below(at, p)
  }

  ghost predicate EntriesKeptOutside(a: Node, b: Node, at: Path)
  {
    (forall p: Path, id: Authid :: !Below(at, p) ==> UserAt(b, p, id) == UserAt(a, p, id)) &&
    (forall p: Path, g: string :: !Below(at, p) ==> GroupAt(b, p, g) == GroupAt(a, p, g))
  }

  lemma DeleteNodeEffect(conf: Conf, root: Node, path: string)
    ensures var at, after := SplitAclPath(path), Apply(conf, root, DeleteNode(path));
            SubtreeRemoved(root, after, at) && EntriesKeptOutside(root, after, at)
  {
    hide UserAt, GroupAt, Find, RemoveNode, SplitAclPath;
    var at, after := SplitAclPath(path), Apply(conf, root, DeleteNode(path));
    forall p: Path ensures Find(after, p).Some? <==> Find(root, p).Some? && !Below(at, p) {
      RemovedEntries(root, at, p, ROOT, "");
    }
    forall p: Path, id: Authid | !Below(at, p) ensures UserAt(after, p, id) == UserAt(root, p, id) {
      RemovedEntries(root, at, p, id, "");
    }
    forall p: Path, g: string | !Below(at, p) ensures GroupAt(after, p, g) == GroupAt(root, p, g) {
      RemovedEntries(root, at, p, ROOT, g);
    }
  }

  ghost predicate OnlyUserGone(a: Node, b: Node, id: Authid)
  {
    forall p: Path, i: Authid :: UserAt(b, p, i) == if i == id then map[] else UserAt(a, p, i)
  }

  lemma DeleteAuthidEffect(conf: Conf, root: Node, id: Authid)
    ensures var after := Apply(conf, root, DeleteAuthid(id));
            OnlyUserGone(root, after, id) && GroupsKept(root, after) && NodesKept(root, after)
  {
    hide UserAt, GroupAt, Find, RemoveAuthid;
    var after := Apply(conf, root, DeleteAuthid(id));
    forall p: Path, i: Authid ensures UserAt(after, p, i) == if i == id then map[] else UserAt(root, p, i) {
      RemovedAuthidEntries(root, id, p, i, "");
    }
    forall p: Path, g: string ensures GroupAt(after, p, g) == GroupAt(root, p, g) {
      RemovedAuthidEntries(root, id, p, ROOT, g);
    }
    forall p: Path ensures Find(after, p).Some? <==> Find(root, p).Some? {
      RemovedAuthidEntries(root, id, p, ROOT, "");
    }
  }

  /** Deleting a role that was just inserted leaves every entry as it was before, if and only if the
      entry had neither the role nor 'no access', and 'no access' was not inserted over other roles. */
  lemma DeleteUndoesInsertIff(conf: Conf, root: Node, path: string, id: Authid, role: string, pg: bool)
    ensures var edits := [InsertUserRole(path, id, role, pg), DeleteUserRole(path, id, role)];
            var before := UserAt(root, SplitAclPath(path), id);
            UsersKept(root, Run(conf, root, edits)) <==>
            role !in before && (conf.noAccess.Some? ==> conf.noAccess.value !in before) &&
            (conf.noAccess == Some(role) ==> before == map[])
    ensures GroupsKept(root, Run(conf, root, [InsertUserRole(path, id, role, pg), DeleteUserRole(path, id, role)]))
  {
    hide UserAt, GroupAt, Find, SplitAclPath, Apply;
    var e0, e1 := InsertUserRole(path, id, role, pg), DeleteUserRole(path, id, role);
    assert [e0, e1][1..] == [e1] && [e1][1..] == [];
    var at, mid := SplitAclPath(path), Apply(conf, root, e0);
    var after := Apply(conf, mid, e1);
    assert Run(conf, root, [e0, e1]) == Run(conf, mid, [e1]) == Run(conf, after, []) == after;
    InsertUserEffect(conf, root, path, id, role, pg);
    DeleteUserEffect(conf, mid, path, id, role);
    AddThenDrop(conf, UserAt(root, at, id), UserAt(mid, at, id), UserAt(after, at, id), role, pg);
    assert UsersKept(root, after) <==> UserAt(after, at, id) == UserAt(root, at, id);
  }

  lemma AddThenDrop(conf: Conf, before: RoleMap, mid: RoleMap, after: RoleMap, role: string, pg: bool)
    requires RoleAdded(conf, before, mid, role, pg) && RoleDropped(mid, after, role)
    ensures after == before <==>
            role !in before && (conf.noAccess.Some? ==> conf.noAccess.value !in before) &&
            (conf.noAccess == Some(role) ==> before == map[])
  {
    if conf.noAccess == Some(role) {
      assert after == map[];
    }
  }
}
