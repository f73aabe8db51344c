/** Edits of the ACL tree and what they change. Every edit is characterised exactly by its
    effect on the entries of the tree; the invariants and frames follow from that. */
module AclEdits {
  import opened Wrappers
  import opened AuthId
  import opened AclTree

  /** A change of one node's own entries. */
  datatype Change =
    | AddUser(id: Authid, role: string, propagate: bool)
    | AddGroup(group: string, role: string, propagate: bool)
    | DropUser(id: Authid, role: string)
    | DropGroup(group: string, role: string)

  /** Adding 'no access' clears an entry, adding any other role removes 'no access' from it. */
  function AddRole(conf: Conf, m: RoleMap, role: string, propagate: bool): RoleMap
  {
    var kept :=
      if conf.noAccess.None? then m
      else if role == conf.noAccess.value then map[]
      else m - {conf.noAccess.value};
    kept[role := propagate]
  }

  function ChangeNode(conf: Conf, n: Node, ch: Change): Node
  {
    match ch
    case AddUser(id, role, pg) =>
      n.(users := n.users[id := AddRole(conf, Lookup(n.users, id), role, pg)])
    case AddGroup(g, role, pg) =>
      n.(groups := n.groups[g := AddRole(conf, GroupLookup(n.groups, g), role, pg)])
    case DropUser(id, role) =>
      if id in n.users then n.(users := n.users[id := n.users[id] - {role}]) else n
    case DropGroup(g, role) =>
      if g in n.groups then n.(groups := n.groups[g := n.groups[g] - {role}]) else n
  }

  /** Change the node on a path, creating the missing nodes. */
  function ChangeOrInsert(conf: Conf, n: Node, p: Path, ch: Change): Node
    decreases |p|
  {
    if p == [] then ChangeNode(conf, n, ch)
    else
      var child := if p[0] in n.children then n.children[p[0]] else EMPTY;
      n.(children := n.children[p[0] := ChangeOrInsert(conf, child, p[1..], ch)])
  }

  /** Change the node on a path if it exists. */
  function ChangeExisting(conf: Conf, n: Node, p: Path, ch: Change): Node
    decreases |p|
  {
    if p == [] then ChangeNode(conf, n, ch)
    else if p[0] !in n.children then n
    else n.(children := n.children[p[0] := ChangeExisting(conf, n.children[p[0]], p[1..], ch)])
  }

  /** Remove the node on a path and all nodes below it; the root stays. */
  function RemoveNode(n: Node, p: Path): Node
    decreases |p|
  {
    if p == [] || p[0] !in n.children then n
    else if |p| == 1 then n.(children := n.children - {p[0]})
    else n.(children := n.children[p[0] := RemoveNode(n.children[p[0]], p[1..])])
  }

  function RemoveAuthid(n: Node, id: Authid): Node
  {
    Node(n.users - {id}, n.groups, map c | c in n.children :: RemoveAuthid(n.children[c], id))
  }

  // ---------------------------------------------------------------- effect on entries

  predicate ConcernsUser(ch: Change, id: Authid)
  {
    (ch.AddUser? || ch.DropUser?) && ch.id == id
  }

  predicate ConcernsGroup(ch: Change, g: string)
  {
    (ch.AddGroup? || ch.DropGroup?) && ch.group == g
  }

  function ChangeEntry(conf: Conf, m: RoleMap, ch: Change): RoleMap
  {
    if ch.AddUser? || ch.AddGroup? then AddRole(conf, m, ch.role, ch.propagate) else m - {ch.role}
  }

  /** The entry `id` has on `p` after `ch` was applied on `at`. */
  function UserAfter(conf: Conf, root: Node, at: Path, ch: Change, p: Path, id: Authid): RoleMap
  {
    if p == at && ConcernsUser(ch, id) then ChangeEntry(conf, UserAt(root, p, id), ch)
    else UserAt(root, p, id)
  }

  function GroupAfter(conf: Conf, root: Node, at: Path, ch: Change, p: Path, g: string): RoleMap
  {
    if p == at && ConcernsGroup(ch, g) then ChangeEntry(conf, GroupAt(root, p, g), ch)
    else GroupAt(root, p, g)
  }

  lemma ChangeNodeEntries(conf: Conf, n: Node, ch: Change, id: Authid, g: string)
    ensures Lookup(ChangeNode(conf, n, ch).users, id) ==
            if ConcernsUser(ch, id) then ChangeEntry(conf, Lookup(n.users, id), ch) else Lookup(n.users, id)
    ensures GroupLookup(ChangeNode(conf, n, ch).groups, g) ==
            if ConcernsGroup(ch, g) then ChangeEntry(conf, GroupLookup(n.groups, g), ch) else GroupLookup(n.groups, g)
    ensures ChangeNode(conf, n, ch).children == n.children
  {
    var none: RoleMap := map[];
    assert none - {ch.role} == none;
  }

  /** A node without its children. */
  function UsersAndGroups(n: Option<Node>): Option<(map<Authid, RoleMap>, map<string, RoleMap>)>
  {
    match n case None => None case Some(x) => Some((x.users, x.groups))
  }

  function OrEmpty(n: Option<Node>): Node
  {
    match n case None => EMPTY case Some(x) => x
  }

  lemma FindInEmpty(p: Path)
    ensures Find(EMPTY, p) == if p == [] then Some(EMPTY) else None
  {
  }

  lemma {:induction false} InsertFind(conf: Conf, n: Node, at: Path, ch: Change, p: Path)
    ensures UsersAndGroups(Find(ChangeOrInsert(conf, n, at, ch), p)) ==
            if p == at then UsersAndGroups(Some(ChangeNode(conf, OrEmpty(Find(n, p)), ch)))
            else if p <= at then UsersAndGroups(Some(OrEmpty(Find(n, p))))
            else UsersAndGroups(Find(n, p))
    decreases |at|
  {
    if at != [] && p != [] {
      assert at == [at[0]] + at[1..] && p == [p[0]] + p[1..];
      if p[0] == at[0] {
        var child := if at[0] in n.children then n.children[at[0]] else EMPTY;
        InsertFind(conf, child, at[1..], ch, p[1..]);
        FindInEmpty(p[1..]);
      }
    }
  }

  lemma InsertEntries(conf: Conf, n: Node, at: Path, ch: Change, p: Path, id: Authid, g: string)
    ensures UserAt(ChangeOrInsert(conf, n, at, ch), p, id) == UserAfter(conf, n, at, ch, p, id)
    ensures GroupAt(ChangeOrInsert(conf, n, at, ch), p, g) == GroupAfter(conf, n, at, ch, p, g)
    ensures Find(ChangeOrInsert(conf, n, at, ch), p).Some? <==> Find(n, p).Some? || p <= at
  {
    InsertFind(conf, n, at, ch, p);
    ChangeNodeEntries(conf, OrEmpty(Find(n, p)), ch, id, g);
  }

  lemma {:induction false} ExistingFind(conf: Conf, n: Node, at: Path, ch: Change, p: Path)
    ensures UsersAndGroups(Find(ChangeExisting(conf, n, at, ch), p)) ==
            if p == at && Find(n, p).Some? then UsersAndGroups(Some(ChangeNode(conf, Find(n, p).value, ch)))
            else UsersAndGroups(Find(n, p))
    decreases |at|
  {
    if at != [] && p != [] {
      assert at == [at[0]] + at[1..] && p == [p[0]] + p[1..];
      if p[0] == at[0] && at[0] in n.children {
        ExistingFind(conf, n.children[at[0]], at[1..], ch, p[1..]);
      }
    }
  }

  lemma ExistingEntries(conf: Conf, n: Node, at: Path, ch: Change, p: Path, id: Authid, g: string)
    requires ch.DropUser? || ch.DropGroup?
    ensures UserAt(ChangeExisting(conf, n, at, ch), p, id) == UserAfter(conf, n, at, ch, p, id)
    ensures GroupAt(ChangeExisting(conf, n, at, ch), p, g) == GroupAfter(conf, n, at, ch, p, g)
    ensures Find(ChangeExisting(conf, n, at, ch), p).Some? <==> Find(n, p).Some?
  {
    ExistingFind(conf, n, at, ch, p);
    var none: RoleMap := map[];
    assert none - {ch.role} == none;
    if Find(n, p).Some? {
      ChangeNodeEntries(conf, Find(n, p).value, ch, id, g);
    }
  }

  lemma {:induction false} RemovedFind(n: Node, at: Path, p: Path)
    ensures at != [] && at <= p ==> Find(RemoveNode(n, at), p).None?
    ensures !(at != [] && at <= p) ==> UsersAndGroups(Find(RemoveNode(n, at), p)) == UsersAndGroups(Find(n, p))
    decreases |at|
  {
    if at != [] && p != [] {
      assert at == [at[0]] + at[1..] && p == [p[0]] + p[1..];
      if p[0] == at[0] && at[0] in n.children && |at| > 1 {
        RemovedFind(n.children[at[0]], at[1..], p[1..]);
      }
    }
  }

  lemma RemovedEntries(n: Node, at: Path, p: Path, id: Authid, g: string)
    ensures UserAt(RemoveNode(n, at), p, id) == if at != [] && at <= p then map[] else UserAt(n, p, id)
    ensures GroupAt(RemoveNode(n, at), p, g) == if at != [] && at <= p then map[] else GroupAt(n, p, g)
    ensures Find(RemoveNode(n, at), p).Some? <==> Find(n, p).Some? && !(at != [] && at <= p)
  {
    RemovedFind(n, at, p);
  }

  lemma {:induction false} RemovedAuthidEntries(n: Node, gone: Authid, p: Path, id: Authid, g: string)
    ensures UserAt(RemoveAuthid(n, gone), p, id) == if id == gone then map[] else UserAt(n, p, id)
    ensures GroupAt(RemoveAuthid(n, gone), p, g) == GroupAt(n, p, g)
    ensures Find(RemoveAuthid(n, gone), p).Some? <==> Find(n, p).Some?
    decreases |p|
  {
    if p != [] && p[0] in n.children {
      RemovedAuthidEntries(n.children[p[0]], gone, p[1..], id, g);
    }
  }

  // ---------------------------------------------------------------- sequences of edits

  datatype Edit =
    | InsertUserRole(path: string, id: Authid, role: string, propagate: bool)
    | InsertGroupRole(path: string, group: string, role: string, propagate: bool)
    | DeleteUserRole(path: string, id: Authid, role: string)
    | DeleteGroupRole(path: string, group: string, role: string)
    | DeleteNode(path: string)
    | DeleteAuthid(id: Authid)

  function Apply(conf: Conf, root: Node, e: Edit): Node
  {
    match e
    case InsertUserRole(path, id, role, pg) => ChangeOrInsert(conf, root, SplitAclPath(path), AddUser(id, role, pg))
    case InsertGroupRole(path, g, role, pg) => ChangeOrInsert(conf, root, SplitAclPath(path), AddGroup(g, role, pg))
    case DeleteUserRole(path, id, role) => ChangeExisting(conf, root, SplitAclPath(path), DropUser(id, role))
    case DeleteGroupRole(path, g, role) => ChangeExisting(conf, root, SplitAclPath(path), DropGroup(g, role))
    case DeleteNode(path) => RemoveNode(root, SplitAclPath(path))
    case DeleteAuthid(id) => RemoveAuthid(root, id)
  }

  function Run(conf: Conf, root: Node, edits: seq<Edit>): Node
    decreases |edits|
  {
    if edits == [] then root else Run(conf, Apply(conf, root, edits[0]), edits[1..])
  }

  /** 'No access' never stands beside another role in one entry. */
  ghost predicate NoAccessAlone(conf: Conf, m: RoleMap)
  {
    conf.noAccess.Some? && conf.noAccess.value in m ==> m.Keys == {conf.noAccess.value}
  }

  /** What the tree is at all times: 'no access' entries stand alone, and every node is
      addressed by non-empty components without slashes. */
  ghost predicate Sound(conf: Conf, root: Node)
  {
    (forall p: Path, id: Authid :: NoAccessAlone(conf, UserAt(root, p, id))) &&
    (forall p: Path, g: string :: NoAccessAlone(conf, GroupAt(root, p, g))) &&
    (forall p: Path :: Find(root, p).Some? ==> ProperPath(p))
  }

  lemma EntryStaysAlone(conf: Conf, m: RoleMap, ch: Change)
    requires NoAccessAlone(conf, m)
    ensures NoAccessAlone(conf, ChangeEntry(conf, m, ch))
  {
    if !(ch.AddUser? || ch.AddGroup?) && conf.noAccess.Some? && conf.noAccess.value in m - {ch.role} {
      assert (m - {ch.role}).Keys == m.Keys - {ch.role};
    }
  }

  lemma EditEntries(conf: Conf, root: Node, e: Edit, p: Path, id: Authid, g: string)
    requires Sound(conf, root)
    ensures NoAccessAlone(conf, UserAt(Apply(conf, root, e), p, id))
    ensures NoAccessAlone(conf, GroupAt(Apply(conf, root, e), p, g))
    ensures Find(Apply(conf, root, e), p).Some? ==> ProperPath(p)
  {
    match e
    case InsertUserRole(path, i, role, pg) =>
      SplitAclPathProper(path);
      InsertKeeps(conf, root, SplitAclPath(path), AddUser(i, role, pg), p, id, g);
    case InsertGroupRole(path, h, role, pg) =>
      SplitAclPathProper(path);
      InsertKeeps(conf, root, SplitAclPath(path), AddGroup(h, role, pg), p, id, g);
    case DeleteUserRole(path, i, role) => DropKeeps(conf, root, path, DropUser(i, role), p, id, g);
    case DeleteGroupRole(path, h, role) => DropKeeps(conf, root, path, DropGroup(h, role), p, id, g);
    case DeleteNode(path) => RemovedEntries(root, SplitAclPath(path), p, id, g);
    case DeleteAuthid(i) => RemovedAuthidEntries(root, i, p, id, g);
  }

  lemma InsertKeeps(conf: Conf, root: Node, at: Path, ch: Change, p: Path, id: Authid, g: string)
    requires Sound(conf, root) && ProperPath(at)
    ensures var after := ChangeOrInsert(conf, root, at, ch);
            NoAccessAlone(conf, UserAt(after, p, id)) && NoAccessAlone(conf, GroupAt(after, p, g)) &&
            (Find(after, p).Some? ==> ProperPath(p))
  {
    InsertEntries(conf, root, at, ch, p, id, g);
    EntryStaysAlone(conf, UserAt(root, p, id), ch);
    EntryStaysAlone(conf, GroupAt(root, p, g), ch);
  }

  lemma ChangeKeepsSound(conf: Conf, root: Node, at: Path, ch: Change)
    requires Sound(conf, root) && ProperPath(at)
    ensures Sound(conf, ChangeOrInsert(conf, root, at, ch))
  {
    var after := ChangeOrInsert(conf, root, at, ch);
    forall p: Path, id: Authid
      ensures NoAccessAlone(conf, UserAt(after, p, id))
    {
      InsertKeeps(conf, root, at, ch, p, id, "");
    }
    forall p: Path, g: string
      ensures NoAccessAlone(conf, GroupAt(after, p, g))
    {
      InsertKeeps(conf, root, at, ch, p, ROOT, g);
    }
    forall p: Path | Find(after, p).Some? ensures ProperPath(p) { InsertKeeps(conf, root, at, ch, p, ROOT, ""); }
  }

  lemma DropKeeps(conf: Conf, root: Node, path: string, ch: Change, p: Path, id: Authid, g: string)
    requires Sound(conf, root) && (ch.DropUser? || ch.DropGroup?)
    ensures var after := ChangeExisting(conf, root, SplitAclPath(path), ch);
            NoAccessAlone(conf, UserAt(after, p, id)) && NoAccessAlone(conf, GroupAt(after, p, g)) &&
            (Find(after, p).Some? ==> ProperPath(p))
  {
    ExistingEntries(conf, root, SplitAclPath(path), ch, p, id, g);
    EntryStaysAlone(conf, UserAt(root, p, id), ch);
    EntryStaysAlone(conf, GroupAt(root, p, g), ch);
  }

  lemma EditKeepsSound(conf: Conf, root: Node, e: Edit)
    requires Sound(conf, root)
    ensures Sound(conf, Apply(conf, root, e))
  {
    forall p: Path, id: Authid ensures NoAccessAlone(conf, UserAt(Apply(conf, root, e), p, id)) {
      EditEntries(conf, root, e, p, id, "");
    }
    forall p: Path, g: string ensures NoAccessAlone(conf, GroupAt(Apply(conf, root, e), p, g)) {
      EditEntries(conf, root, e, p, ROOT, g);
    }
    forall p: Path | Find(Apply(conf, root, e), p).Some? ensures ProperPath(p) {
      EditEntries(conf, root, e, p, ROOT, "");
    }
  }

  lemma EmptySound(conf: Conf)
    ensures Sound(conf, EMPTY)
  {
    forall p: Path ensures Find(EMPTY, p) == if p == [] then Some(EMPTY) else None {
      FindInEmpty(p);
    }
  }

  /** Every run of edits keeps the tree sound. */
  lemma {:induction false} RunKeepsSound(conf: Conf, root: Node, edits: seq<Edit>)
    requires Sound(conf, root)
    ensures Sound(conf, Run(conf, root, edits))
    decreases |edits|
  {
    if edits != [] {
      EditKeepsSound(conf, root, edits[0]);
      RunKeepsSound(conf, Apply(conf, root, edits[0]), edits[1..]);
    }
  }

  /** The ids and paths whose roles an edit may change. Group roles never apply. */
  predicate Touches(e: Edit, id: Authid, p: Path)
  {
    match e
    case InsertUserRole(path, i, _, _) => i == id && SplitAclPath(path) <= p
    case DeleteUserRole(path, i, _) => i == id && SplitAclPath(path) <= p
    case DeleteNode(path) => SplitAclPath(path) != [] && SplitAclPath(path) <= p
    case DeleteAuthid(i) => i == id
    case InsertGroupRole(_, _, _, _) => false
    case DeleteGroupRole(_, _, _) => false
  }

  lemma EditEntryFrame(conf: Conf, root: Node, e: Edit, id: Authid, p: Path)
    requires !Touches(e, id, p)
    ensures UserAt(Apply(conf, root, e), p, id) == UserAt(root, p, id)
  {
    match e
    case InsertUserRole(path, i, role, pg) =>
      InsertEntries(conf, root, SplitAclPath(path), AddUser(i, role, pg), p, id, "");
    case InsertGroupRole(path, h, role, pg) =>
      InsertEntries(conf, root, SplitAclPath(path), AddGroup(h, role, pg), p, id, "");
    case DeleteUserRole(path, i, role) =>
      ExistingEntries(conf, root, SplitAclPath(path), DropUser(i, role), p, id, "");
    case DeleteGroupRole(path, h, role) =>
      ExistingEntries(conf, root, SplitAclPath(path), DropGroup(h, role), p, id, "");
    case DeleteNode(path) => RemovedEntries(root, SplitAclPath(path), p, id, "");
    case DeleteAuthid(i) => RemovedAuthidEntries(root, i, p, id, "");
  }

  /** An edit leaves the roles of other ids, and of paths not at or below its own, unchanged. */
  lemma EditFrame(conf: Conf, root: Node, e: Edit, id: Authid, p: Path)
    requires !Touches(e, id, p)
    ensures Roles(conf, Apply(conf, root, e), id, p) == Roles(conf, root, id, p)
  {
    forall j | 0 <= j <= |p|
      ensures UserAt(Apply(conf, root, e), p[..j], id) == UserAt(root, p[..j], id)
    {
      assert p[..j] <= p;
      EditEntryFrame(conf, root, e, id, p[..j]);
    }
    RolesSame(conf, Apply(conf, root, e), root, id, p);
  }

  lemma {:induction false} RunFrame(conf: Conf, root: Node, edits: seq<Edit>, id: Authid, p: Path)
    requires forall k :: 0 <= k < |edits| ==> !Touches(edits[k], id, p)
    ensures Roles(conf, Run(conf, root, edits), id, p) == Roles(conf, root, id, p)
    decreases |edits|
  {
    if edits != [] {
      EditFrame(conf, root, edits[0], id, p);
      RunFrame(conf, Apply(conf, root, edits[0]), edits[1..], id, p);
    }
  }

  /** An inserted role is in force on its path at once; 'no access' alone is. */
  lemma InsertTakesEffect(conf: Conf, root: Node, path: string, id: Authid, role: string, pg: bool)
    ensures var roles := Roles(conf, Apply(conf, root, InsertUserRole(path, id, role, pg)), id, SplitAclPath(path));
            if conf.noAccess == Some(role) then roles == map[role := false]
            else role in roles && roles[role] == pg && (conf.noAccess.Some? ==> conf.noAccess.value !in roles)
  {
    var p, after := SplitAclPath(path), Apply(conf, root, InsertUserRole(path, id, role, pg));
    InsertEntries(conf, root, p, AddUser(id, role, pg), p, id, "");
    assert p[..|p|] == p;
    var entry := AddRole(conf, UserAt(root, p, id), role, pg);
    assert role in Applicable(conf, entry, true);
    RolesAreNearest(conf, after, id, p);
  }
}
