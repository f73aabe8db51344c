/** Which privileges an id has, told from the entries of the tree alone. */
module AclRules {
  import opened Wrappers
  import opened AuthId
  import opened AclTree
  import opened AclEdits
  import opened AclPrivs

  /** A role of an entry counts on the path itself, and below it when it propagates. */
  predicate Applies(entry: RoleMap, r: string, leaf: bool)
  {
    r in entry && (leaf || entry[r])
  }

  predicate Blocked(conf: Conf, entry: RoleMap, leaf: bool)
  {
    conf.noAccess.Some? && Applies(entry, conf.noAccess.value, leaf)
  }

  ghost predicate Counts(entry: RoleMap, leaf: bool)
  {
    exists r :: Applies(entry, r, leaf)
  }

  /** The entry on the prefix of length `k` counts, and none further down does. */
  ghost predicate Decides(root: Node, id: Authid, p: Path, k: nat)
    requires k <= |p|
  {
    Counts(UserAt(root, p[..k], id), k == |p|) &&
    forall j :: k < j <= |p| ==> !Counts(UserAt(root, p[..j], id), j == |p|)
  }

  /** A registered role of the entry that counts has the privilege `b`, whatever its flag; where
      'no access' counts, no other role does. */
  ghost predicate Gives(conf: Conf, entry: RoleMap, leaf: bool, b: nat)
  {
    exists r :: Applies(entry, r, leaf) && r in conf.roles && b in conf.roles[r] &&
      (Blocked(conf, entry, leaf) ==> r == conf.noAccess.value)
  }

  /** A registered role of the entry that propagates has the privilege `b`. */
  ghost predicate HandsDown(conf: Conf, entry: RoleMap, leaf: bool, b: nat)
  {
    !Blocked(conf, entry, leaf) && exists r :: Applies(entry, r, false) && r in conf.roles && b in conf.roles[r]
  }

  ghost predicate Granted(conf: Conf, root: Node, id: Authid, p: Path, b: nat)
  {
    exists k: nat :: k <= |p| && Decides(root, id, p, k) && Gives(conf, UserAt(root, p[..k], id), k == |p|, b)
  }

  ghost predicate GrantedOn(conf: Conf, root: Node, id: Authid, p: Path, b: nat)
  {
    exists k: nat :: k <= |p| && Decides(root, id, p, k) && HandsDown(conf, UserAt(root, p[..k], id), k == |p|, b)
  }

  lemma EntryPrivs(conf: Conf, entry: RoleMap, leaf: bool, b: nat)
    ensures b in PrivsOf(conf, Applicable(conf, entry, leaf)) <==> Gives(conf, entry, leaf, b)
    ensures b in PropagatedOf(conf, Applicable(conf, entry, leaf)) <==> HandsDown(conf, entry, leaf, b)
  {
    var m := Applicable(conf, entry, leaf);
    if r :| r in m && r in conf.roles && b in conf.roles[r] {
      assert Applies(entry, r, leaf);
    }
    if Gives(conf, entry, leaf, b) {
      var r :| Applies(entry, r, leaf) && r in conf.roles && b in conf.roles[r] &&
               (Blocked(conf, entry, leaf) ==> r == conf.noAccess.value);
      assert r in m;
    }
    if r :| r in m && m[r] && r in conf.roles && b in conf.roles[r] {
      assert Applies(entry, r, false);
    }
    if HandsDown(conf, entry, leaf, b) {
      var r :| Applies(entry, r, false) && r in conf.roles && b in conf.roles[r];
      assert r in m && m[r];
    }
  }

  lemma EntryCounts(conf: Conf, entry: RoleMap, leaf: bool)
    ensures Applicable(conf, entry, leaf) != map[] <==> Counts(entry, leaf)
  {
    var m := Applicable(conf, entry, leaf);
    if m != map[] {
      assert m.Keys != {};
      var r :| r in m;
      assert Applies(entry, r, leaf);
    }
    if r :| Applies(entry, r, leaf) {
      if Blocked(conf, entry, leaf) { assert conf.noAccess.value in m; } else { assert r in m; }
    }
  }

  /** At most one prefix decides. */
  lemma OneDecides(root: Node, id: Authid, p: Path, k: nat, n: nat)
    requires k <= |p| && n <= |p| && Decides(root, id, p, k) && Decides(root, id, p, n)
    ensures k == n
  {
  }

  /** The prefix whose entry the lookup returns is the one that decides. */
  lemma LookupDecides(conf: Conf, root: Node, id: Authid, p: Path) returns (k: int)
    ensures -1 <= k <= |p|
    ensures k >= 0 ==>
              Decides(root, id, p, k) &&
              Roles(conf, root, id, p) == Applicable(conf, UserAt(root, p[..k], id), k == |p|)
    ensures k < 0 ==> Roles(conf, root, id, p) == map[] && forall n: nat :: n <= |p| ==> !Decides(root, id, p, n)
  {
    hide Applicable, Roles, UserAt, Counts;
    k := RolesRule(conf, root, id, p);
    forall j | 0 <= j <= |p|
      ensures Applicable(conf, UserAt(root, p[..j], id), j == |p|) != map[] <==>
              Counts(UserAt(root, p[..j], id), j == |p|)
    {
      EntryCounts(conf, UserAt(root, p[..j], id), j == |p|);
    }
  }

  lemma RolePrivs(conf: Conf, root: Node, id: Authid, p: Path, b: nat)
    ensures b in PrivsOf(conf, Roles(conf, root, id, p)) <==> Granted(conf, root, id, p, b)
    ensures b in PropagatedOf(conf, Roles(conf, root, id, p)) <==> GrantedOn(conf, root, id, p, b)
  {
    hide Applicable, Roles, UserAt, Decides, Gives, HandsDown;
    var k := LookupDecides(conf, root, id, p);
    if k >= 0 {
      EntryPrivs(conf, UserAt(root, p[..k], id), k == |p|, b);
      forall n: nat | n <= |p| && Decides(root, id, p, n) ensures n == k { OneDecides(root, id, p, k, n); }
    }
  }

  /** The privileges of an id that is no superuser: `b` is one of them if and only if a registered
      role with `b` stands in the entry of the deepest prefix of the path that has an entry that
      counts, and, for a token, if the owner has it too. */
  lemma PrivilegeIff(conf: Conf, root: Node, id: Authid, p: Path, b: nat)
    requires !IsAdmin(conf, id)
    ensures b in PrivsAt(conf, root, id, p) <==>
            Granted(conf, root, id, p, b) && (id.IsToken() ==> b in PrivsAt(conf, root, Owner(id), p))
    ensures b in Details(conf, root, id, p).1 <==>
            GrantedOn(conf, root, id, p, b) && (id.IsToken() ==> b in Details(conf, root, Owner(id), p).1)
  {
    hide Granted, GrantedOn, Roles, PrivsOf, PropagatedOf;
    RolePrivs(conf, root, id, p, b);
  }

  /** The two sets are exactly those of the deciding entry. */
  ghost predicate TellsPrivileges(conf: Conf, root: Node, id: Authid, p: Path, privs: Privs, propagated: Privs)
  {
    forall b: nat ::
      (b in privs <==> Granted(conf, root, id, p, b)) && (b in propagated <==> GrantedOn(conf, root, id, p, b))
  }

  lemma PlainPrivileges(conf: Conf, root: Node, id: Authid, p: Path)
    requires !IsAdmin(conf, id) && !id.IsToken()
    ensures TellsPrivileges(conf, root, id, p, PrivsAt(conf, root, id, p), Details(conf, root, id, p).1)
  {
    hide Granted, GrantedOn, Details;
    forall b: nat
      ensures (b in PrivsAt(conf, root, id, p) <==> Granted(conf, root, id, p, b)) &&
              (b in Details(conf, root, id, p).1 <==> GrantedOn(conf, root, id, p, b))
    {
      PrivilegeIff(conf, root, id, p, b);
    }
  }

  /** A superuser has the privileges of the admin role on every path. */
  lemma SuperuserPrivileges(conf: Conf, root: Node, id: Authid, p: Path)
    requires conf.superuser(id) && conf.admin.Some? && conf.admin.value in conf.roles
    ensures Details(conf, root, id, p) == (conf.roles[conf.admin.value], conf.roles[conf.admin.value])
  {
  }

  /** Right after a role was inserted for a user, every privilege of the role is in force on its
      path, beside any other role and with either flag, and is handed down if the role
      propagates. */
  lemma InsertGrants(conf: Conf, root: Node, path: string, id: Authid, role: string, pg: bool)
    requires !IsAdmin(conf, id) && !id.IsToken() && role in conf.roles && conf.noAccess != Some(role)
    ensures var after, p := Apply(conf, root, InsertUserRole(path, id, role, pg)), SplitAclPath(path);
            conf.roles[role] <= PrivsAt(conf, after, id, p) &&
            (pg ==> conf.roles[role] <= Details(conf, after, id, p).1)
  {
    var after, p := Apply(conf, root, InsertUserRole(path, id, role, pg)), SplitAclPath(path);
    InsertTakesEffect(conf, root, path, id, role, pg);
  }

  /** Right after 'no access' was inserted for a user, only the privileges of that role are in force. */
  lemma NoAccessDenies(conf: Conf, root: Node, path: string, id: Authid, role: string, pg: bool)
    requires !IsAdmin(conf, id) && conf.noAccess == Some(role)
    ensures var after, p := Apply(conf, root, InsertUserRole(path, id, role, pg)), SplitAclPath(path);
            PrivsAt(conf, after, id, p) <= (if role in conf.roles then conf.roles[role] else {}) &&
            Details(conf, after, id, p).1 == {}
  {
    InsertTakesEffect(conf, root, path, id, role, pg);
  }
}
