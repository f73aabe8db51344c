/** Privileges on a path: those of the roles found there, limited for a token by its owner's. */
module AclPrivs {
  import opened Wrappers
  import opened AuthId
  import opened AclTree
  import opened AclEdits

  function PrivsOf(conf: Conf, m: RoleMap): Privs
  {
    set r, b | r in m && r in conf.roles && b in conf.roles[r] :: b
  }

  /** The privileges of the roles that carry the propagate flag. */
  function PropagatedOf(conf: Conf, m: RoleMap): Privs
  {
    set r, b | r in m && m[r] && r in conf.roles && b in conf.roles[r] :: b
  }

  function Owner(id: Authid): Authid
  {
    Authid(id.user, None)
  }

  predicate IsAdmin(conf: Conf, id: Authid)
  {
    conf.superuser(id) && conf.admin.Some? && conf.admin.value in conf.roles
  }

  /** Privileges and propagated privileges; those of a token are limited by its owner's. */
  function Details(conf: Conf, root: Node, id: Authid, p: Path): (Privs, Privs)
    decreases id.IsToken()
  {
    if IsAdmin(conf, id) then
      (conf.roles[conf.admin.value], conf.roles[conf.admin.value])
    else
      var m := Roles(conf, root, id, p);
      var own := (PrivsOf(conf, m), PropagatedOf(conf, m));
      if id.IsToken() then
        var owner := Details(conf, root, Owner(id), p);
        (own.0 * owner.0, own.1 * owner.1)
      else own
  }

  function PrivsAt(conf: Conf, root: Node, id: Authid, p: Path): Privs
  {
    Details(conf, root, id, p).0
  }

  /** A token that is no superuser never has a privilege its owner lacks. */
  lemma TokenLimited(conf: Conf, root: Node, id: Authid, p: Path)
    requires !IsAdmin(conf, id)
    ensures PrivsAt(conf, root, id, p) <= PrivsOf(conf, Roles(conf, root, id, p))
    ensures id.IsToken() ==> PrivsAt(conf, root, id, p) <= PrivsAt(conf, root, Owner(id), p)
    ensures id.IsToken() ==> Details(conf, root, id, p).1 <= Details(conf, root, Owner(id), p).1
  {
  }

  lemma NoEntriesNoRoles(conf: Conf, root: Node, id: Authid, p: Path)
    requires forall q: Path :: UserAt(root, q, id) == map[]
    ensures Roles(conf, root, id, p) == map[]
  {
    var k := RolesRule(conf, root, id, p);
  }

  /** After a user was deleted, neither that user nor any of the user's tokens has a privilege
      on any path, superusers aside. */
  lemma DeletedUserHasNothing(conf: Conf, root: Node, user: Authid, id: Authid, p: Path)
    requires !user.IsToken() && (id == user || (id.IsToken() && Owner(id) == user))
    requires !IsAdmin(conf, user) && !IsAdmin(conf, id)
    ensures PrivsAt(conf, Apply(conf, root, DeleteAuthid(user)), id, p) == {}
  {
    var after := Apply(conf, root, DeleteAuthid(user));
    forall q: Path ensures UserAt(after, q, user) == map[] {
      RemovedAuthidEntries(root, user, q, user, "");
    }
    NoEntriesNoRoles(conf, after, user, p);
    assert PrivsAt(conf, after, user, p) == {};
    if id != user { TokenLimited(conf, after, id, p); }
  }
}
