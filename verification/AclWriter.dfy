/** The compressing writer of the ACL tree as it runs: hash maps from roles to holders,
    regrouped by the text of the holder list, written in key order. */
module AclWriter {
  import opened Text
  import opened Ordering
  import opened AuthId
  import opened AclTree
  import opened AclStore

  type Grouping = map<string, set<string>>

  function Get(m: Grouping, k: string): set<string>
  {
    if k in m then m[k] else {}
  }

  /** `entry(k).or_default().insert(x)` */
  function Put(m: Grouping, k: string, x: string): (out: Grouping)
    ensures forall j, w :: w in Get(out, j) <==> w in Get(m, j) || (j == k && w == x)
    ensures Proper(m) ==> Proper(out)
  {
    m[k := Get(m, k) + {x}]
  }

  /** Every key has a non-empty set. */
  ghost predicate Proper(m: Grouping)
  {
    forall k :: k in m ==> m[k] != {}
  }

  /** `out` is `m` with `who` added under every role `who` has with flag `pg`. */
  ghost predicate Added(m: Grouping, out: Grouping, roles: RoleMap, pg: bool, who: string)
  {
    Proper(out) &&
    forall r, w :: w in Get(out, r) <==> w in Get(m, r) || (w == who && r in roles && roles[r] == pg)
  }

  /** Adds one holder under each of the holder's roles, split by the propagate flag. */
  method AddHolder(m0: Grouping, m1: Grouping, who: string, roles: RoleMap) returns (o0: Grouping, o1: Grouping)
    requires Proper(m0) && Proper(m1)
    ensures Added(m0, o0, roles, false, who) && Added(m1, o1, roles, true, who)
  {
    hide Put, Get;
    o0, o1 := m0, m1;
    var todo := roles.Keys;
    while todo != {}
      invariant todo <= roles.Keys && Proper(o0) && Proper(o1)
      invariant forall r, w :: w in Get(o0, r) <==>
                  w in Get(m0, r) || (w == who && r in roles && r !in todo && !roles[r])
      invariant forall r, w :: w in Get(o1, r) <==>
                  w in Get(m1, r) || (w == who && r in roles && r !in todo && roles[r])
      decreases |todo|
    {
      var role :| role in todo;
      if roles[role] {
        o1 := Put(o1, role, who);
      } else {
        o0 := Put(o0, role, who);
      }
      todo := todo - {role};
    }
  }

  /** `who` holds `role` through one of the ids or groups visited so far. */
  ghost predicate HoldsAmong(n: Node, ids: set<Authid>, gs: set<string>, role: string, pg: bool, who: string)
  {
    (exists id :: id in ids && id in n.users && !IsRootUser(id) && role in n.users[id] &&
      n.users[id][role] == pg && who == PrintAuthid(id)) ||
    (exists g :: g in gs && g in n.groups && role in n.groups[g] && n.groups[g][role] == pg && who == "@" + g)
  }

  ghost predicate Collected(n: Node, ids: set<Authid>, gs: set<string>, m: Grouping, pg: bool)
  {
    Proper(m) && forall r, w :: w in Get(m, r) <==> HoldsAmong(n, ids, gs, r, pg, w)
  }

  lemma CollectedUser(n: Node, ids: set<Authid>, id: Authid, m: Grouping, out: Grouping, pg: bool)
    requires Collected(n, ids, {}, m, pg) && id in n.users
    requires if IsRootUser(id) then out == m else Added(m, out, n.users[id], pg, PrintAuthid(id))
    ensures Collected(n, ids + {id}, {}, out, pg)
  {
    hide PrintAuthid, IsRootUser, Get;
    forall r, w ensures w in Get(out, r) <==> HoldsAmong(n, ids + {id}, {}, r, pg, w) {
      assert w in Get(m, r) <==> HoldsAmong(n, ids, {}, r, pg, w);
    }
  }

  lemma CollectedGroup(n: Node, ids: set<Authid>, gs: set<string>, g: string, m: Grouping, out: Grouping, pg: bool)
    requires Collected(n, ids, gs, m, pg) && g in n.groups
    requires Added(m, out, n.groups[g], pg, "@" + g)
    ensures Collected(n, ids, gs + {g}, out, pg)
  {
    hide PrintAuthid, IsRootUser, Get;
    forall r, w ensures w in Get(out, r) <==> HoldsAmong(n, ids, gs + {g}, r, pg, w) {
      assert w in Get(m, r) <==> HoldsAmong(n, ids, gs, r, pg, w);
    }
  }

  lemma CollectedAll(n: Node, m: Grouping, pg: bool)
    requires Collected(n, n.users.Keys, n.groups.Keys, m, pg)
    ensures m.Keys == HeldRoles(n, pg) && forall r :: Get(m, r) == Holders(n, r, pg)
  {
    forall r ensures Get(m, r) == Holders(n, r, pg) {
      forall w ensures w in Get(m, r) <==> w in Holders(n, r, pg) {
        assert w in Get(m, r) <==> HoldsAmong(n, n.users.Keys, n.groups.Keys, r, pg, w);
      }
    }
    forall r ensures r in m.Keys <==> r in HeldRoles(n, pg) {
      assert Get(m, r) == Holders(n, r, pg);
      if w :| w in Holders(n, r, pg) {
        HolderHasRole(n, r, pg, w);
      }
    }
  }

  lemma StartCollecting(n: Node, pg: bool)
    ensures Collected(n, n.users.Keys - n.users.Keys, {}, map[], pg)
  {
  }

  lemma CollectedProper(n: Node, ids: set<Authid>, gs: set<string>, m: Grouping, pg: bool)
    requires Collected(n, ids, gs, m, pg)
    ensures Proper(m)
  {
  }

  method UserHolders(n: Node) returns (m0: Grouping, m1: Grouping)
    ensures Collected(n, n.users.Keys, {}, m0, false) && Collected(n, n.users.Keys, {}, m1, true)
  {
    hide PrintAuthid, Get, Added, Collected, Proper;
    m0, m1 := map[], map[];
    StartCollecting(n, false);
    StartCollecting(n, true);
    var ids := n.users.Keys;
    while ids != {}
      invariant ids <= n.users.Keys
      invariant Collected(n, n.users.Keys - ids, {}, m0, false) && Collected(n, n.users.Keys - ids, {}, m1, true)
      decreases |ids|
    {
      var id :| id in ids;
      ghost var seen := n.users.Keys - ids;
      CollectedProper(n, seen, {}, m0, false);
      CollectedProper(n, seen, {}, m1, true);
      var o0, o1 := m0, m1;
      if !(!id.IsToken() && id.user.data == "root@pam") {
        o0, o1 := AddHolder(m0, m1, PrintAuthid(id), n.users[id]);
      }
      CollectedUser(n, seen, id, m0, o0, false);
      CollectedUser(n, seen, id, m1, o1, true);
      assert n.users.Keys - (ids - {id}) == seen + {id};
      m0, m1, ids := o0, o1, ids - {id};
    }
    assert n.users.Keys - {} == n.users.Keys;
  }

  /** The two maps from roles to their holders, without and with the propagate flag. */
  method RoleHolders(n: Node) returns (m0: Grouping, m1: Grouping)
    ensures m0.Keys == HeldRoles(n, false) && forall r :: Get(m0, r) == Holders(n, r, false)
    ensures m1.Keys == HeldRoles(n, true) && forall r :: Get(m1, r) == Holders(n, r, true)
  {
    hide Get, Added, Collected, Proper, Holders, HeldRoles;
    m0, m1 := UserHolders(n);
    var gs := n.groups.Keys;
    assert n.groups.Keys - gs == {};
    while gs != {}
      invariant gs <= n.groups.Keys
      invariant Collected(n, n.users.Keys, n.groups.Keys - gs, m0, false)
      invariant Collected(n, n.users.Keys, n.groups.Keys - gs, m1, true)
      decreases |gs|
    {
      var g :| g in gs;
      ghost var seen := n.groups.Keys - gs;
      CollectedProper(n, n.users.Keys, seen, m0, false);
      CollectedProper(n, n.users.Keys, seen, m1, true);
      var o0, o1 := AddHolder(m0, m1, "@" + g, n.groups[g]);
      CollectedGroup(n, n.users.Keys, seen, g, m0, o0, false);
      CollectedGroup(n, n.users.Keys, seen, g, m1, o1, true);
      assert n.groups.Keys - (gs - {g}) == seen + {g};
      m0, m1, gs := o0, o1, gs - {g};
    }
    assert n.groups.Keys - {} == n.groups.Keys;
    CollectedAll(n, m0, false);
    CollectedAll(n, m1, true);
  }

  /** The comma list of a set, item by item in increasing order. */
  method CommaList(items: set<string>) returns (acc: string)
    ensures acc == CommaFold("", Sorted(items))
  {
    var sorted := InOrder(items);
    acc := "";
    for i := 0 to |sorted|
      invariant CommaFold(acc, sorted[i..]) == CommaFold("", sorted)
    {
      assert sorted[i..][1..] == sorted[i + 1..];
      if acc != [] { acc := acc + [',']; }
      acc := acc + sorted[i];
    }
  }

  /** The iteration order of an ordered set. */
  method InOrder(items: set<string>) returns (r: seq<string>)
    ensures r == Sorted(items)
  {
    var todo, keys := items, [];
    while todo != {}
      invariant todo <= items
      invariant forall x :: x in keys <==> x in items - todo
      decreases |todo|
    {
      var x :| x in todo;
      keys := keys + [x];
      todo := todo - {x};
    }
    assert Elements(keys) == items;
    r := Sort(keys);
  }

  ghost predicate Grouped(n: Node, pg: bool, roles: set<string>, out: Grouping)
  {
    Proper(out) && forall list, r :: r in Get(out, list) <==> r in roles && HolderList(n, r, pg) == list
  }

  lemma GroupedOne(n: Node, pg: bool, roles: set<string>, out: Grouping, r: string)
    requires Grouped(n, pg, roles, out)
    ensures Grouped(n, pg, roles + {r}, Put(out, HolderList(n, r, pg), r))
  {
    hide HolderList, Get, Put, Proper;
  }

  /** Groups the roles by the text of their holder list. */
  method GroupByList(n: Node, pg: bool, m: Grouping) returns (out: Grouping)
    requires m.Keys == HeldRoles(n, pg) && forall r :: Get(m, r) == Holders(n, r, pg)
    ensures out.Keys == HolderLists(n, pg)
    ensures forall list :: list in out ==> out[list] == RolesWithList(n, pg, list)
  {
    hide Holders, HeldRoles, Put, Grouped, Sorted, CommaFold;
    out := map[];
    var todo := m.Keys;
    assert Grouped(n, pg, m.Keys - todo, out) by { GroupedNone(n, pg, m.Keys - todo); }
    while todo != {}
      invariant todo <= m.Keys
      invariant Grouped(n, pg, m.Keys - todo, out)
      decreases |todo|
    {
      var role :| role in todo;
      assert Get(m, role) == Holders(n, role, pg);
      var list := CommaList(m[role]);
      GroupedOne(n, pg, m.Keys - todo, out, role);
      assert m.Keys - (todo - {role}) == m.Keys - todo + {role};
      out := Put(out, list, role);
      todo := todo - {role};
    }
    assert m.Keys - {} == m.Keys;
    GroupedAll(n, pg, m, out);
  }

  lemma GroupedNone(n: Node, pg: bool, roles: set<string>)
    requires roles == {}
    ensures Grouped(n, pg, roles, map[])
  {
  }

  lemma GroupedAll(n: Node, pg: bool, m: Grouping, out: Grouping)
    requires m.Keys == HeldRoles(n, pg) && Grouped(n, pg, m.Keys, out)
    ensures out.Keys == HolderLists(n, pg)
    ensures forall list :: list in out ==> out[list] == RolesWithList(n, pg, list)
  {
    hide HeldRoles, HolderList;
    forall list ensures Get(out, list) == RolesWithList(n, pg, list) {
      forall r ensures r in Get(out, list) <==> r in RolesWithList(n, pg, list) {}
    }
    forall list ensures list in out.Keys <==> list in HolderLists(n, pg) {
      assert Get(out, list) == RolesWithList(n, pg, list);
      if list in HolderLists(n, pg) {
        var r :| r in HeldRoles(n, pg) && HolderList(n, r, pg) == list;
        assert r in RolesWithList(n, pg, list);
      }
      if list in out.Keys {
        var r :| r in RolesWithList(n, pg, list);
      }
    }
  }

  lemma {:induction false} ListLinesAppend(conf: Conf, n: Node, path: string, pg: bool, a: seq<string>, list: string)
    ensures ListLines(conf, n, path, pg, a + [list]) ==
            ListLines(conf, n, path, pg, a) + [AclLine(pg, path, list, RoleList(conf, RolesWithList(n, pg, list)))]
    decreases |a|
  {
    hide RoleList, RolesWithList, AclLine;
    if a == [] {
      assert a + [list] == [list] && [list][1..] == [];
    } else {
      assert (a + [list])[1..] == a[1..] + [list];
      ListLinesAppend(conf, n, path, pg, a[1..], list);
    }
  }

  method WriteRoleList(conf: Conf, roles: set<string>) returns (s: string)
    ensures s == RoleList(conf, roles)
  {
    if conf.noAccess.Some? && conf.noAccess.value in roles { return conf.noAccess.value; }
    s := CommaList(roles);
  }

  method WriteLists(conf: Conf, n: Node, path: string, pg: bool, m: Grouping) returns (lines: seq<string>)
    requires m.Keys == HeldRoles(n, pg) && forall r :: Get(m, r) == Holders(n, r, pg)
    ensures lines == ListLines(conf, n, path, pg, Sorted(HolderLists(n, pg)))
  {
    hide *;
    var grouped := GroupByList(n, pg, m);
    var lists := InOrder(grouped.Keys);
    lines := [];
    assert ListLines(conf, n, path, pg, []) == [] by { NoLines(conf, n, path, pg); }
    for i := 0 to |lists|
      invariant lines == ListLines(conf, n, path, pg, lists[..i])
    {
      assert lists[i] in lists;
      var roleList := WriteRoleList(conf, grouped[lists[i]]);
      ListLinesAppend(conf, n, path, pg, lists[..i], lists[i]);
      assert lists[..i + 1] == lists[..i] + [lists[i]];
      lines := lines + [AclLine(pg, path, lists[i], roleList)];
    }
    assert lists[..|lists|] == lists;
  }

  lemma NoLines(conf: Conf, n: Node, path: string, pg: bool)
    ensures ListLines(conf, n, path, pg, []) == []
  {
  }

  lemma {:induction false} ChildLinesAppend(conf: Conf, n: Node, path: string, a: seq<string>, c: string)
    requires (forall x :: x in a ==> x in n.children) && c in n.children
    ensures ChildLines(conf, n, path, a + [c]) ==
            ChildLines(conf, n, path, a) + TreeLines(conf, n.children[c], path + "/" + c)
    decreases |a|
  {
    hide TreeLines;
    if a == [] {
      assert a + [c] == [c] && [c][1..] == [];
    } else {
      assert (a + [c])[1..] == a[1..] + [c];
      ChildLinesAppend(conf, n, path, a[1..], c);
      AppendAssoc(TreeLines(conf, n.children[a[0]], path + "/" + a[0]), ChildLines(conf, n, path, a[1..]),
                  TreeLines(conf, n.children[c], path + "/" + c));
    }
  }

  /** `write_node_config`: the lines of a node and of the nodes below it, in key order. */
  method WriteNodeConfig(conf: Conf, n: Node, path: string) returns (lines: seq<string>)
    ensures lines == TreeLines(conf, n, path)
    decreases n
  {
    hide *;
    var m0, m1 := RoleHolders(n);
    var lines0 := WriteLists(conf, n, path, false, m0);
    var lines1 := WriteLists(conf, n, path, true, m1);
    var names := InOrder(n.children.Keys);
    var below: seq<string> := [];
    assert ChildLines(conf, n, path, []) == [] by { NoChildLines(conf, n, path); }
    for i := 0 to |names|
      invariant below == ChildLines(conf, n, path, names[..i])
    {
      assert names[i] in names;
      var child := WriteNodeConfig(conf, n.children[names[i]], path + "/" + names[i]);
      ChildLinesAppend(conf, n, path, names[..i], names[i]);
      assert names[..i + 1] == names[..i] + [names[i]];
      below := below + child;
    }
    assert names[..|names|] == names;
    lines := lines0 + lines1 + below;
    TreeLinesParts(conf, n, path);
  }

  lemma TreeLinesParts(conf: Conf, n: Node, path: string)
    ensures TreeLines(conf, n, path) ==
            ListLines(conf, n, path, false, Sorted(HolderLists(n, false))) +
            ListLines(conf, n, path, true, Sorted(HolderLists(n, true))) +
            ChildLines(conf, n, path, Sorted(n.children.Keys))
  {
  }

  lemma NoChildLines(conf: Conf, n: Node, path: string)
    ensures ChildLines(conf, n, path, []) == []
  {
  }
}
