/** The text form is canonical: it depends on the entries alone, not on the nodes that happen to
    be there, so a saved tree that is loaded and saved again gives the same text. */
module AclCanonical {
  import opened Ordering
  import opened AuthId
  import opened AclTree
  import opened AclEdits
  import opened AclDescent
  import opened AclStore
  import opened AclReload
  import opened AclFaithful

  // ---------------------------------------------------------------- one node

  /** The same entries on two nodes, those of `root@pam` aside. */
  ghost predicate SameHere(a: Node, b: Node)
  {
    (forall id: Authid :: !IsRootUser(id) ==> Lookup(a.users, id) == Lookup(b.users, id)) &&
    (forall g: string :: GroupLookup(a.groups, g) == GroupLookup(b.groups, g))
  }

  lemma HoldersWithin(a: Node, b: Node, r: string, pg: bool, who: string)
    requires SameHere(a, b) && who in Holders(a, r, pg)
    ensures who in Holders(b, r, pg)
  {
    if id :| id in a.users && !IsRootUser(id) && r in a.users[id] && a.users[id][r] == pg && who == PrintAuthid(id) {
      assert Lookup(a.users, id) == Lookup(b.users, id);
    } else {
      var g :| g in a.groups && r in a.groups[g] && a.groups[g][r] == pg && who == "@" + g;
      assert GroupLookup(a.groups, g) == GroupLookup(b.groups, g);
    }
  }

  lemma SameHolders(a: Node, b: Node, r: string, pg: bool)
    requires SameHere(a, b)
    ensures Holders(a, r, pg) == Holders(b, r, pg)
  {
    hide Holders, SameHere;
    forall who | who in Holders(a, r, pg) ensures who in Holders(b, r, pg) { HoldersWithin(a, b, r, pg, who); }
    forall who | who in Holders(b, r, pg) ensures who in Holders(a, r, pg) {
      SameHereSym(a, b);
      HoldersWithin(b, a, r, pg, who);
    }
  }

  lemma SameHereSym(a: Node, b: Node)
    requires SameHere(a, b)
    ensures SameHere(b, a)
  {
  }

  /** A role is held exactly when it has holders. */
  lemma HeldIff(n: Node, r: string, pg: bool)
    ensures r in HeldRoles(n, pg) <==> Holders(n, r, pg) != {}
  {
    if Holders(n, r, pg) != {} {
      var who :| who in Holders(n, r, pg);
      HolderHasRole(n, r, pg, who);
    }
  }

  lemma SameLists(a: Node, b: Node, pg: bool)
    requires SameHere(a, b)
    ensures HeldRoles(a, pg) == HeldRoles(b, pg) && HolderLists(a, pg) == HolderLists(b, pg)
    ensures forall list :: RolesWithList(a, pg, list) == RolesWithList(b, pg, list)
  {
    hide SameHere, Holders, HeldRoles;
    forall r ensures Holders(a, r, pg) == Holders(b, r, pg) && (r in HeldRoles(a, pg) <==> r in HeldRoles(b, pg)) {
      SameHolders(a, b, r, pg);
      HeldIff(a, r, pg);
      HeldIff(b, r, pg);
    }
    assert HeldRoles(a, pg) == HeldRoles(b, pg);
    assert forall r :: HolderList(a, r, pg) == HolderList(b, r, pg);
  }

  lemma {:induction false} SameListLines(conf: Conf, a: Node, b: Node, path: string, pg: bool, lists: seq<string>)
    requires forall list :: RolesWithList(a, pg, list) == RolesWithList(b, pg, list)
    ensures ListLines(conf, a, path, pg, lists) == ListLines(conf, b, path, pg, lists)
    decreases |lists|
  {
    hide RolesWithList, RoleList, AclLine;
    if lists != [] { SameListLines(conf, a, b, path, pg, lists[1..]); }
  }

  lemma SameNodeLines(conf: Conf, a: Node, b: Node, path: string)
    requires SameHere(a, b)
    ensures NodeLines(conf, a, path) == NodeLines(conf, b, path)
  {
    hide RolesWithList, HolderLists, ListLines, SameHere, HeldRoles;
    SameLists(a, b, false);
    SameLists(a, b, true);
    SameListLines(conf, a, b, path, false, Sorted(HolderLists(a, false)));
    SameListLines(conf, a, b, path, true, Sorted(HolderLists(a, true)));
  }

  // ---------------------------------------------------------------- children, present or not

  ghost function OneChild(conf: Conf, n: Node, path: string, c: string): seq<string>
  {
    if c in n.children then TreeLines(conf, n.children[c], path + "/" + c) else []
  }

  /** The lines below `n` for a list of names some of which may be missing. */
  ghost function Over(conf: Conf, n: Node, path: string, names: seq<string>): seq<string>
  {
    if names == [] then [] else OneChild(conf, n, path, names[0]) + Over(conf, n, path, names[1..])
  }

  function Kept(n: Node, names: seq<string>): seq<string>
  {
    if names == [] then [] else (if names[0] in n.children then [names[0]] else []) + Kept(n, names[1..])
  }

  lemma {:induction false} KeptMembers(n: Node, names: seq<string>, x: string)
    ensures x in Kept(n, names) <==> x in names && x in n.children
    decreases |names|
  {
    if names != [] { KeptMembers(n, names[1..], x); }
  }

  lemma {:induction false} KeptIncreasing(n: Node, names: seq<string>)
    requires Increasing(names)
    ensures Increasing(Kept(n, names))
    decreases |names|
  {
    if names != [] {
      KeptIncreasing(n, names[1..]);
      var rest := Kept(n, names[1..]);
      forall j | 0 <= j < |rest| ensures Less(names[0], rest[j]) {
        KeptMembers(n, names[1..], rest[j]);
        var k :| 0 <= k < |names[1..]| && names[1..][k] == rest[j];
        assert names[k + 1] == rest[j];
      }
    }
  }

  lemma {:induction false} OverKept(conf: Conf, n: Node, path: string, names: seq<string>)
    ensures forall c :: c in Kept(n, names) ==> c in n.children
    ensures Over(conf, n, path, names) == ChildLines(conf, n, path, Kept(n, names))
    decreases |names|
  {
    hide TreeLines;
    forall c ensures c in Kept(n, names) ==> c in n.children { KeptMembers(n, names, c); }
    if names != [] {
      OverKept(conf, n, path, names[1..]);
      var kept := Kept(n, names);
      if names[0] in n.children {
        assert kept[0] == names[0] && kept[1..] == Kept(n, names[1..]);
      } else {
        assert kept == Kept(n, names[1..]);
        assert [] + Over(conf, n, path, names[1..]) == Over(conf, n, path, names[1..]);
      }
    }
  }

  /** The lines below a node, over any set of names that has all its children. */
  lemma ChildrenOver(conf: Conf, n: Node, path: string, all: set<string>)
    requires n.children.Keys <= all
    ensures ChildLines(conf, n, path, Sorted(n.children.Keys)) == Over(conf, n, path, Sorted(all))
  {
    hide ChildLines, Over, Sorted;
    var names := Sorted(all);
    OverKept(conf, n, path, names);
    KeptIncreasing(n, names);
    forall x ensures x in Kept(n, names) <==> x in Sorted(n.children.Keys) { KeptMembers(n, names, x); }
    SortedUnique(Kept(n, names), Sorted(n.children.Keys));
  }

  lemma {:induction false} SameOver(conf: Conf, a: Node, b: Node, path: string, names: seq<string>)
    requires forall c :: c in names ==> OneChild(conf, a, path, c) == OneChild(conf, b, path, c)
    ensures Over(conf, a, path, names) == Over(conf, b, path, names)
    decreases |names|
  {
    hide OneChild;
    if names != [] {
      assert names[0] in names;
      SameOver(conf, a, b, path, names[1..]);
    }
  }

  // ---------------------------------------------------------------- whole trees

  lemma SameBelow(a: Node, b: Node, c: string)
    requires SameEntries(a, b)
    ensures SameEntries(ChildOrEmpty(a, c), ChildOrEmpty(b, c))
  {
    forall p: Path, id: Authid | !IsRootUser(id)
      ensures UserAt(ChildOrEmpty(a, c), p, id) == UserAt(ChildOrEmpty(b, c), p, id)
    {
      EntriesBelow(a, c, p, id, "");
      EntriesBelow(b, c, p, id, "");
    }
    forall p: Path, g: string ensures GroupAt(ChildOrEmpty(a, c), p, g) == GroupAt(ChildOrEmpty(b, c), p, g) {
      EntriesBelow(a, c, p, ROOT, g);
      EntriesBelow(b, c, p, ROOT, g);
    }
  }

  lemma EntriesBelow(n: Node, c: string, p: Path, id: Authid, g: string)
    ensures UserAt(ChildOrEmpty(n, c), p, id) == UserAt(n, [c] + p, id)
    ensures GroupAt(ChildOrEmpty(n, c), p, g) == GroupAt(n, [c] + p, g)
  {
    FindCons(n, c, p);
    FindInEmpty(p);
  }

  lemma RootEntries(a: Node, b: Node)
    requires SameEntries(a, b)
    ensures SameHere(a, b)
  {
    forall id: Authid | !IsRootUser(id) ensures Lookup(a.users, id) == Lookup(b.users, id) {
      assert UserAt(a, [], id) == UserAt(b, [], id);
    }
    forall g: string ensures GroupLookup(a.groups, g) == GroupLookup(b.groups, g) {
      assert GroupAt(a, [], g) == GroupAt(b, [], g);
    }
  }

  lemma EmptyLines(conf: Conf, path: string)
    ensures TreeLines(conf, EMPTY, path) == []
  {
    forall r, pg ensures Holders(EMPTY, r, pg) == {} {}
    assert HeldRoles(EMPTY, false) == {} && HeldRoles(EMPTY, true) == {};
    assert HolderLists(EMPTY, false) == {} && HolderLists(EMPTY, true) == {};
  }

  /** A tree without entries writes nothing, whatever nodes it has. */
  lemma {:induction false} SilentTree(conf: Conf, n: Node, path: string)
    requires SameEntries(n, EMPTY)
    ensures TreeLines(conf, n, path) == []
    decreases n
  {
    hide SameEntries, NodeLines, Over, ChildLines, Sorted;
    EmptyLines(conf, path);
    RootEntries(n, EMPTY);
    SameNodeLines(conf, n, EMPTY, path);
    var names := Sorted(n.children.Keys);
    forall c | c in names ensures OneChild(conf, n, path, c) == OneChild(conf, EMPTY, path, c) {
      SameBelow(n, EMPTY, c);
      SilentTree(conf, n.children[c], path + "/" + c);
    }
    ChildrenOver(conf, n, path, n.children.Keys);
    ChildrenOver(conf, EMPTY, path, n.children.Keys);
    SameOver(conf, n, EMPTY, path, names);
  }

  /** Trees with the same entries have the same text. */
  lemma {:induction false} SameTreeLines(conf: Conf, a: Node, b: Node, path: string)
    requires SameEntries(a, b)
    ensures TreeLines(conf, a, path) == TreeLines(conf, b, path)
    decreases a
  {
    hide SameEntries, NodeLines, Over, ChildLines, Sorted;
    RootEntries(a, b);
    SameNodeLines(conf, a, b, path);
    var all := a.children.Keys + b.children.Keys;
    forall c | c in Sorted(all) ensures OneChild(conf, a, path, c) == OneChild(conf, b, path, c) {
      SameBelow(a, b, c);
      SameChild(conf, a, b, path, c);
    }
    ChildrenOver(conf, a, path, all);
    ChildrenOver(conf, b, path, all);
    SameOver(conf, a, b, path, Sorted(all));
  }

  lemma {:induction false} SameChild(conf: Conf, a: Node, b: Node, path: string, c: string)
    requires SameEntries(ChildOrEmpty(a, c), ChildOrEmpty(b, c))
    ensures OneChild(conf, a, path, c) == OneChild(conf, b, path, c)
    decreases a, 0
  {
    hide TreeLines;
    if c in a.children && c in b.children {
      SameTreeLines(conf, a.children[c], b.children[c], path + "/" + c);
    } else if c in a.children {
      SilentTree(conf, a.children[c], path + "/" + c);
    } else if c in b.children {
      SameEntriesSym(EMPTY, b.children[c]);
      SilentTree(conf, b.children[c], path + "/" + c);
    }
  }

  lemma SameEntriesSym(a: Node, b: Node)
    requires SameEntries(a, b)
    ensures SameEntries(b, a)
  {
    hide UserAt, GroupAt, IsRootUser;
  }

  /** Saving what was loaded from a saved tree gives the same text again. */
  lemma SaveCanonical(conf: Conf, o: Node)
    requires Storable(conf, o)
    ensures Load(conf, Save(conf, o)).Ok?
    ensures Save(conf, Load(conf, Save(conf, o)).value) == Save(conf, o)
  {
    hide Load, TreeLines, Storable, SameEntries;
    ReloadSame(conf, o);
    SameTreeLines(conf, Load(conf, Save(conf, o)).value, o, "");
  }
}
