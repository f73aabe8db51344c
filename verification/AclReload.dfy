/** Reloading a saved ACL tree whose names the text form can record: every entry comes back, except
    those of `root@pam`, and except the role with the empty name where it shares a line. */
module AclReload {
  import opened Wrappers
  import opened Text
  import opened Ordering
  import opened AuthId
  import opened AclTree
  import opened AclEdits
  import opened AclBelow
  import opened AclStore

  // ---------------------------------------------------------------- what the text can hold

  /** A part of a line between colons and commas, trimmed. */
  ghost predicate Piece(s: string)
  {
    ':' !in s && ',' !in s && '\n' !in s && Trimmed(s)
  }

  ghost predicate PlainText(s: string)
  {
    Piece(s) && s != []
  }

  ghost predicate RoleOk(conf: Conf, r: string)
  {
    r in conf.roles && Piece(r)
  }

  /** An id the text form can record: no comma, and not to be confused with a group. */
  predicate Recordable(id: Authid)
  {
    var s := PrintAuthid(id);
    ',' !in s && s != [] && s[0] != '@'
  }

  ghost predicate PathOk(p: Path)
  {
    ProperPath(p) && FreeOf(p, ':') && FreeOf(p, '\n')
  }

  /** Everyone but `root@pam` with an entry has a name the text form can record, and stands on a
      path it can record. */
  ghost predicate Named(t: Node)
  {
    (forall p: Path, id: Authid :: UserAt(t, p, id) != map[] && !IsRootUser(id) ==>
      ValidAuthid(id) && Recordable(id) && PathOk(p)) &&
    (forall p: Path, g: string :: GroupAt(t, p, g) != map[] ==> PlainText("@" + g) && PathOk(p))
  }

  /** The roles in these entries are known and have names the text form can record. */
  ghost predicate RolesNamed(conf: Conf, t: Node)
  {
    (forall p: Path, id: Authid, r: string :: r in UserAt(t, p, id) && !IsRootUser(id) ==> RoleOk(conf, r)) &&
    (forall p: Path, g: string, r: string :: r in GroupAt(t, p, g) ==> RoleOk(conf, r))
  }

  /** A tree every line of which can be read. Only entries that are written matter: nodes without any
      and the entries of `root@pam` may be anything. */
  ghost predicate Legible(conf: Conf, root: Node)
  {
    Sound(conf, root) && Named(root) && RolesNamed(conf, root)
  }

  /** A role list starts with the role of the empty name, if it has it, and that leaves no trace
      before another role. So it is lost where another role has the same holders. */
  ghost predicate Lost(n: Node, r: string, pg: bool)
  {
    r == "" && exists s :: s != "" && s in HeldRoles(n, pg) && Holders(n, s, pg) == Holders(n, "", pg)
  }

  lemma OnlyEmptyLost(n: Node, r: string, pg: bool)
    requires r != ""
    ensures !Lost(n, r, pg)
  {
  }

  /** Nothing is lost on any node. */
  ghost predicate Apart(root: Node)
  {
    forall p: Path, pg: bool :: Find(root, p).Some? ==> !Lost(Find(root, p).value, "", pg)
  }

  /** A tree the text form can hold. */
  ghost predicate Storable(conf: Conf, root: Node)
  {
    Legible(conf, root) && Apart(root)
  }

  /** The same, seen from one node. */
  ghost predicate NodeOk(conf: Conf, n: Node)
  {
    (forall id :: id in n.users && n.users[id] != map[] && !IsRootUser(id) ==> ValidAuthid(id) && Recordable(id)) &&
    (forall id, r :: id in n.users && r in n.users[id] && !IsRootUser(id) ==> RoleOk(conf, r)) &&
    (forall g :: g in n.groups && n.groups[g] != map[] ==> PlainText("@" + g)) &&
    (forall g, r :: g in n.groups && r in n.groups[g] ==> RoleOk(conf, r))
  }

  lemma LegibleNode(conf: Conf, o: Node, p: Path, n: Node)
    requires Legible(conf, o) && Find(o, p) == Some(n)
    ensures NodeOk(conf, n)
  {
    hide Sound, PathOk, ValidAuthid, Recordable, PlainText, RoleOk, Find;
    assert forall id :: id in n.users ==> UserAt(o, p, id) == n.users[id];
    assert forall g :: g in n.groups ==> GroupAt(o, p, g) == n.groups[g];
  }

  /** Where a line is written the path can be recorded. */
  lemma HolderPath(conf: Conf, o: Node, p: Path, n: Node, r: string, pg: bool)
    requires Legible(conf, o) && Find(o, p) == Some(n) && Holders(n, r, pg) != {}
    ensures PathOk(p)
  {
    hide Sound, PathOk, ValidAuthid, Recordable, PlainText, RoleOk, Find;
    var who :| who in Holders(n, r, pg);
    if id :| id in n.users && !IsRootUser(id) && r in n.users[id] && who == PrintAuthid(id) {
      assert UserAt(o, p, id) == n.users[id] != map[];
    } else {
      var g :| g in n.groups && r in n.groups[g] && who == "@" + g;
      assert GroupAt(o, p, g) == n.groups[g] != map[];
    }
  }

  // ---------------------------------------------------------------- entries by their text

  predicate Writable(who: string)
  {
    who != [] && (who[0] == '@' || ParseAuthid(who).Ok?)
  }

  /** The entry a text denotes on a path, group or id. */
  function WhoAt(root: Node, p: Path, who: string): RoleMap
  {
    if who != [] && who[0] == '@' then GroupAt(root, p, who[1..])
    else match ParseAuthid(who) case Err(_) => map[] case Ok(id) => UserAt(root, p, id)
  }

  /** The entry `m` on `p` as it is written. */
  ghost function Kept(root: Node, p: Path, m: RoleMap): RoleMap
  {
    if "" in m && Find(root, p).Some? && Lost(Find(root, p).value, "", m[""]) then m - {""} else m
  }

  /** What a reload restores: everything that is written, so nothing of `root@pam`. */
  ghost function Target(root: Node, p: Path, who: string): RoleMap
  {
    if who == "root@pam" then map[] else Kept(root, p, WhoAt(root, p, who))
  }

  ghost predicate SubMap(a: RoleMap, b: RoleMap)
  {
    forall r :: r in a ==> r in b && a[r] == b[r]
  }

  /** `t` holds no more than `o` wants. */
  ghost predicate Within(o: Node, t: Node)
  {
    forall p: Path, who: string :: Writable(who) ==> SubMap(WhoAt(t, p, who), Target(o, p, who))
  }

  ghost predicate Grows(t: Node, u: Node)
  {
    forall p: Path, who: string :: Writable(who) ==> WhoAt(t, p, who).Keys <= WhoAt(u, p, who).Keys
  }

  /** `t` holds all that `o` wants on the path `p`. */
  ghost predicate Done(o: Node, t: Node, p: Path)
  {
    forall who: string, r: string :: Writable(who) && r in Target(o, p, who) ==> r in WhoAt(t, p, who)
  }

  lemma GrowsKeepsDone(o: Node, t: Node, u: Node, p: Path)
    requires Done(o, t, p) && Grows(t, u)
    ensures Done(o, u, p)
  {
  }

  // ---------------------------------------------------------------- one assignment

  lemma AddRoleWithin(conf: Conf, m: RoleMap, full: RoleMap, role: string, pg: bool)
    requires SubMap(m, full) && NoAccessAlone(conf, full) && role in full && full[role] == pg
    ensures SubMap(AddRole(conf, m, role, pg), full)
    ensures m.Keys <= AddRole(conf, m, role, pg).Keys
    ensures role in AddRole(conf, m, role, pg)
  {
  }

  lemma AssignGroup(conf: Conf, t: Node, p: Path, g: string, role: string, pg: bool, q: Path, w: string)
    requires Writable(w)
    ensures WhoAt(ChangeOrInsert(conf, t, p, AddGroup(g, role, pg)), q, w) ==
            if q == p && w == ['@'] + g then AddRole(conf, GroupAt(t, p, g), role, pg) else WhoAt(t, q, w)
  {
    if w[0] == '@' {
      assert w == ['@'] + w[1..];
      InsertEntries(conf, t, p, AddGroup(g, role, pg), q, ROOT, w[1..]);
    } else {
      InsertEntries(conf, t, p, AddGroup(g, role, pg), q, ParseAuthid(w).value, "");
    }
  }

  lemma AssignUser(conf: Conf, t: Node, p: Path, who: string, role: string, pg: bool, q: Path, w: string)
    requires Writable(w) && ParseAuthid(who).Ok? && who != [] && who[0] != '@'
    ensures var id := ParseAuthid(who).value;
            WhoAt(ChangeOrInsert(conf, t, p, AddUser(id, role, pg)), q, w) ==
            if q == p && w == who then AddRole(conf, UserAt(t, p, id), role, pg) else WhoAt(t, q, w)
  {
    var id := ParseAuthid(who).value;
    if w[0] == '@' {
      InsertEntries(conf, t, p, AddUser(id, role, pg), q, ROOT, w[1..]);
    } else {
      PrintParseAuthid(who);
      PrintParseAuthid(w);
      InsertEntries(conf, t, p, AddUser(id, role, pg), q, ParseAuthid(w).value, "");
    }
  }

  lemma AssignEntries(conf: Conf, t: Node, p: Path, who: string, role: string, pg: bool, q: Path, w: string)
    requires Writable(who) && Writable(w) && role in conf.roles
    ensures Assign(conf, t, p, who, role, pg).Ok?
    ensures WhoAt(Assign(conf, t, p, who, role, pg).value, q, w) ==
            if q == p && w == who then AddRole(conf, WhoAt(t, p, who), role, pg) else WhoAt(t, q, w)
  {
    if who[0] == '@' {
      assert who == ['@'] + who[1..];
      AssignGroup(conf, t, p, who[1..], role, pg, q, w);
    } else {
      AssignUser(conf, t, p, who, role, pg, q, w);
    }
  }

  /** An assignment the original tree contains. */
  ghost predicate Legit(conf: Conf, o: Node, p: Path, who: string, role: string, pg: bool)
  {
    Writable(who) && role in conf.roles && role in Target(o, p, who) && Target(o, p, who)[role] == pg
  }

  lemma TargetAlone(conf: Conf, o: Node, p: Path, who: string)
    requires Sound(conf, o)
    ensures NoAccessAlone(conf, Target(o, p, who)) && NoAccessAlone(conf, WhoAt(o, p, who))
  {
    hide Lost;
  }

  lemma AssignProgress(conf: Conf, o: Node, t: Node, p: Path, who: string, role: string, pg: bool)
    requires Sound(conf, o) && Within(o, t) && Legit(conf, o, p, who, role, pg)
    ensures Assign(conf, t, p, who, role, pg).Ok?
    ensures var u := Assign(conf, t, p, who, role, pg).value;
            Within(o, u) && Grows(t, u) && role in WhoAt(u, p, who)
  {
    AssignEntries(conf, t, p, who, role, pg, p, who);
    TargetAlone(conf, o, p, who);
    AddRoleWithin(conf, WhoAt(t, p, who), Target(o, p, who), role, pg);
    var u := Assign(conf, t, p, who, role, pg).value;
    forall q: Path, w: string | Writable(w)
      ensures SubMap(WhoAt(u, q, w), Target(o, q, w)) && WhoAt(t, q, w).Keys <= WhoAt(u, q, w).Keys
    {
      AssignEntries(conf, t, p, who, role, pg, q, w);
    }
  }

  lemma {:induction false} RolesProgress(conf: Conf, o: Node, t: Node, p: Path, who: string, roles: seq<string>,
                                         pg: bool)
    requires Sound(conf, o) && Within(o, t)
    requires forall r :: r in roles ==> Legit(conf, o, p, who, r, pg)
    ensures AssignRoles(conf, t, p, who, roles, pg).Ok?
    ensures var u := AssignRoles(conf, t, p, who, roles, pg).value;
            Within(o, u) && Grows(t, u) &&
            (roles != [] ==> Writable(who) && forall r :: r in roles ==> r in WhoAt(u, p, who))
    decreases |roles|
  {
    if roles != [] {
      assert roles[0] in roles;
      AssignProgress(conf, o, t, p, who, roles[0], pg);
      var next := Assign(conf, t, p, who, roles[0], pg).value;
      RolesProgress(conf, o, next, p, who, roles[1..], pg);
      assert roles == [roles[0]] + roles[1..];
    }
  }

  lemma {:induction false} AllProgress(conf: Conf, o: Node, t: Node, p: Path, whos: seq<string>,
                                       roles: seq<string>, pg: bool)
    requires Sound(conf, o) && Within(o, t) && roles != []
    requires forall w, r :: w in whos && r in roles ==> Legit(conf, o, p, w, r, pg)
    ensures AssignAll(conf, t, p, whos, roles, pg).Ok?
    ensures var u := AssignAll(conf, t, p, whos, roles, pg).value;
            Within(o, u) && Grows(t, u) && forall w, r :: w in whos && r in roles ==> r in WhoAt(u, p, w)
    decreases |whos|
  {
    if whos != [] {
      assert whos[0] in whos && roles[0] in roles;
      RolesProgress(conf, o, t, p, whos[0], roles, pg);
      var next := AssignRoles(conf, t, p, whos[0], roles, pg).value;
      AllProgress(conf, o, next, p, whos[1..], roles, pg);
      assert whos == [whos[0]] + whos[1..];
      assert Writable(whos[0]) by { assert Legit(conf, o, p, whos[0], roles[0], pg); }
    }
  }

  // ---------------------------------------------------------------- the text of a line

  lemma {:induction false} CommaFoldIsJoin(acc: string, items: seq<string>)
    requires acc != []
    ensures CommaFold(acc, items) == Join([acc] + items, ',')
    decreases |items|
  {
    if items == [] {
      assert [acc] + items == [acc];
    } else {
      var next := acc + [','] + items[0];
      CommaFoldIsJoin(next, items[1..]);
      JoinMerge(acc, items[0], items[1..]);
      assert [acc, items[0]] + items[1..] == [acc] + items;
    }
  }

  lemma JoinMerge(a: string, b: string, rest: seq<string>)
    ensures Join([a + [','] + b] + rest, ',') == Join([a, b] + rest, ',')
  {
    assert ([a + [','] + b] + rest)[1..] == rest;
    assert ([a, b] + rest)[1..] == [b] + rest;
    assert ([b] + rest)[1..] == rest;
    if rest != [] {
      AppendAssoc(a + [','], b + [','], Join(rest, ','));
      AppendAssoc(a + [','], b, [',']);
    }
  }

  lemma ListText(items: seq<string>)
    requires items != [] && items[0] != []
    ensures CommaFold("", items) == Join(items, ',')
  {
    assert CommaFold("", items) == CommaFold(items[0], items[1..]) by { assert "" + items[0] == items[0]; }
    CommaFoldIsJoin(items[0], items[1..]);
    assert [items[0]] + items[1..] == items;
  }

  lemma {:induction false} TrimAllTrimmed(parts: seq<string>)
    requires forall k :: 0 <= k < |parts| ==> Trimmed(parts[k])
    ensures TrimAll(parts) == parts
    decreases |parts|
  {
    if parts != [] {
      TrimTrimmed(parts[0]);
      TrimAllTrimmed(parts[1..]);
    }
  }

  ghost predicate AllPlain(items: seq<string>)
  {
    forall k :: 0 <= k < |items| ==> PlainText(items[k])
  }

  /** Plain items, or the empty item alone. */
  ghost predicate ListOk(items: seq<string>)
  {
    items != [] && (AllPlain(items) || items == [""])
  }

  /** A comma separated list of plain items reads back as these items, and so does an empty one. */
  lemma ListReadsBack(items: seq<string>)
    requires ListOk(items)
    ensures CommaParts(CommaFold("", items)) == items
    ensures ':' !in CommaFold("", items) && '\n' !in CommaFold("", items)
  {
    if items == [""] {
      assert [""][1..] == [] && "" + "" == "";
      assert CommaFold("", [""]) == CommaFold("", []);
      assert Split("", ',') == [""];
      TrimAllTrimmed([""]);
      return;
    }
    ListText(items);
    SplitJoin(items, ',');
    TrimAllTrimmed(items);
    JoinFreeOf(items, ',', ':');
    JoinFreeOf(items, ',', '\n');
  }

  lemma {:induction false} NonEmptyIdle(p: Path)
    requires ProperPath(p)
    ensures NonEmpty(p) == p
    decreases |p|
  {
    if p != [] { NonEmptyIdle(p[1..]); }
  }

  function WrittenPath(p: Path): string
  {
    if p == [] then "/" else PathText(p)
  }

  lemma WrittenPathReadsBack(p: Path)
    requires PathOk(p)
    ensures SplitAclPath(WrittenPath(p)) == p
    ensures ':' !in WrittenPath(p) && '\n' !in WrittenPath(p)
  {
    if p == [] {
      SplitAppend("", '/', "");
      assert "" + ['/'] + "" == "/";
      assert Split("", '/') == [""];
      assert NonEmpty(["", ""]) == NonEmpty(["", ""][1..]);
      assert ["", ""][1..] == [""] && [""][1..] == [];
    } else {
      SplitPathText("", p);
      assert "" + PathText(p) == PathText(p);
      assert Split("", '/') == [""];
      assert ([""] + p)[1..] == p;
      NonEmptyIdle(p);
      PathTextJoin(p);
      JoinFreeOf(p, '/', ':');
      JoinFreeOf(p, '/', '\n');
    }
  }

  function Last(s: string): char
    requires s != []
  {
    s[|s| - 1]
  }

  lemma {:induction false} JoinEnds(parts: seq<string>, sep: char)
    requires |parts| >= 1 && parts[0] != [] && parts[|parts| - 1] != []
    ensures Join(parts, sep) != [] && Join(parts, sep)[0] == parts[0][0]
    ensures Last(Join(parts, sep)) == Last(parts[|parts| - 1])
    decreases |parts|
  {
    if |parts| == 2 {
      assert parts[1..] == [parts[1]];
    } else if |parts| > 2 {
      JoinEnds([parts[0]] + parts[2..], sep);
      JoinTail(parts, sep);
    }
  }

  lemma JoinTail(parts: seq<string>, sep: char)
    requires |parts| > 2
    ensures Join(parts, sep) == parts[0] + [sep] + (parts[1] + [sep] + Join(parts[2..], sep))
    ensures Join([parts[0]] + parts[2..], sep) == parts[0] + [sep] + Join(parts[2..], sep)
  {
    assert parts[1..][1..] == parts[2..];
    assert ([parts[0]] + parts[2..])[1..] == parts[2..];
  }

  lemma ItemsParse(conf: Conf, t: Node, pg: bool, items: seq<string>, p: Path, whos: seq<string>, roles: seq<string>)
    requires |items| == 5 && items[0] == "acl" && items[1] == Flag(pg) && FreeOf(items, ':')
    requires SplitAclPath(items[2]) == p && CommaParts(items[3]) == whos && CommaParts(items[4]) == roles
    ensures ParseLine(conf, t, Join(items, ':')) == AssignAll(conf, t, p, whos, roles, pg)
  {
    SplitJoin(items, ':');
  }

  function LineItems(pg: bool, p: Path, whos: seq<string>, roles: seq<string>): seq<string>
  {
    ["acl", Flag(pg), WrittenPath(p), CommaFold("", whos), CommaFold("", roles)]
  }

  lemma LineItemsFree(pg: bool, p: Path, whos: seq<string>, roles: seq<string>)
    requires PathOk(p) && whos != [] && AllPlain(whos) && ListOk(roles)
    ensures FreeOf(LineItems(pg, p, whos, roles), ':') && FreeOf(LineItems(pg, p, whos, roles), '\n')
  {
    ListReadsBack(whos);
    ListReadsBack(roles);
    WrittenPathReadsBack(p);
    FiveFree("acl", Flag(pg), WrittenPath(p), CommaFold("", whos), CommaFold("", roles), ':');
    FiveFree("acl", Flag(pg), WrittenPath(p), CommaFold("", whos), CommaFold("", roles), '\n');
  }

  lemma FiveFree(s0: string, s1: string, s2: string, s3: string, s4: string, c: char)
    requires c !in s0 && c !in s1 && c !in s2 && c !in s3 && c !in s4
    ensures FreeOf([s0, s1, s2, s3, s4], c)
  {
  }

  /** A line the parser takes apart into the parts it was made of. */
  lemma LineReadsBack(conf: Conf, t: Node, pg: bool, p: Path, whos: seq<string>, roles: seq<string>)
    requires PathOk(p) && whos != [] && AllPlain(whos) && ListOk(roles)
    ensures var l := AclLine(pg, PathText(p), CommaFold("", whos), CommaFold("", roles));
            IsLine(l) && Trim(l) == l && l != [] && ParseLine(conf, t, l) == AssignAll(conf, t, p, whos, roles, pg)
  {
    var items := LineItems(pg, p, whos, roles);
    LineItemsFree(pg, p, whos, roles);
    assert AclLine(pg, PathText(p), items[3], items[4]) == Join(items, ':');
    LineShape(items, roles);
    assert ParseLine(conf, t, Join(items, ':')) == AssignAll(conf, t, p, whos, roles, pg) by {
      ListReadsBack(whos);
      ListReadsBack(roles);
      WrittenPathReadsBack(p);
      ItemsParse(conf, t, pg, items, p, whos, roles);
    }
  }

  /** A line whose last part is empty ends in a colon. */
  lemma OpenLine(parts: seq<string>)
    requires |parts| == 4 && parts[0] == "acl"
    ensures var l := Join(parts + [""], ':'); l != [] && Trim(l) == l && StripCr(l) == l
  {
    var l := Join(parts + [""], ':');
    JoinLast(parts, ':', "");
    assert l[0] == 'a' && l[|l| - 1] == ':';
    TrimTrimmed(l);
  }

  lemma LineShape(items: seq<string>, roles: seq<string>)
    requires |items| == 5 && items[0] == "acl" && items[4] == CommaFold("", roles)
    requires ListOk(roles) && FreeOf(items, '\n')
    ensures var l := Join(items, ':'); IsLine(l) && Trim(l) == l && l != []
  {
    JoinFreeOf(items, ':', '\n');
    if roles == [""] {
      assert [""][1..] == [] && "" + "" == "";
      assert CommaFold("", [""]) == CommaFold("", []);
      OpenLine(items[..4]);
      assert items == items[..4] + [""];
    } else {
      ListText(roles);
      JoinEnds(roles, ',');
      JoinEnds(items, ':');
      TrimTrimmed(Join(items, ':'));
    }
  }

  // ---------------------------------------------------------------- the lines of a node

  lemma {:induction false} ParseAppend(conf: Conf, t: Node, a: seq<string>, b: seq<string>)
    ensures ParseLines(conf, t, a + b) ==
            (match ParseLines(conf, t, a) case Err(e) => Err(e) case Ok(u) => ParseLines(conf, u, b))
    decreases |a|
  {
    if a == [] {
      assert a + b == b;
    } else {
      assert (a + b)[1..] == a[1..] + b;
      if Trim(a[0]) == [] {
        ParseAppend(conf, t, a[1..], b);
      } else {
        match ParseLine(conf, t, Trim(a[0]))
        case Err(_) =>
        case Ok(next) => ParseAppend(conf, next, a[1..], b);
      }
    }
  }

  /** The holders of a role on a node are the texts whose entry contains it. */
  lemma HoldersHaveEntries(conf: Conf, o: Node, p: Path, n: Node, r: string, pg: bool, who: string)
    requires Find(o, p) == Some(n) && NodeOk(conf, n)
    ensures who in Holders(n, r, pg) <==>
            Writable(who) && who != "root@pam" && r in WhoAt(o, p, who) && WhoAt(o, p, who)[r] == pg
  {
    if who in Holders(n, r, pg) {
      if id :| id in n.users && !IsRootUser(id) && r in n.users[id] && n.users[id][r] == pg && who == PrintAuthid(id) {
        assert n.users[id] != map[];
        ParsePrintAuthid(id);
        RootText(id);
      } else {
        var g :| g in n.groups && r in n.groups[g] && n.groups[g][r] == pg && who == "@" + g;
        assert who[1..] == g;
      }
    } else if Writable(who) && r in WhoAt(o, p, who) {
      if who[0] == '@' {
        assert who == "@" + who[1..];
      } else {
        PrintParseAuthid(who);
        RootText(ParseAuthid(who).value);
      }
    }
  }

  /** Of these the lost ones are not written, and all others are wanted. */
  lemma HoldersAreEntries(conf: Conf, o: Node, p: Path, n: Node, r: string, pg: bool, who: string)
    requires Find(o, p) == Some(n) && NodeOk(conf, n)
    ensures who in Holders(n, r, pg) && !Lost(n, r, pg) <==>
            Writable(who) && r in Target(o, p, who) && Target(o, p, who)[r] == pg
  {
    hide NodeOk, Holders, Find, WhoAt, Writable, Lost;
    HoldersHaveEntries(conf, o, p, n, r, pg, who);
    if r != "" { OnlyEmptyLost(n, r, pg); }
  }

  lemma RootText(id: Authid)
    requires ValidAuthid(id)
    ensures IsRootUser(id) <==> PrintAuthid(id) == "root@pam"
  {
    if PrintAuthid(id) == "root@pam" {
      ParsePrintAuthid(id);
      RootValid();
      ParsePrintAuthid(ROOT);
    }
  }

  lemma HoldersPlain(conf: Conf, n: Node, r: string, pg: bool)
    requires NodeOk(conf, n)
    ensures forall who :: who in Holders(n, r, pg) ==> PlainText(who)
  {
    forall who | who in Holders(n, r, pg) ensures PlainText(who) {
      if id :| id in n.users && !IsRootUser(id) && r in n.users[id] && who == PrintAuthid(id) {
        assert n.users[id] != map[];
        IdTextPlain(id);
      } else {
        var g :| g in n.groups && r in n.groups[g] && who == "@" + g;
        assert n.groups[g] != map[];
      }
    }
  }

  lemma IdTextPlain(id: Authid)
    requires ValidAuthid(id) && Recordable(id)
    ensures PlainText(PrintAuthid(id))
  {
    var name, realm := UseridParts(id.user);
    var s := PrintAuthid(id);
    forall k | 0 <= k < |s| ensures NameChar(s[k]) {
      if k < |name| { assert s[k] == name[k]; }
      else if |name| < k < |id.user.data| { assert s[k] == realm[k - |name| - 1]; }
      else if k > |id.user.data| { assert s[k] == id.token.value[k - |id.user.data| - 1]; }
    }
  }

  /** `t` holds, on the path `p`, the roles in `rs` of everyone who holds them with flag `pg`. */
  ghost predicate RolesIn(o: Node, t: Node, p: Path, n: Node, pg: bool, rs: set<string>)
  {
    forall r, who :: r in rs && who in Holders(n, r, pg) ==> r in WhoAt(t, p, who)
  }

  /** The step a list of lines makes from `t` to `u` towards `o`. */
  ghost predicate Advances(conf: Conf, o: Node, t: Node, ls: seq<string>)
  {
    ParseLines(conf, t, ls).Ok? && Within(o, ParseLines(conf, t, ls).value) && Grows(t, ParseLines(conf, t, ls).value)
  }

  ghost predicate GoodLines(ls: seq<string>)
  {
    forall k :: 0 <= k < |ls| ==> IsLine(ls[k])
  }

  lemma HolderListReadsBack(conf: Conf, n: Node, r: string, pg: bool)
    requires NodeOk(conf, n) && r in HeldRoles(n, pg)
    ensures AllPlain(Sorted(Holders(n, r, pg))) && Sorted(Holders(n, r, pg)) != []
    ensures CommaParts(HolderList(n, r, pg)) == Sorted(Holders(n, r, pg))
  {
    var hs := Sorted(Holders(n, r, pg));
    HoldersPlain(conf, n, r, pg);
    assert hs != [] by { var who :| who in Holders(n, r, pg); assert who in hs; }
    hide NodeOk, Holders, HeldRoles, Sorted, PlainText, CommaParts, CommaFold;
    forall k | 0 <= k < |hs| ensures PlainText(hs[k]) { assert hs[k] in hs; }
    ListReadsBack(hs);
  }

  lemma SameListSameHolders(conf: Conf, n: Node, r: string, s: string, pg: bool)
    requires NodeOk(conf, n) && r in HeldRoles(n, pg) && s in HeldRoles(n, pg)
    requires HolderList(n, r, pg) == HolderList(n, s, pg)
    ensures Holders(n, r, pg) == Holders(n, s, pg)
  {
    HolderListReadsBack(conf, n, r, pg);
    HolderListReadsBack(conf, n, s, pg);
    SortedInjective(Holders(n, r, pg), Holders(n, s, pg));
  }

  /** No other role has the holders of 'no access'. */
  lemma NoAccessHolders(conf: Conf, o: Node, p: Path, n: Node, pg: bool, r: string, na: string, who: string)
    requires Sound(conf, o) && NodeOk(conf, n) && Find(o, p) == Some(n) && conf.noAccess == Some(na)
    requires who in Holders(n, r, pg) && who in Holders(n, na, pg)
    ensures r == na
  {
    HoldersHaveEntries(conf, o, p, n, r, pg, who);
    HoldersHaveEntries(conf, o, p, n, na, pg, who);
    TargetAlone(conf, o, p, who);
  }

  lemma NoAccessSharesNoList(conf: Conf, o: Node, p: Path, n: Node, pg: bool, r: string, na: string)
    requires Sound(conf, o) && NodeOk(conf, n) && Find(o, p) == Some(n) && conf.noAccess == Some(na)
    requires r in HeldRoles(n, pg) && na in HeldRoles(n, pg)
    requires HolderList(n, r, pg) == HolderList(n, na, pg)
    ensures r == na
  {
    SameListSameHolders(conf, n, r, na, pg);
    assert Holders(n, na, pg) != {};
    var who :| who in Holders(n, na, pg);
    NoAccessHolders(conf, o, p, n, pg, r, na, who);
  }

  lemma RoleListIsFold(conf: Conf, rs: set<string>)
    requires rs != {} && (conf.noAccess.Some? && conf.noAccess.value in rs ==> rs == {conf.noAccess.value})
    ensures Sorted(rs) != [] && RoleList(conf, rs) == CommaFold("", Sorted(rs))
  {
    assert |Sorted(rs)| == |rs|;
    if conf.noAccess.Some? && conf.noAccess.value in rs {
      var na := conf.noAccess.value;
      SortedSingle(na);
      assert [na][1..] == [] && "" + na == na;
    }
  }

  /** The roles a line tells, of those it is written for. */
  ghost function ToldRoles(n: Node, pg: bool, list: string): set<string>
  {
    set r | r in RolesWithList(n, pg, list) && !Lost(n, r, pg)
  }

  /** Of several roles with the same holders the empty one is lost. */
  lemma ToldOfList(conf: Conf, n: Node, pg: bool, list: string)
    requires NodeOk(conf, n)
    ensures var rs := RolesWithList(n, pg, list);
            ToldRoles(n, pg, list) == if rs == {""} then rs else rs - {""}
  {
    hide NodeOk, Holders, HolderList;
    var rs := RolesWithList(n, pg, list);
    if "" in rs {
      if s :| s in rs && s != "" {
        SameListSameHolders(conf, n, s, "", pg);
      } else {
        forall s | s in HeldRoles(n, pg) && Holders(n, s, pg) == Holders(n, "", pg) ensures s == "" {
          SameHoldersSameList(n, s, "", pg);
          assert s in rs;
        }
      }
    }
  }

  lemma SameHoldersSameList(n: Node, r: string, s: string, pg: bool)
    requires Holders(n, r, pg) == Holders(n, s, pg)
    ensures HolderList(n, r, pg) == HolderList(n, s, pg)
  {
  }

  lemma ToldRolesOk(conf: Conf, n: Node, pg: bool, list: string)
    requires NodeOk(conf, n) && list in HolderLists(n, pg)
    ensures RolesWithList(n, pg, list) != {} && ListOk(Sorted(ToldRoles(n, pg, list)))
  {
    hide NodeOk, HolderList, Lost, PlainText, ListOk;
    var rs, told := RolesWithList(n, pg, list), ToldRoles(n, pg, list);
    ToldOfList(conf, n, pg, list);
    var r0 :| r0 in HeldRoles(n, pg) && HolderList(n, r0, pg) == list;
    assert r0 in rs;
    forall r | r in told && r != "" ensures PlainText(r) { HeldRolePlain(conf, n, r, pg); }
    hide ToldRoles, RolesWithList;
    ListOfSet(rs, told);
  }

  lemma ListOfSet(rs: set<string>, told: set<string>)
    requires rs != {} && told == (if rs == {""} then rs else rs - {""})
    requires forall r :: r in told && r != "" ==> PlainText(r)
    ensures ListOk(Sorted(told))
  {
    hide PlainText;
    if rs == {""} {
      SortedSingle("");
    } else {
      var xs := Sorted(told);
      var r :| r in rs && r != "";
      assert r in xs;
      forall k | 0 <= k < |xs| ensures PlainText(xs[k]) { assert xs[k] in xs; }
    }
  }

  lemma HeldRolePlain(conf: Conf, n: Node, r: string, pg: bool)
    requires NodeOk(conf, n) && r in HeldRoles(n, pg) && r != ""
    ensures PlainText(r)
  {
    HeldRoleOk(conf, n, r, pg);
  }

  /** The empty text comes first. */
  lemma EmptyFirst(rs: set<string>)
    requires "" in rs
    ensures Sorted(rs) == [""] + Sorted(rs - {""})
  {
    var m := Least(rs);
    assert m == "" by { assert !Less(m, ""); }
    hide Less, Increasing;
  }

  /** The empty role leaves no trace in a list. */
  lemma FoldSkipsEmpty(items: seq<string>)
    ensures CommaFold("", [""] + items) == CommaFold("", items)
  {
    assert ([""] + items)[1..] == items && "" + "" == "";
  }

  lemma RoleListText(conf: Conf, rs: set<string>, told: set<string>)
    requires rs != {} && told == (if rs == {""} then rs else rs - {""})
    requires conf.noAccess.Some? && conf.noAccess.value in rs ==> rs == {conf.noAccess.value}
    ensures RoleList(conf, rs) == CommaFold("", Sorted(told))
  {
    hide Sorted, RoleList;
    RoleListIsFold(conf, rs);
    if rs != {""} {
      if "" in rs {
        EmptyFirst(rs);
        FoldSkipsEmpty(Sorted(rs - {""}));
      } else {
        assert rs - {""} == rs;
      }
    }
  }

  /** The text of the roles on one line; 'no access' stands alone on its line. */
  lemma LineRoles(conf: Conf, o: Node, p: Path, n: Node, pg: bool, list: string)
    requires Sound(conf, o) && NodeOk(conf, n) && Find(o, p) == Some(n) && list in HolderLists(n, pg)
    ensures ListOk(Sorted(ToldRoles(n, pg, list)))
    ensures RoleList(conf, RolesWithList(n, pg, list)) == CommaFold("", Sorted(ToldRoles(n, pg, list)))
  {
    hide NodeOk, HolderLists, RolesWithList, ToldRoles, ListOk, Find, Sound, Sorted, RoleList;
    var rs := RolesWithList(n, pg, list);
    ToldRolesOk(conf, n, pg, list);
    ToldOfList(conf, n, pg, list);
    if conf.noAccess.Some? && conf.noAccess.value in rs {
      NoAccessLine(conf, o, p, n, pg, list, conf.noAccess.value);
    }
    RoleListText(conf, rs, ToldRoles(n, pg, list));
  }

  lemma NoAccessLine(conf: Conf, o: Node, p: Path, n: Node, pg: bool, list: string, na: string)
    requires Sound(conf, o) && NodeOk(conf, n) && Find(o, p) == Some(n) && conf.noAccess == Some(na)
    requires na in RolesWithList(n, pg, list)
    ensures RolesWithList(n, pg, list) == {na}
  {
    forall r | r in RolesWithList(n, pg, list) ensures r == na {
      NoAccessSharesNoList(conf, o, p, n, pg, r, na);
    }
  }

  lemma HeldRoleOk(conf: Conf, n: Node, r: string, pg: bool)
    requires NodeOk(conf, n) && r in HeldRoles(n, pg)
    ensures RoleOk(conf, r)
  {
    var who :| who in Holders(n, r, pg);
    if id :| id in n.users && !IsRootUser(id) && r in n.users[id] && who == PrintAuthid(id) {
    } else {
      var g :| g in n.groups && r in n.groups[g] && who == "@" + g;
    }
  }

  /** Parsing one written line restores the roles it tells for all their holders. */
  lemma LineAdvances(conf: Conf, o: Node, t: Node, p: Path, n: Node, pg: bool, list: string)
    requires Legible(conf, o) && Find(o, p) == Some(n) && list in HolderLists(n, pg) && Within(o, t)
    ensures var l := AclLine(pg, PathText(p), list, RoleList(conf, RolesWithList(n, pg, list)));
            IsLine(l) && Advances(conf, o, t, [l]) &&
            RolesIn(o, ParseLines(conf, t, [l]).value, p, n, pg, ToldRoles(n, pg, list))
  {
    LegibleNode(conf, o, p, n);
    var rs := ToldRoles(n, pg, list);
    LineRoles(conf, o, p, n, pg, list);
    var r0 :| r0 in HeldRoles(n, pg) && HolderList(n, r0, pg) == list;
    HolderPath(conf, o, p, n, r0, pg);
    HolderListReadsBack(conf, n, r0, pg);
    var whos, roles := Sorted(Holders(n, r0, pg)), Sorted(rs);
    LineReadsBack(conf, t, pg, p, whos, roles);
    forall w, r | w in whos && r in roles ensures Legit(conf, o, p, w, r, pg) {
      SameListSameHolders(conf, n, r, r0, pg);
      HoldersAreEntries(conf, o, p, n, r, pg, w);
      HeldRoleOk(conf, n, r, pg);
    }
    AllProgress(conf, o, t, p, whos, roles, pg);
    var l := AclLine(pg, PathText(p), list, RoleList(conf, RolesWithList(n, pg, list)));
    OneLine(conf, t, l);
    var u := AssignAll(conf, t, p, whos, roles, pg).value;
    forall r, w | r in rs && w in Holders(n, r, pg) ensures r in WhoAt(u, p, w) {
      SameListSameHolders(conf, n, r, r0, pg);
      assert r in roles && w in whos;
    }
  }

  lemma OneLine(conf: Conf, t: Node, l: string)
    requires Trim(l) == l && l != []
    ensures ParseLines(conf, t, [l]) == ParseLine(conf, t, l)
  {
    assert [l][1..] == [];
  }

  lemma RolesInGrows(conf: Conf, o: Node, t: Node, u: Node, p: Path, n: Node, pg: bool, rs: set<string>)
    requires Find(o, p) == Some(n) && NodeOk(conf, n) && RolesIn(o, t, p, n, pg, rs) && Grows(t, u)
    ensures RolesIn(o, u, p, n, pg, rs)
  {
    forall r, who | r in rs && who in Holders(n, r, pg) ensures r in WhoAt(u, p, who) {
      HoldersHaveEntries(conf, o, p, n, r, pg, who);
    }
  }

  lemma AdvancesAppend(conf: Conf, o: Node, t: Node, a: seq<string>, b: seq<string>)
    requires Advances(conf, o, t, a) && Advances(conf, o, ParseLines(conf, t, a).value, b)
    ensures Advances(conf, o, t, a + b) && Grows(ParseLines(conf, t, a).value, ParseLines(conf, t, a + b).value)
    ensures ParseLines(conf, t, a + b) == ParseLines(conf, ParseLines(conf, t, a).value, b)
  {
    ParseAppend(conf, t, a, b);
  }

  lemma {:induction false} ListsAdvance(conf: Conf, o: Node, t: Node, p: Path, n: Node, pg: bool, lists: seq<string>)
    requires Legible(conf, o) && Find(o, p) == Some(n) && Within(o, t)
    requires forall list :: list in lists ==> list in HolderLists(n, pg)
    ensures var ls := ListLines(conf, n, PathText(p), pg, lists);
            GoodLines(ls) && Advances(conf, o, t, ls) &&
            forall list :: list in lists ==>
              RolesIn(o, ParseLines(conf, t, ls).value, p, n, pg, ToldRoles(n, pg, list))
    decreases |lists|
  {
    hide Within, Grows, Find, HolderLists, RolesWithList, ToldRoles, RoleList, RolesIn, PathText, AclLine, NodeOk,
         Legible, Advances;
    LegibleNode(conf, o, p, n);
    if lists != [] {
      var l := AclLine(pg, PathText(p), lists[0], RoleList(conf, RolesWithList(n, pg, lists[0])));
      assert lists[0] in lists;
      LineAdvances(conf, o, t, p, n, pg, lists[0]);
      var next := ParseLines(conf, t, [l]).value;
      ListsAdvance(conf, o, next, p, n, pg, lists[1..]);
      var rest := ListLines(conf, n, PathText(p), pg, lists[1..]);
      AdvancesAppend(conf, o, t, [l], rest);
      RolesInGrows(conf, o, next, ParseLines(conf, next, rest).value, p, n, pg, ToldRoles(n, pg, lists[0]));
    } else {
      AdvancesNothing(conf, o, t);
    }
  }

  lemma AdvancesNothing(conf: Conf, o: Node, t: Node)
    requires Within(o, t)
    ensures Advances(conf, o, t, [])
  {
  }

  ghost predicate FlagDone(o: Node, t: Node, p: Path, pg: bool)
  {
    forall who: string, r: string :: Writable(who) && r in Target(o, p, who) && Target(o, p, who)[r] == pg ==>
      r in WhoAt(t, p, who)
  }

  /** The lines of one flag restore all roles with that flag on a node. */
  lemma FlagAdvances(conf: Conf, o: Node, t: Node, p: Path, n: Node, pg: bool)
    requires Legible(conf, o) && Find(o, p) == Some(n) && Within(o, t)
    ensures var ls := ListLines(conf, n, PathText(p), pg, Sorted(HolderLists(n, pg)));
            GoodLines(ls) && Advances(conf, o, t, ls) && FlagDone(o, ParseLines(conf, t, ls).value, p, pg)
  {
    LegibleNode(conf, o, p, n);
    var lists := Sorted(HolderLists(n, pg));
    ListsAdvance(conf, o, t, p, n, pg, lists);
    var u := ParseLines(conf, t, ListLines(conf, n, PathText(p), pg, lists)).value;
    forall who: string, r: string | Writable(who) && r in Target(o, p, who) && Target(o, p, who)[r] == pg
      ensures r in WhoAt(u, p, who)
    {
      HoldersAreEntries(conf, o, p, n, r, pg, who);
      HolderHasRole(n, r, pg, who);
      var list := HolderList(n, r, pg);
      assert list in lists;
      assert RolesIn(o, u, p, n, pg, ToldRoles(n, pg, list));
    }
  }

  lemma BothFlagsDone(o: Node, t: Node, u: Node, p: Path)
    requires FlagDone(o, t, p, false) && Grows(t, u) && FlagDone(o, u, p, true)
    ensures Done(o, u, p)
  {
  }

  lemma NodeAdvances(conf: Conf, o: Node, t: Node, p: Path, n: Node)
    requires Legible(conf, o) && Find(o, p) == Some(n) && Within(o, t)
    ensures var ls := NodeLines(conf, n, PathText(p));
            GoodLines(ls) && Advances(conf, o, t, ls) && Done(o, ParseLines(conf, t, ls).value, p)
  {
    hide Within, Grows, Find, HolderLists, Sorted, ListLines, PathText, NodeOk, PathOk, Sound, Done, FlagDone,
         ParseLines, Legible;
    var l0 := ListLines(conf, n, PathText(p), false, Sorted(HolderLists(n, false)));
    var l1 := ListLines(conf, n, PathText(p), true, Sorted(HolderLists(n, true)));
    FlagAdvances(conf, o, t, p, n, false);
    var next := ParseLines(conf, t, l0).value;
    FlagAdvances(conf, o, next, p, n, true);
    AdvancesAppend(conf, o, t, l0, l1);
    BothFlagsDone(o, next, ParseLines(conf, next, l1).value, p);
  }

  lemma {:induction false} PathTextSnoc(p: Path, c: string)
    ensures PathText(p + [c]) == PathText(p) + "/" + c
    decreases |p|
  {
    if p == [] {
      assert [c][1..] == [] && p + [c] == [c];
      assert PathText([c]) == "/" + c + "";
    } else {
      assert (p + [c])[1..] == p[1..] + [c];
      PathTextSnoc(p[1..], c);
      AppendAssoc("/" + p[0], PathText(p[1..]), "/");
      AppendAssoc("/" + p[0], PathText(p[1..]) + "/", c);
    }
  }

  // ---------------------------------------------------------------- the whole tree

  lemma {:induction false} TreeAdvances(conf: Conf, o: Node, t: Node, p: Path, n: Node)
    requires Legible(conf, o) && Find(o, p) == Some(n) && Within(o, t)
    ensures var ls := TreeLines(conf, n, PathText(p));
            GoodLines(ls) && Advances(conf, o, t, ls) &&
            forall q: Path :: Find(n, q).Some? ==> Done(o, ParseLines(conf, t, ls).value, p + q)
    decreases n, 1
  {
    hide Within, Grows, NodeLines, Sorted, ChildLines, PathText, NodeOk, PathOk, Sound, Done, ParseLines, Legible;
    var own := NodeLines(conf, n, PathText(p));
    NodeAdvances(conf, o, t, p, n);
    var next := ParseLines(conf, t, own).value;
    var names := Sorted(n.children.Keys);
    var below := ChildLines(conf, n, PathText(p), names);
    ChildrenAdvance(conf, o, next, p, n, names);
    AdvancesAppend(conf, o, t, own, below);
    var u := ParseLines(conf, next, below).value;
    forall q: Path | Find(n, q).Some? ensures Done(o, u, p + q) {
      if q == [] {
        assert p + q == p;
        GrowsKeepsDone(o, next, u, p);
      } else {
        assert q[0] in names;
      }
    }
  }

  lemma {:induction false} ChildrenAdvance(conf: Conf, o: Node, t: Node, p: Path, n: Node, names: seq<string>)
    requires Legible(conf, o) && Find(o, p) == Some(n) && Within(o, t)
    requires forall c :: c in names ==> c in n.children
    ensures var ls := ChildLines(conf, n, PathText(p), names);
            GoodLines(ls) && Advances(conf, o, t, ls) &&
            forall q: Path :: q != [] && q[0] in names && Find(n, q).Some? ==>
              Done(o, ParseLines(conf, t, ls).value, p + q)
    decreases n, 0, |names|
  {
    if names != [] {
      var c := names[0];
      var child := n.children[c];
      FindAppend(o, p, [c]);
      FindCons(n, c, []);
      PathTextSnoc(p, c);
      TreeAdvances(conf, o, t, p + [c], child);
      var first := TreeLines(conf, child, PathText(p) + "/" + c);
      var next := ParseLines(conf, t, first).value;
      ChildrenAdvance(conf, o, next, p, n, names[1..]);
      var rest := ChildLines(conf, n, PathText(p), names[1..]);
      AdvancesAppend(conf, o, t, first, rest);
      var u := ParseLines(conf, next, rest).value;
      forall q: Path | q != [] && q[0] in names && Find(n, q).Some? ensures Done(o, u, p + q) {
        ChildDone(o, next, u, p, n, names, q);
      }
    }
  }

  lemma ChildDone(o: Node, next: Node, u: Node, p: Path, n: Node, names: seq<string>, q: Path)
    requires names != [] && names[0] in n.children && q != [] && q[0] in names && Find(n, q).Some? && Grows(next, u)
    requires forall r: Path :: Find(n.children[names[0]], r).Some? ==> Done(o, next, p + [names[0]] + r)
    requires forall r: Path :: r != [] && r[0] in names[1..] && Find(n, r).Some? ==> Done(o, u, p + r)
    ensures Done(o, u, p + q)
  {
    if q[0] == names[0] {
      assert p + q == p + [names[0]] + q[1..];
      GrowsKeepsDone(o, next, u, p + q);
    } else {
      assert names == [names[0]] + names[1..];
    }
  }

  lemma DoneMeansEqual(o: Node, t: Node, p: Path, who: string)
    requires Within(o, t) && Done(o, t, p) && Writable(who)
    ensures WhoAt(t, p, who) == Target(o, p, who)
  {
    var a, b := WhoAt(t, p, who), Target(o, p, who);
    assert SubMap(a, b);
    assert forall r :: r in b ==> r in a;
    assert a.Keys == b.Keys;
  }

  lemma EmptyWithin(o: Node)
    ensures Within(o, EMPTY)
  {
    forall p: Path ensures Find(EMPTY, p) == if p == [] then Some(EMPTY) else None { FindInEmpty(p); }
  }

  /** Reloading restores every written entry. */
  lemma ReloadEntries(conf: Conf, o: Node)
    requires Legible(conf, o)
    ensures Load(conf, Save(conf, o)).Ok?
    ensures forall p: Path, who: string :: Writable(who) ==>
              WhoAt(Load(conf, Save(conf, o)).value, p, who) == Target(o, p, who)
  {
    hide Within, TreeLines, Writable, WhoAt, Target, Legible, ParseLines, Lines, Unlines, Done, Grows;
    var ls := TreeLines(conf, o, PathText([]));
    EmptyWithin(o);
    TreeAdvances(conf, o, EMPTY, [], o);
    LinesUnlines(ls);
    var t := ParseLines(conf, EMPTY, ls).value;
    forall p: Path, who: string | Writable(who) ensures WhoAt(t, p, who) == Target(o, p, who) {
      if Find(o, p).Some? { assert [] + p == p; } else { NothingWanted(o, t, p); }
      DoneMeansEqual(o, t, p, who);
    }
  }

  lemma NothingWanted(o: Node, t: Node, p: Path)
    requires Find(o, p).None?
    ensures Done(o, t, p)
  {
  }
}
