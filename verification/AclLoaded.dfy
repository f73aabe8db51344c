/** What a tree loaded from a text can hold: names the text form can record, on paths it can
    record. */
module AclLoaded {
  import opened Wrappers
  import opened Text
  import opened AuthId
  import opened AclTree
  import opened AclEdits
  import opened AclStore
  import opened AclReload

  ghost predicate AllPieces(parts: seq<string>)
  {
    forall k :: 0 <= k < |parts| ==> Piece(parts[k])
  }

  ghost predicate Loadable(conf: Conf, t: Node)
  {
    Named(t) && RolesNamed(conf, t)
  }

  // ---------------------------------------------------------------- the parts of a line

  lemma {:induction false} TrimStartFree(s: string, c: char)
    requires c !in s
    ensures c !in TrimStart(s)
    ensures TrimStart(s) != [] ==> !IsWhite(TrimStart(s)[0])
    decreases |s|
  {
    if s != [] && IsWhite(s[0]) { TrimStartFree(s[1..], c); }
  }

  lemma {:induction false} TrimEndFree(s: string, c: char)
    requires c !in s
    ensures c !in TrimEnd(s) && TrimEnd(s) <= s
    ensures TrimEnd(s) != [] ==> !IsWhite(TrimEnd(s)[|TrimEnd(s)| - 1])
    decreases |s|
  {
    if s != [] && IsWhite(s[|s| - 1]) { TrimEndFree(s[..|s| - 1], c); }
  }

  lemma TrimFree(s: string, c: char)
    requires c !in s
    ensures c !in Trim(s) && Trimmed(Trim(s))
  {
    TrimStartFree(s, c);
    TrimEndFree(TrimStart(s), c);
  }

  lemma {:induction false} TrimAllPieces(parts: seq<string>)
    requires FreeOf(parts, ':') && FreeOf(parts, ',') && FreeOf(parts, '\n')
    ensures AllPieces(TrimAll(parts))
    decreases |parts|
  {
    if parts != [] {
      TrimFree(parts[0], ':');
      TrimFree(parts[0], ',');
      TrimFree(parts[0], '\n');
      TrimAllPieces(parts[1..]);
    }
  }

  lemma {:induction false} SplitFreeOf(s: string, sep: char, c: char)
    requires c !in s
    ensures FreeOf(Split(s, sep), c)
    decreases |s|
  {
    var i := IndexOf(s, sep);
    if i < |s| { SplitFreeOf(s[i + 1..], sep, c); }
  }

  lemma CommaPartsPieces(s: string)
    requires ':' !in s && '\n' !in s
    ensures AllPieces(CommaParts(s))
  {
    SplitFreeOf(s, ',', ':');
    SplitFreeOf(s, ',', '\n');
    TrimAllPieces(Split(s, ','));
  }

  lemma {:induction false} NonEmptyFreeOf(parts: seq<string>, c: char)
    requires FreeOf(parts, c)
    ensures FreeOf(NonEmpty(parts), c)
    decreases |parts|
  {
    if parts != [] { NonEmptyFreeOf(parts[1..], c); }
  }

  lemma PathPartsOk(s: string)
    requires ':' !in s && '\n' !in s
    ensures PathOk(SplitAclPath(s))
  {
    SplitAclPathProper(s);
    SplitFreeOf(s, '/', ':');
    SplitFreeOf(s, '/', '\n');
    NonEmptyFreeOf(Split(s, '/'), ':');
    NonEmptyFreeOf(Split(s, '/'), '\n');
  }

  lemma {:induction false} LinesFreeOf(s: string)
    ensures FreeOf(Lines(s), '\n')
    decreases |s|
  {
    if s != [] {
      var i := IndexOf(s, '\n');
      if i < |s| { LinesFreeOf(s[i + 1..]); }
    }
  }

  // ---------------------------------------------------------------- one assignment

  /** The id a part denotes can be recorded. */
  lemma PieceRecordable(who: string)
    requires Piece(who) && ParseAuthid(who).Ok? && !(who != [] && who[0] == '@')
    ensures ValidAuthid(ParseAuthid(who).value) && Recordable(ParseAuthid(who).value)
  {
    PrintParseAuthid(who);
    var id := ParseAuthid(who).value;
    var name, realm := UseridParts(id.user);
  }

  lemma AssignNamed(conf: Conf, t: Node, p: Path, who: string, role: string, pg: bool)
    requires Named(t) && Piece(who) && PathOk(p) && Assign(conf, t, p, who, role, pg).Ok?
    ensures Named(Assign(conf, t, p, who, role, pg).value)
  {
    hide PathOk, ValidAuthid, Recordable, ParseAuthid;
    var u := Assign(conf, t, p, who, role, pg).value;
    var group := who != [] && who[0] == '@';
    if !group { PieceRecordable(who); }
    var ch := if group then AddGroup(who[1..], role, pg) else AddUser(ParseAuthid(who).value, role, pg);
    forall q: Path, id: Authid | UserAt(u, q, id) != map[] && !IsRootUser(id)
      ensures ValidAuthid(id) && Recordable(id) && PathOk(q)
    {
      InsertEntries(conf, t, p, ch, q, id, "");
    }
    forall q: Path, g: string | GroupAt(u, q, g) != map[] ensures PlainText("@" + g) && PathOk(q) {
      InsertEntries(conf, t, p, ch, q, ROOT, g);
      assert group ==> who == "@" + who[1..];
    }
  }

  lemma AssignRolesNamed(conf: Conf, t: Node, p: Path, who: string, role: string, pg: bool)
    requires RolesNamed(conf, t) && Piece(role) && Assign(conf, t, p, who, role, pg).Ok?
    ensures RolesNamed(conf, Assign(conf, t, p, who, role, pg).value)
  {
    hide ParseAuthid;
    var u := Assign(conf, t, p, who, role, pg).value;
    assert RoleOk(conf, role);
    hide RoleOk;
    var group := who != [] && who[0] == '@';
    var ch := if group then AddGroup(who[1..], role, pg) else AddUser(ParseAuthid(who).value, role, pg);
    forall q: Path, id: Authid, r: string | r in UserAt(u, q, id) && !IsRootUser(id) ensures RoleOk(conf, r) {
      InsertEntries(conf, t, p, ch, q, id, "");
    }
    forall q: Path, g: string, r: string | r in GroupAt(u, q, g) ensures RoleOk(conf, r) {
      InsertEntries(conf, t, p, ch, q, ROOT, g);
    }
  }

  lemma {:induction false} AssignRolesLoadable(conf: Conf, t: Node, p: Path, who: string, roles: seq<string>, pg: bool)
    requires Loadable(conf, t) && Piece(who) && AllPieces(roles) && PathOk(p) &&
             AssignRoles(conf, t, p, who, roles, pg).Ok?
    ensures Loadable(conf, AssignRoles(conf, t, p, who, roles, pg).value)
    decreases |roles|
  {
    hide Named, RolesNamed, Assign, Piece, PathOk;
    if roles != [] {
      AssignNamed(conf, t, p, who, roles[0], pg);
      AssignRolesNamed(conf, t, p, who, roles[0], pg);
      AssignRolesLoadable(conf, Assign(conf, t, p, who, roles[0], pg).value, p, who, roles[1..], pg);
    }
  }

  lemma {:induction false} AssignAllLoadable(conf: Conf, t: Node, p: Path, whos: seq<string>, roles: seq<string>,
                                             pg: bool)
    requires Loadable(conf, t) && AllPieces(whos) && AllPieces(roles) && PathOk(p) &&
             AssignAll(conf, t, p, whos, roles, pg).Ok?
    ensures Loadable(conf, AssignAll(conf, t, p, whos, roles, pg).value)
    decreases |whos|
  {
    hide Loadable, AssignRoles, Piece, PathOk;
    if whos != [] {
      AssignRolesLoadable(conf, t, p, whos[0], roles, pg);
      AssignAllLoadable(conf, AssignRoles(conf, t, p, whos[0], roles, pg).value, p, whos[1..], roles, pg);
    }
  }

  // ---------------------------------------------------------------- whole texts

  lemma ParseLineLoadable(conf: Conf, t: Node, line: string)
    requires Loadable(conf, t) && '\n' !in line && ParseLine(conf, t, line).Ok?
    ensures Loadable(conf, ParseLine(conf, t, line).value)
  {
    hide Loadable, AssignAll;
    var items := Split(line, ':');
    SplitFreeOf(line, ':', '\n');
    PathPartsOk(items[2]);
    CommaPartsPieces(items[3]);
    CommaPartsPieces(items[4]);
    AssignAllLoadable(conf, t, SplitAclPath(items[2]), CommaParts(items[3]), CommaParts(items[4]), items[1] == "1");
  }

  lemma {:induction false} ParseLinesLoadable(conf: Conf, t: Node, ls: seq<string>)
    requires Loadable(conf, t) && FreeOf(ls, '\n') && ParseLines(conf, t, ls).Ok?
    ensures Loadable(conf, ParseLines(conf, t, ls).value)
    decreases |ls|
  {
    hide Loadable, ParseLine, Trim;
    if ls != [] {
      TrimFree(ls[0], '\n');
      if Trim(ls[0]) == [] {
        ParseLinesLoadable(conf, t, ls[1..]);
      } else {
        ParseLineLoadable(conf, t, Trim(ls[0]));
        ParseLinesLoadable(conf, ParseLine(conf, t, Trim(ls[0])).value, ls[1..]);
      }
    }
  }

  /** Whatever text was loaded, the tree holds only ids, groups, paths and roles the text
      form can record. */
  lemma LoadedRecordable(conf: Conf, raw: string)
    requires Load(conf, raw).Ok?
    ensures Named(Load(conf, raw).value) && RolesNamed(conf, Load(conf, raw).value)
  {
    EmptyLoadable(conf);
    LinesFreeOf(raw);
    hide Named, RolesNamed, ParseLines, Lines;
    ParseLinesLoadable(conf, EMPTY, Lines(raw));
  }

  lemma EmptyLoadable(conf: Conf)
    ensures Loadable(conf, EMPTY)
  {
    hide ValidAuthid, Recordable, PathOk, PlainText, RoleOk;
    forall p: Path ensures Find(EMPTY, p) == if p == [] then Some(EMPTY) else None { FindInEmpty(p); }
  }
}
