/** The text form of the ACL tree: the compressing writer and the line parser.

    A line `acl:<propagate>:<path>:<ids>:<roles>` assigns each listed role to each listed
    user, token or '@'-prefixed group. The writer puts roles with the same list of ids on one
    line and writes nothing for empty nodes and for `root@pam`. */
module AclStore {
  import opened Wrappers
  import opened Text
  import opened Ordering
  import opened AuthId
  import opened AclTree
  import opened AclEdits

  datatype Error =
    | WrongNumberOfItems | NotAnAclLine | BadPropagateFlag | UnknownRole(role: string) | BadId(reason: IdError)

  // ---------------------------------------------------------------- parser

  /** One assignment of a line: `who` is a group when it starts with '@', else an id. */
  function Assign(conf: Conf, root: Node, p: Path, who: string, role: string, pg: bool): Result<Node, Error>
  {
    if role !in conf.roles then Err(UnknownRole(role))
    else if who != [] && who[0] == '@' then Ok(ChangeOrInsert(conf, root, p, AddGroup(who[1..], role, pg)))
    else
      match ParseAuthid(who)
      case Err(e) => Err(BadId(e))
      case Ok(id) => Ok(ChangeOrInsert(conf, root, p, AddUser(id, role, pg)))
  }

  function AssignRoles(conf: Conf, root: Node, p: Path, who: string, roles: seq<string>, pg: bool): Result<Node, Error>
    decreases |roles|
  {
    if roles == [] then Ok(root)
    else
      match Assign(conf, root, p, who, roles[0], pg)
      case Err(e) => Err(e)
      case Ok(next) => AssignRoles(conf, next, p, who, roles[1..], pg)
  }

  function AssignAll(conf: Conf, root: Node, p: Path, whos: seq<string>, roles: seq<string>,
                     pg: bool): Result<Node, Error>
    decreases |whos|
  {
    if whos == [] then Ok(root)
    else
      match AssignRoles(conf, root, p, whos[0], roles, pg)
      case Err(e) => Err(e)
      case Ok(next) => AssignAll(conf, next, p, whos[1..], roles, pg)
  }

  function TrimAll(parts: seq<string>): seq<string>
  {
    if parts == [] then [] else [Trim(parts[0])] + TrimAll(parts[1..])
  }

  function CommaParts(s: string): seq<string>
  {
    TrimAll(Split(s, ','))
  }

  function ParseLine(conf: Conf, root: Node, line: string): Result<Node, Error>
  {
    var items := Split(line, ':');
    if |items| != 5 then Err(WrongNumberOfItems)
    else if items[0] != "acl" then Err(NotAnAclLine)
    else if items[1] != "0" && items[1] != "1" then Err(BadPropagateFlag)
    else AssignAll(conf, root, SplitAclPath(items[2]), CommaParts(items[3]), CommaParts(items[4]), items[1] == "1")
  }

  function ParseLines(conf: Conf, root: Node, lines: seq<string>): Result<Node, Error>
    decreases |lines|
  {
    if lines == [] then Ok(root)
    else
      var line := Trim(lines[0]);
      if line == [] then ParseLines(conf, root, lines[1..])
      else
        match ParseLine(conf, root, line)
        case Err(e) => Err(e)
        case Ok(next) => ParseLines(conf, next, lines[1..])
  }

  function Load(conf: Conf, raw: string): Result<Node, Error>
  {
    ParseLines(conf, EMPTY, Lines(raw))
  }

  // ---------------------------------------------------------------- writer

  /** The user whose entries are not written. */
  predicate IsRootUser(id: Authid)
  {
    !id.IsToken() && id.user.data == "root@pam"
  }

  /** Who has `role` with propagate flag `pg` on a node, as written. */
  ghost function Holders(n: Node, role: string, pg: bool): set<string>
  {
    (set id | id in n.users && !IsRootUser(id) && role in n.users[id] && n.users[id][role] == pg :: PrintAuthid(id)) +
    (set g | g in n.groups && role in n.groups[g] && n.groups[g][role] == pg :: "@" + g)
  }

  ghost function UserRoles(n: Node): set<string>
  {
    set id, r | id in n.users && r in n.users[id] :: r
  }

  ghost function GroupRoles(n: Node): set<string>
  {
    set g, r | g in n.groups && r in n.groups[g] :: r
  }

  /** The roles someone holds with flag `pg`. */
  ghost function HeldRoles(n: Node, pg: bool): set<string>
  {
    set r | r in UserRoles(n) + GroupRoles(n) && Holders(n, r, pg) != {}
  }

  /** The fold used for both lists: a comma before every item once the text is not empty. */
  function CommaFold(acc: string, items: seq<string>): string
    decreases |items|
  {
    if items == [] then acc
    else CommaFold((if acc != [] then acc + [','] else acc) + items[0], items[1..])
  }

  ghost function HolderList(n: Node, role: string, pg: bool): string
  {
    CommaFold("", Sorted(Holders(n, role, pg)))
  }

  /** The distinct holder lists of a node; each becomes one line. */
  ghost function HolderLists(n: Node, pg: bool): set<string>
  {
    set r | r in HeldRoles(n, pg) :: HolderList(n, r, pg)
  }

  ghost function RolesWithList(n: Node, pg: bool, list: string): set<string>
  {
    set r | r in HeldRoles(n, pg) && HolderList(n, r, pg) == list
  }

  lemma HolderHasRole(n: Node, r: string, pg: bool, who: string)
    requires who in Holders(n, r, pg)
    ensures r in HeldRoles(n, pg)
    ensures HolderList(n, r, pg) in HolderLists(n, pg) && r in RolesWithList(n, pg, HolderList(n, r, pg))
  {
    if id :| id in n.users && !IsRootUser(id) && r in n.users[id] && who == PrintAuthid(id) {
      assert r in UserRoles(n);
    } else {
      var g :| g in n.groups && r in n.groups[g] && who == "@" + g;
      assert r in GroupRoles(n);
    }
  }

  ghost function RoleList(conf: Conf, roles: set<string>): string
  {
    if conf.noAccess.Some? && conf.noAccess.value in roles then conf.noAccess.value
    else CommaFold("", Sorted(roles))
  }

  function Flag(pg: bool): string
  {
    if pg then "1" else "0"
  }

  function AclLine(pg: bool, path: string, list: string, roles: string): string
  {
    Join(["acl", Flag(pg), if path == [] then "/" else path, list, roles], ':')
  }

  ghost function ListLines(conf: Conf, n: Node, path: string, pg: bool, lists: seq<string>): seq<string>
  {
    if lists == [] then []
    else
      [AclLine(pg, path, lists[0], RoleList(conf, RolesWithList(n, pg, lists[0])))] +
      ListLines(conf, n, path, pg, lists[1..])
  }

  ghost function NodeLines(conf: Conf, n: Node, path: string): seq<string>
  {
    ListLines(conf, n, path, false, Sorted(HolderLists(n, false))) +
    ListLines(conf, n, path, true, Sorted(HolderLists(n, true)))
  }

  ghost function TreeLines(conf: Conf, n: Node, path: string): seq<string>
    decreases n, 1
  {
    NodeLines(conf, n, path) + ChildLines(conf, n, path, Sorted(n.children.Keys))
  }

  ghost function ChildLines(conf: Conf, n: Node, path: string, names: seq<string>): seq<string>
    requires forall c :: c in names ==> c in n.children
    decreases n, 0, |names|
  {
    if names == [] then []
    else
      TreeLines(conf, n.children[names[0]], path + "/" + names[0]) + ChildLines(conf, n, path, names[1..])
  }

  ghost function Save(conf: Conf, root: Node): string
  {
    Unlines(TreeLines(conf, root, ""))
  }
}
