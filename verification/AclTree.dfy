/** The ACL tree: role assignments on paths, their lookup and their edits.

    A node owns its children, so a tree is a value; `AclObject.AclTreeObject` is the object
    whose methods replace it. `Conf` is the access control configuration the product registers; a
    privilege mask is the set of its bit positions. */
module AclTree {
  import opened Wrappers
  import opened Text
  import opened AuthId

  type Privs = set<nat>
  type RoleMap = map<string, bool>
  type Path = seq<string>

  datatype Conf = Conf(
    roles: map<string, Privs>,
    noAccess: Option<string>,
    admin: Option<string>,
    superuser: Authid -> bool)

  datatype Node = Node(
    users: map<Authid, RoleMap>,
    groups: map<string, RoleMap>,
    children: map<string, Node>)

  const EMPTY: Node := Node(map[], map[], map[])

  // ---------------------------------------------------------------- paths

  function NonEmpty(parts: seq<string>): seq<string>
  {
    if parts == [] then []
    else (if parts[0] == [] then [] else [parts[0]]) + NonEmpty(parts[1..])
  }

  /** The components of a path string: its non-empty parts between slashes. */
  function SplitAclPath(path: string): Path
  {
    NonEmpty(Split(path, '/'))
  }

  /** A path given in chunks addresses the components of all chunks, in order. */
  function Flatten(chunks: seq<string>): Path
  {
    if chunks == [] then [] else Split(chunks[0], '/') + Flatten(chunks[1..])
  }

  predicate ProperName(c: string)
  {
    c != [] && '/' !in c
  }

  ghost predicate ProperPath(p: Path)
  {
    forall k :: 0 <= k < |p| ==> ProperName(p[k])
  }

  lemma {:induction false} NonEmptyProper(parts: seq<string>)
    requires FreeOf(parts, '/')
    ensures ProperPath(NonEmpty(parts))
    decreases |parts|
  {
    if parts != [] {
      NonEmptyProper(parts[1..]);
    }
  }

  lemma SplitAclPathProper(path: string)
    ensures ProperPath(SplitAclPath(path))
  {
    NonEmptyProper(Split(path, '/'));
  }

  /** Proper components address themselves, so the inner split of the tree walks is idle on
      them. */
  lemma {:induction false} FlattenProper(p: Path)
    requires ProperPath(p)
    ensures Flatten(p) == p
    decreases |p|
  {
    if p != [] {
      FlattenProper(p[1..]);
      assert Split(p[0], '/') == [p[0]];
    }
  }

  lemma {:induction false} FlattenAppend(a: seq<string>, b: seq<string>)
    ensures Flatten(a + b) == Flatten(a) + Flatten(b)
    decreases |a|
  {
    if a == [] {
      assert a + b == b;
    } else {
      assert (a + b)[1..] == a[1..] + b;
      FlattenAppend(a[1..], b);
      AppendAssoc(Split(a[0], '/'), Flatten(a[1..]), Flatten(b));
    }
  }

  /** Joining chunks with slashes gives one chunk that addresses the same node. */
  lemma {:induction false} FlattenJoined(chunks: seq<string>)
    requires chunks != []
    ensures Split(Join(chunks, '/'), '/') == Flatten(chunks)
    decreases |chunks|
  {
    if |chunks| > 1 {
      SplitAppend(chunks[0], '/', Join(chunks[1..], '/'));
      FlattenJoined(chunks[1..]);
    } else {
      assert Flatten(chunks[1..]) == [];
    }
  }

  // ---------------------------------------------------------------- nodes

  function Find(node: Node, p: Path): Option<Node>
    decreases |p|
  {
    if p == [] then Some(node)
    else if p[0] in node.children then Find(node.children[p[0]], p[1..])
    else None
  }

  lemma {:induction false} FindAppend(node: Node, p: Path, q: Path)
    ensures Find(node, p + q) ==
            (match Find(node, p) case None => None case Some(n) => Find(n, q))
    decreases |p|
  {
    if p == [] {
      assert p + q == q;
    } else if p[0] in node.children {
      assert (p + q)[1..] == p[1..] + q;
      FindAppend(node.children[p[0]], p[1..], q);
    }
  }

  lemma FindCons(node: Node, c: string, q: Path)
    ensures Find(node, [c] + q) == if c in node.children then Find(node.children[c], q) else None
  {
    assert ([c] + q)[1..] == q;
  }

  lemma FindPrefix(node: Node, p: Path, k: nat)
    requires k < |p|
    ensures Find(node, p[..k + 1]) ==
            (match Find(node, p[..k]) case None => None case Some(n) =>
               if p[k] in n.children then Some(n.children[p[k]]) else None)
  {
    assert p[..k + 1] == p[..k] + [p[k]];
    FindAppend(node, p[..k], [p[k]]);
    match Find(node, p[..k])
    case None =>
    case Some(n) => FindCons(n, p[k], []);
  }

  function Lookup(m: map<Authid, RoleMap>, id: Authid): RoleMap
  {
    if id in m then m[id] else map[]
  }

  function GroupLookup(m: map<string, RoleMap>, g: string): RoleMap
  {
    if g in m then m[g] else map[]
  }

  /** The roles assigned to `id` on exactly the path `p`. */
  function UserAt(root: Node, p: Path, id: Authid): RoleMap
  {
    match Find(root, p) case None => map[] case Some(n) => Lookup(n.users, id)
  }

  function GroupAt(root: Node, p: Path, g: string): RoleMap
  {
    match Find(root, p) case None => map[] case Some(n) => GroupLookup(n.groups, g)
  }

  // ---------------------------------------------------------------- role lookup

  /** The roles of one entry that apply: all of them at the addressed node, the propagating
      ones above it; an applicable 'no access' role replaces the others. */
  function Applicable(conf: Conf, entry: RoleMap, leaf: bool): RoleMap
  {
    if conf.noAccess.Some? && conf.noAccess.value in entry && (leaf || entry[conf.noAccess.value])
    then map[conf.noAccess.value := false]
    else map r | r in entry && (entry[r] || leaf) :: entry[r]
  }

  /** Group membership is not implemented: no group role ever applies. */
  function ExtractGroupRoles(node: Node, user: Userid, leaf: bool): RoleMap
  {
    map[]
  }

  function ExtractRoles(conf: Conf, node: Node, id: Authid, leaf: bool): RoleMap
  {
    var own := Applicable(conf, Lookup(node.users, id), leaf);
    if own != map[] || id.IsToken() then own else ExtractGroupRoles(node, id.user, leaf)
  }

  /** The descent of `roles`: a non-empty map found further down replaces the one so far. */
  function Walk(conf: Conf, node: Node, id: Authid, p: Path, sofar: RoleMap): RoleMap
    decreases |p|
  {
    if p == [] || p[0] !in node.children then sofar
    else
      var child := node.children[p[0]];
      var here := ExtractRoles(conf, child, id, |p| == 1);
      Walk(conf, child, id, p[1..], if here != map[] then here else sofar)
  }

  function Roles(conf: Conf, root: Node, id: Authid, p: Path): RoleMap
  {
    Walk(conf, root, id, p, ExtractRoles(conf, root, id, p == []))
  }

  /** The declarative rule: the deepest prefix of the path, from length `k` upwards to the
      root, whose entry applies. */
  function Nearest(conf: Conf, root: Node, id: Authid, p: Path, k: nat): RoleMap
    requires k <= |p|
  {
    var here := Applicable(conf, UserAt(root, p[..k], id), k == |p|);
    if here != map[] || k == 0 then here else Nearest(conf, root, id, p, k - 1)
  }

  lemma {:induction false} NearestSkips(conf: Conf, root: Node, id: Authid, p: Path, k: nat, n: nat)
    requires k <= n <= |p|
    requires forall j :: k < j <= n ==> Applicable(conf, UserAt(root, p[..j], id), j == |p|) == map[]
    ensures Nearest(conf, root, id, p, n) == Nearest(conf, root, id, p, k)
    decreases n - k
  {
    if k < n {
      NearestSkips(conf, root, id, p, k, n - 1);
    }
  }

  lemma {:induction false} FindMissing(root: Node, p: Path, k: nat, j: nat)
    requires k < j <= |p|
    requires Find(root, p[..k + 1]).None?
    ensures Find(root, p[..j]).None?
    decreases j
  {
    if k + 1 < j {
      FindMissing(root, p, k, j - 1);
      FindPrefix(root, p, j - 1);
    }
  }

  lemma {:induction false} WalkIsNearest(conf: Conf, root: Node, id: Authid, p: Path, k: nat, node: Node)
    requires k <= |p| && Find(root, p[..k]) == Some(node)
    ensures Walk(conf, node, id, p[k..], Nearest(conf, root, id, p, k)) == Nearest(conf, root, id, p, |p|)
    decreases |p| - k
  {
    if k < |p| {
      FindPrefix(root, p, k);
      assert p[k..][1..] == p[k + 1..];
      if p[k] in node.children {
        WalkIsNearest(conf, root, id, p, k + 1, node.children[p[k]]);
      } else {
        forall j | k < j <= |p| ensures Applicable(conf, UserAt(root, p[..j], id), j == |p|) == map[] {
          FindMissing(root, p, k, j);
        }
        NearestSkips(conf, root, id, p, k, |p|);
      }
    }
  }

  /** The lookup is the declarative rule. */
  lemma RolesAreNearest(conf: Conf, root: Node, id: Authid, p: Path)
    ensures Roles(conf, root, id, p) == Nearest(conf, root, id, p, |p|)
  {
    assert p[..0] == [] && p[0..] == p;
    WalkIsNearest(conf, root, id, p, 0, root);
  }

  lemma {:induction false} NearestPrefix(conf: Conf, root: Node, id: Authid, p: Path, n: nat) returns (k: int)
    requires n <= |p|
    ensures -1 <= k <= n
    ensures k >= 0 ==> Nearest(conf, root, id, p, n) == Applicable(conf, UserAt(root, p[..k], id), k == |p|) != map[]
    ensures k < 0 ==> Nearest(conf, root, id, p, n) == map[]
    ensures forall j :: 0 <= j <= n && k < j ==> Applicable(conf, UserAt(root, p[..j], id), j == |p|) == map[]
    decreases n
  {
    if Applicable(conf, UserAt(root, p[..n], id), n == |p|) != map[] {
      k := n;
    } else if n == 0 {
      k := -1;
    } else {
      k := NearestPrefix(conf, root, id, p, n - 1);
    }
  }

  /** The role rule: the result is the applicable part of the entry on the deepest prefix of
      the path where that part is not empty, and empty if there is no such prefix. */
  lemma RolesRule(conf: Conf, root: Node, id: Authid, p: Path) returns (k: int)
    ensures -1 <= k <= |p|
    ensures k >= 0 ==> Roles(conf, root, id, p) == Applicable(conf, UserAt(root, p[..k], id), k == |p|) != map[]
    ensures k < 0 ==> Roles(conf, root, id, p) == map[]
    ensures forall j :: 0 <= j <= |p| && k < j ==> Applicable(conf, UserAt(root, p[..j], id), j == |p|) == map[]
  {
    RolesAreNearest(conf, root, id, p);
    k := NearestPrefix(conf, root, id, p, |p|);
  }

  lemma {:induction false} NearestSame(conf: Conf, r0: Node, r1: Node, id: Authid, p: Path, k: nat)
    requires k <= |p|
    requires forall j :: 0 <= j <= k ==> UserAt(r0, p[..j], id) == UserAt(r1, p[..j], id)
    ensures Nearest(conf, r0, id, p, k) == Nearest(conf, r1, id, p, k)
    decreases k
  {
    if k > 0 {
      NearestSame(conf, r0, r1, id, p, k - 1);
    }
  }

  /** Trees with the same entries for an id along a path give it the same roles there. */
  lemma RolesSame(conf: Conf, r0: Node, r1: Node, id: Authid, p: Path)
    requires forall j :: 0 <= j <= |p| ==> UserAt(r0, p[..j], id) == UserAt(r1, p[..j], id)
    ensures Roles(conf, r0, id, p) == Roles(conf, r1, id, p)
  {
    RolesAreNearest(conf, r0, id, p);
    RolesAreNearest(conf, r1, id, p);
    NearestSame(conf, r0, r1, id, p, |p|);
  }
}
