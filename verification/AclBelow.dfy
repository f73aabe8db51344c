/** The question whether any path below an anchor grants some of a set of privileges: what
    the implementation answers, and exactly when that is the right answer. */
module AclBelow {
  import opened Wrappers
  import opened Text
  import opened AuthId
  import opened AclTree
  import opened AclEdits
  import opened AclPrivs

  function PathText(q: Path): string
  {
    if q == [] then "" else "/" + q[0] + PathText(q[1..])
  }

  /** `q` leads from `node` to a node with an entry for `id` that applies there. */
  predicate HasRolesAt(conf: Conf, node: Node, id: Authid, q: Path)
  {
    q != [] && Find(node, q).Some? && ExtractRoles(conf, Find(node, q).value, id, true) != map[]
  }

  /** The answer of the implementation. A child path is looked up as the text of the anchor,
      joined by slashes, followed by the components below it. */
  ghost predicate AnyPrivsBelow(conf: Conf, root: Node, id: Authid, anchor: seq<string>, privs: Privs)
  {
    Details(conf, root, id, Flatten(anchor)).1 * privs != {} ||
    match Find(root, Flatten(anchor))
    case None => false
    case Some(node) =>
      exists q: Path :: HasRolesAt(conf, node, id, q) &&
        PrivsAt(conf, root, id, Flatten([Join(anchor, '/') + PathText(q)])) * privs != {}
  }

  /** The question asked: a path strictly below the anchor grants one of the privileges. */
  ghost predicate GrantedBelow(conf: Conf, root: Node, id: Authid, f: Path, privs: Privs)
  {
    exists q: Path :: q != [] && ProperPath(q) && PrivsAt(conf, root, id, f + q) * privs != {}
  }

  lemma {:induction false} PathTextJoin(q: Path)
    requires q != []
    ensures PathText(q) == ['/'] + Join(q, '/')
    decreases |q|
  {
    if |q| == 1 {
      assert PathText(q[1..]) == "";
    } else {
      PathTextJoin(q[1..]);
      AppendAssoc(['/'] + q[0], ['/'], Join(q[1..], '/'));
      AppendAssoc(['/'], q[0] + ['/'], Join(q[1..], '/'));
      AppendAssoc(['/'], q[0], ['/']);
    }
  }

  lemma SplitPathText(a: string, q: Path)
    requires ProperPath(q)
    ensures Split(a + PathText(q), '/') == Split(a, '/') + q
  {
    if q == [] {
      assert a + PathText(q) == a;
    } else {
      PathTextJoin(q);
      AppendAssoc(a, ['/'], Join(q, '/'));
      SplitAppend(a, '/', Join(q, '/'));
      SplitJoin(q, '/');
    }
  }

  /** What a child path addresses: the node below the anchor, except that for the empty anchor
      an empty component precedes it. */
  lemma ChildPathAddress(anchor: seq<string>, q: Path)
    requires ProperPath(q)
    ensures Flatten([Join(anchor, '/') + PathText(q)]) == (if anchor == [] then [""] else Flatten(anchor)) + q
  {
    var text := Join(anchor, '/') + PathText(q);
    assert Flatten([text]) == Split(text, '/') + Flatten([]);
    SplitPathText(Join(anchor, '/'), q);
    if anchor != [] { FlattenJoined(anchor); }
  }

  // ---------------------------------------------------------------- what is inherited

  /** The roles handed down past the node at `p[..k]`: the nearest propagating entry. */
  function Inherited(conf: Conf, root: Node, id: Authid, p: Path, k: nat): RoleMap
    requires k <= |p|
  {
    var here := Applicable(conf, UserAt(root, p[..k], id), false);
    if here != map[] || k == 0 then here else Inherited(conf, root, id, p, k - 1)
  }

  /** The privileges of a path below `f` that leaves the tree there. */
  function InheritedPrivs(conf: Conf, root: Node, id: Authid, f: Path): Privs
    decreases id.IsToken()
  {
    if IsAdmin(conf, id) then conf.roles[conf.admin.value]
    else
      var own := PrivsOf(conf, Inherited(conf, root, id, f, |f|));
      if id.IsToken() then own * InheritedPrivs(conf, root, Owner(id), f) else own
  }

  lemma {:induction false} NearestIsInherited(conf: Conf, root: Node, id: Authid, f: Path, q: Path, k: nat)
    requires k <= |f| && q != []
    ensures Nearest(conf, root, id, f + q, k) == Inherited(conf, root, id, f, k)
    decreases k
  {
    assert (f + q)[..k] == f[..k];
    if k > 0 { NearestIsInherited(conf, root, id, f, q, k - 1); }
  }

  lemma {:induction false} NearestAbove(conf: Conf, root: Node, id: Authid, f: Path, k: nat)
    requires k < |f|
    ensures Nearest(conf, root, id, f, k) == Inherited(conf, root, id, f, k)
    decreases k
  {
    if k > 0 { NearestAbove(conf, root, id, f, k - 1); }
  }

  /** Below the anchor the roles are the inherited ones, or they come from an entry strictly
      below it. */
  lemma RolesBelow(conf: Conf, root: Node, id: Authid, f: Path, q: Path) returns (j: nat)
    requires q != []
    ensures j <= |q|
    ensures j == 0 ==> Roles(conf, root, id, f + q) == Inherited(conf, root, id, f, |f|)
    ensures j > 0 ==>
      Roles(conf, root, id, f + q) == Applicable(conf, UserAt(root, f + q[..j], id), j == |q|) != map[]
  {
    var p := f + q;
    var k := RolesRule(conf, root, id, p);
    if k > |f| {
      j := k - |f|;
      assert p[..k] == f + q[..j];
    } else {
      j := 0;
      RolesAreNearest(conf, root, id, p);
      NearestSkips(conf, root, id, p, |f|, |p|);
      NearestIsInherited(conf, root, id, f, q, |f|);
    }
  }

  lemma NoEntryBelow(conf: Conf, root: Node, id: Authid, f: Path, q: Path)
    requires q != []
    requires forall j :: 0 < j <= |q| ==> UserAt(root, f + q[..j], id) == map[]
    ensures Roles(conf, root, id, f + q) == Inherited(conf, root, id, f, |f|)
  {
    var j := RolesBelow(conf, root, id, f, q);
  }

  lemma OffTreeEntries(root: Node, f: Path, q: Path, j: nat, id: Authid)
    requires 0 < j <= |q| && Find(root, f + q[..1]).None?
    ensures UserAt(root, f + q[..j], id) == map[]
  {
    assert f + q[..j] == (f + q[..1]) + q[1..j];
    FindAppend(root, f + q[..1], q[1..j]);
  }

  /** A path that leaves the tree right below `f` has the inherited privileges. */
  lemma OffTreePrivs(conf: Conf, root: Node, id: Authid, f: Path, q: Path)
    requires q != [] && Find(root, f + q[..1]).None?
    ensures PrivsAt(conf, root, id, f + q) == InheritedPrivs(conf, root, id, f)
    decreases id.IsToken()
  {
    forall j | 0 < j <= |q| ensures UserAt(root, f + q[..j], id) == map[] {
      OffTreeEntries(root, f, q, j, id);
    }
    NoEntryBelow(conf, root, id, f, q);
    if id.IsToken() { OffTreePrivs(conf, root, Owner(id), f, q); }
  }

  // ---------------------------------------------------------------- the anchor's own entry

  /** The anchor's entry for `id` is empty or holds a propagating role. */
  predicate Transparent(root: Node, id: Authid, f: Path)
  {
    var own := UserAt(root, f, id);
    own == map[] || exists r :: r in own && own[r]
  }

  predicate NoAccessWorthless(conf: Conf)
  {
    conf.noAccess.Some? && conf.noAccess.value in conf.roles ==> conf.roles[conf.noAccess.value] == {}
  }

  lemma LeafApplies(conf: Conf, own: RoleMap)
    ensures Applicable(conf, own, true) == map[] <==> own == map[]
  {
    var m := Applicable(conf, own, true);
    if conf.noAccess.Some? && conf.noAccess.value in own {
      assert conf.noAccess.value in m;
    } else {
      assert m == own;
    }
  }

  lemma AnchorRoles(conf: Conf, root: Node, id: Authid, f: Path)
    ensures var own := UserAt(root, f, id);
            Roles(conf, root, id, f) ==
            if own == map[] then Inherited(conf, root, id, f, |f|) else Applicable(conf, own, true)
  {
    assert f[..|f|] == f;
    RolesAreNearest(conf, root, id, f);
    var own := UserAt(root, f, id);
    LeafApplies(conf, own);
    if own == map[] && |f| > 0 {
      NearestAbove(conf, root, id, f, |f| - 1);
    }
  }

  lemma {:induction false} InheritedPropagates(conf: Conf, root: Node, id: Authid, f: Path, k: nat)
    requires k <= |f| && NoAccessWorthless(conf)
    ensures PropagatedOf(conf, Inherited(conf, root, id, f, k)) == PrivsOf(conf, Inherited(conf, root, id, f, k))
    decreases k
  {
    if k > 0 { InheritedPropagates(conf, root, id, f, k - 1); }
  }

  /** The propagating part of an entry hands down what the flags say. */
  lemma EntryPropagates(conf: Conf, own: RoleMap)
    requires NoAccessAlone(conf, own)
    ensures PropagatedOf(conf, Applicable(conf, own, true)) <= PrivsOf(conf, Applicable(conf, own, false))
    ensures NoAccessWorthless(conf) ==>
            PropagatedOf(conf, Applicable(conf, own, true)) == PrivsOf(conf, Applicable(conf, own, false))
    ensures Applicable(conf, own, false) == map[] <==> forall r :: r in own ==> !own[r]
    ensures PrivsOf(conf, Applicable(conf, own, false)) <= PrivsOf(conf, Applicable(conf, own, true))
  {
    if conf.noAccess.Some? && conf.noAccess.value in own {
      assert own.Keys == {conf.noAccess.value};
      if own[conf.noAccess.value] {
        assert conf.noAccess.value in Applicable(conf, own, false);
      } else {
        assert Applicable(conf, own, false) == map[];
      }
    } else {
      assert Applicable(conf, own, true) == own;
      forall r | r in own && own[r] ensures r in Applicable(conf, own, false) {}
    }
  }

  /** Propagated privileges never exceed what is handed down, and equal it unless the anchor's
      entry consists of non-propagating roles. */
  lemma PropagatedVsInherited(conf: Conf, root: Node, id: Authid, f: Path)
    requires Sound(conf, root)
    ensures PropagatedOf(conf, Roles(conf, root, id, f)) <= PrivsOf(conf, Inherited(conf, root, id, f, |f|))
    ensures NoAccessWorthless(conf) && (Transparent(root, id, f) || f == []) ==>
            PropagatedOf(conf, Roles(conf, root, id, f)) == PrivsOf(conf, Inherited(conf, root, id, f, |f|))
    ensures !Transparent(root, id, f) ==> PropagatedOf(conf, Roles(conf, root, id, f)) == {}
  {
    AnchorRoles(conf, root, id, f);
    assert f[..|f|] == f;
    var own := UserAt(root, f, id);
    EntryPropagates(conf, own);
    if own == map[] {
      if NoAccessWorthless(conf) { InheritedPropagates(conf, root, id, f, |f|); }
    }
  }

  /** The same for the privileges of any id, superusers and tokens included. */
  lemma DetailsVsInherited(conf: Conf, root: Node, id: Authid, f: Path)
    requires Sound(conf, root)
    ensures Details(conf, root, id, f).1 <= InheritedPrivs(conf, root, id, f)
    decreases id.IsToken()
  {
    PropagatedVsInherited(conf, root, id, f);
    if id.IsToken() { DetailsVsInherited(conf, root, Owner(id), f); }
  }

  // ---------------------------------------------------------------- soundness

  lemma LengthBound(s: set<string>) returns (n: nat)
    ensures forall x :: x in s ==> |x| <= n
    decreases |s|
  {
    n := 0;
    if s != {} {
      var x :| x in s;
      n := LengthBound(s - {x});
      if |x| > n { n := |x|; }
    }
  }

  lemma FreshName(s: set<string>) returns (x: string)
    ensures ProperName(x) && x !in s
  {
    var n := LengthBound(s);
    x := seq(n + 1, _ => 'x');
  }

  /** There is always a path that leaves the tree right below a given one. */
  lemma FreshBelow(root: Node, f: Path) returns (x: string)
    ensures ProperName(x) && Find(root, f + [x]).None?
  {
    match Find(root, f)
    case None =>
      x := FreshName({});
      FindAppend(root, f, [x]);
    case Some(node) =>
      x := FreshName(node.children.Keys);
      FindAppend(root, f, [x]);
      FindCons(node, x, []);
  }

  lemma InheritedIsGranted(conf: Conf, root: Node, id: Authid, f: Path, privs: Privs)
    requires InheritedPrivs(conf, root, id, f) * privs != {}
    ensures GrantedBelow(conf, root, id, f, privs)
  {
    var x := FreshBelow(root, f);
    assert [x][..1] == [x];
    OffTreePrivs(conf, root, id, f, [x]);
    assert ProperPath([x]);
  }

  lemma NodeBelow(conf: Conf, root: Node, id: Authid, f: Path, node: Node, q: Path)
    requires Sound(conf, root) && Find(root, f) == Some(node) && Find(node, q).Some?
    ensures Find(root, f + q) == Find(node, q) && ProperPath(q)
  {
    FindAppend(root, f, q);
    assert ProperPath(f + q);
    assert forall k :: 0 <= k < |q| ==> q[k] == (f + q)[|f| + k];
  }

  lemma EmptyAnchorChild(conf: Conf, root: Node, id: Authid, q: Path)
    requires Sound(conf, root)
    ensures PrivsAt(conf, root, id, [""] + q) == InheritedPrivs(conf, root, id, [])
  {
    var p := [""] + q;
    assert [] + p == p && p[..1] == [""] && [] + p[..1] == [""];
    assert Find(root, [""]).None? by {
      assert !ProperName([""][0]);
    }
    OffTreePrivs(conf, root, id, [], p);
  }

  /** A positive answer is right: some path strictly below the anchor grants one of the
      privileges. This holds for users, tokens and superusers and for every anchor. */
  lemma AnyPrivsBelowSound(conf: Conf, root: Node, id: Authid, anchor: seq<string>, privs: Privs)
    requires Sound(conf, root) && AnyPrivsBelow(conf, root, id, anchor, privs)
    ensures GrantedBelow(conf, root, id, Flatten(anchor), privs)
  {
    var f := Flatten(anchor);
    if Details(conf, root, id, f).1 * privs != {} {
      DetailsVsInherited(conf, root, id, f);
      InheritedIsGranted(conf, root, id, f, privs);
    } else {
      var node := Find(root, f).value;
      var q: Path :| HasRolesAt(conf, node, id, q) &&
        PrivsAt(conf, root, id, Flatten([Join(anchor, '/') + PathText(q)])) * privs != {};
      NodeBelow(conf, root, id, f, node, q);
      ChildPathAddress(anchor, q);
      if anchor == [] {
        EmptyAnchorChild(conf, root, id, q);
        InheritedIsGranted(conf, root, id, f, privs);
      }
    }
  }

  // ---------------------------------------------------------------- completeness

  /** `b` is granted on a node strictly below `f` that has an entry for `id`. */
  ghost predicate GrantedOnNode(conf: Conf, root: Node, id: Authid, f: Path, b: nat)
  {
    Find(root, f).Some? &&
    exists q: Path :: HasRolesAt(conf, Find(root, f).value, id, q) && b in PrivsAt(conf, root, id, f + q)
  }

  /** No node strictly below `f` has an entry for `id`. */
  ghost predicate NothingBelow(root: Node, id: Authid, f: Path)
  {
    forall q: Path :: q != [] ==> UserAt(root, f + q, id) == map[]
  }

  /** What the completeness of the answer rests on: the entries on the anchor are not just
      non-propagating roles, and a token's owner has no entries below the anchor. */
  ghost predicate Answerable(conf: Conf, root: Node, id: Authid, f: Path)
    decreases id.IsToken()
  {
    IsAdmin(conf, id) ||
    (Transparent(root, id, f) &&
     (id.IsToken() ==> IsAdmin(conf, Owner(id)) ||
                       (Transparent(root, Owner(id), f) && NothingBelow(root, Owner(id), f))))
  }

  lemma AnswerableDetails(conf: Conf, root: Node, id: Authid, f: Path)
    requires Sound(conf, root) && NoAccessWorthless(conf) && Answerable(conf, root, id, f)
    ensures Details(conf, root, id, f).1 == InheritedPrivs(conf, root, id, f)
  {
    PropagatedVsInherited(conf, root, id, f);
    PropagatedVsInherited(conf, root, Owner(id), f);
  }

  lemma EntryOnPath(conf: Conf, root: Node, id: Authid, f: Path, q: Path)
    requires q != [] && UserAt(root, f + q, id) != map[]
    ensures Find(root, f).Some? && HasRolesAt(conf, Find(root, f).value, id, q)
    ensures Roles(conf, root, id, f + q) == Applicable(conf, UserAt(root, f + q, id), true)
  {
    FindAppend(root, f, q);
    LeafApplies(conf, UserAt(root, f + q, id));
    AnchorRoles(conf, root, id, f + q);
  }

  /** Wherever below the anchor a privilege is granted, it is inherited past the anchor or
      granted on a node with an entry. */
  lemma GrantedSources(conf: Conf, root: Node, id: Authid, f: Path, q: Path, b: nat)
    requires Sound(conf, root) && q != [] && !IsAdmin(conf, id)
    requires id.IsToken() ==> IsAdmin(conf, Owner(id)) || NothingBelow(root, Owner(id), f)
    requires b in PrivsAt(conf, root, id, f + q)
    ensures b in InheritedPrivs(conf, root, id, f) || GrantedOnNode(conf, root, id, f, b)
  {
    var j := RolesBelow(conf, root, id, f, q);
    if id.IsToken() { OwnerBelow(conf, root, id, f, q); }
    if j > 0 {
      var e := UserAt(root, f + q[..j], id);
      EntryPropagates(conf, e);
      LeafApplies(conf, e);
      EntryOnPath(conf, root, id, f, q[..j]);
      if id.IsToken() { OwnerBelow(conf, root, id, f, q[..j]); }
      assert b in PrivsAt(conf, root, id, f + q[..j]);
    }
  }

  lemma OwnerBelow(conf: Conf, root: Node, id: Authid, f: Path, q: Path)
    requires q != [] && (IsAdmin(conf, Owner(id)) || NothingBelow(root, Owner(id), f))
    ensures PrivsAt(conf, root, Owner(id), f + q) == InheritedPrivs(conf, root, Owner(id), f)
  {
    if !IsAdmin(conf, Owner(id)) {
      NoEntryBelow(conf, root, Owner(id), f, q);
    }
  }

  lemma NodeIsAsked(conf: Conf, root: Node, id: Authid, anchor: seq<string>, b: nat, privs: Privs)
    requires Sound(conf, root) && anchor != [] && b in privs
    requires GrantedOnNode(conf, root, id, Flatten(anchor), b)
    ensures AnyPrivsBelow(conf, root, id, anchor, privs)
  {
    var f := Flatten(anchor);
    var node := Find(root, f).value;
    var q: Path :| HasRolesAt(conf, node, id, q) && b in PrivsAt(conf, root, id, f + q);
    NodeBelow(conf, root, id, f, node, q);
    ChildPathAddress(anchor, q);
    assert b in PrivsAt(conf, root, id, Flatten([Join(anchor, '/') + PathText(q)])) * privs;
  }

  /** A negative answer is right as well, over all paths below a non-empty anchor. */
  lemma AnyPrivsBelowComplete(conf: Conf, root: Node, id: Authid, anchor: seq<string>, privs: Privs)
    requires Sound(conf, root) && NoAccessWorthless(conf) && anchor != []
    requires Answerable(conf, root, id, Flatten(anchor))
    requires GrantedBelow(conf, root, id, Flatten(anchor), privs)
    ensures AnyPrivsBelow(conf, root, id, anchor, privs)
  {
    var f := Flatten(anchor);
    AnswerableDetails(conf, root, id, f);
    var q: Path :| q != [] && ProperPath(q) && PrivsAt(conf, root, id, f + q) * privs != {};
    if !IsAdmin(conf, id) {
      var b :| b in PrivsAt(conf, root, id, f + q) * privs;
      GrantedSources(conf, root, id, f, q, b);
      if b in InheritedPrivs(conf, root, id, f) {
        assert b in Details(conf, root, id, f).1 * privs;
      } else {
        NodeIsAsked(conf, root, id, anchor, b, privs);
      }
    }
  }

  /** The answer is complete for every set of privileges. */
  ghost predicate AlwaysComplete(conf: Conf, root: Node, id: Authid, anchor: seq<string>)
  {
    forall privs: Privs :: GrantedBelow(conf, root, id, Flatten(anchor), privs) ==>
      AnyPrivsBelow(conf, root, id, anchor, privs)
  }

  /** The exact condition for a plain user and a non-empty anchor: an anchor with only
      non-propagating roles hides what is inherited past it, so then every inherited privilege
      has to occur on an entry below. */
  lemma CompleteIff(conf: Conf, root: Node, id: Authid, anchor: seq<string>)
    requires Sound(conf, root) && NoAccessWorthless(conf) && anchor != []
    requires !id.IsToken() && !IsAdmin(conf, id)
    ensures AlwaysComplete(conf, root, id, anchor) <==>
            (Transparent(root, id, Flatten(anchor)) ||
             forall b :: b in InheritedPrivs(conf, root, id, Flatten(anchor)) ==>
               GrantedOnNode(conf, root, id, Flatten(anchor), b))
  {
    var f := Flatten(anchor);
    if Transparent(root, id, f) {
      forall privs: Privs | GrantedBelow(conf, root, id, f, privs)
        ensures AnyPrivsBelow(conf, root, id, anchor, privs)
      {
        AnyPrivsBelowComplete(conf, root, id, anchor, privs);
      }
    } else {
      PropagatedVsInherited(conf, root, id, f);
      if AlwaysComplete(conf, root, id, anchor) {
        forall b | b in InheritedPrivs(conf, root, id, f) ensures GrantedOnNode(conf, root, id, f, b) {
          assert b in InheritedPrivs(conf, root, id, f) * {b};
          InheritedIsGranted(conf, root, id, f, {b});
          AskedIsOnNode(conf, root, id, anchor, b);
        }
      }
      if forall b :: b in InheritedPrivs(conf, root, id, f) ==> GrantedOnNode(conf, root, id, f, b) {
        forall privs: Privs | GrantedBelow(conf, root, id, f, privs)
          ensures AnyPrivsBelow(conf, root, id, anchor, privs)
        {
          var q: Path :| q != [] && ProperPath(q) && PrivsAt(conf, root, id, f + q) * privs != {};
          var b :| b in PrivsAt(conf, root, id, f + q) * privs;
          GrantedSources(conf, root, id, f, q, b);
          NodeIsAsked(conf, root, id, anchor, b, privs);
        }
      }
    }
  }

  lemma AskedIsOnNode(conf: Conf, root: Node, id: Authid, anchor: seq<string>, b: nat)
    requires Sound(conf, root) && anchor != [] && AnyPrivsBelow(conf, root, id, anchor, {b})
    requires b !in Details(conf, root, id, Flatten(anchor)).1
    ensures GrantedOnNode(conf, root, id, Flatten(anchor), b)
  {
    var f := Flatten(anchor);
    var node := Find(root, f).value;
    var q: Path :| HasRolesAt(conf, node, id, q) &&
      PrivsAt(conf, root, id, Flatten([Join(anchor, '/') + PathText(q)])) * {b} != {};
    NodeBelow(conf, root, id, f, node, q);
    ChildPathAddress(anchor, q);
    assert b in PrivsAt(conf, root, id, f + q);
  }

  /** For the empty anchor the child paths carry a leading slash and miss their nodes: only
      what the root hands down is ever found, so the answer is complete exactly when no node
      grants anything beyond that. */
  lemma EmptyAnchorCompleteIff(conf: Conf, root: Node, id: Authid)
    requires Sound(conf, root) && NoAccessWorthless(conf)
    requires !id.IsToken() && !IsAdmin(conf, id)
    ensures AlwaysComplete(conf, root, id, []) <==>
            forall b :: GrantedOnNode(conf, root, id, [], b) ==> b in InheritedPrivs(conf, root, id, [])
  {
    hide Sound, PrivsAt, AnyPrivsBelow;
    PropagatedVsInherited(conf, root, id, []);
    var inh := InheritedPrivs(conf, root, id, []);
    forall privs: Privs ensures AnyPrivsBelow(conf, root, id, [], privs) <==> inh * privs != {} {
      EmptyAnchorAnswer(conf, root, id, privs);
    }
    if AlwaysComplete(conf, root, id, []) {
      forall b | GrantedOnNode(conf, root, id, [], b) ensures b in inh {
        var q: Path :| HasRolesAt(conf, root, id, q) && b in PrivsAt(conf, root, id, [] + q);
        NodeBelow(conf, root, id, [], root, q);
        assert b in PrivsAt(conf, root, id, [] + q) * {b};
        assert GrantedBelow(conf, root, id, Flatten([]), {b});
      }
    }
    if forall b :: GrantedOnNode(conf, root, id, [], b) ==> b in inh {
      forall privs: Privs | GrantedBelow(conf, root, id, [], privs) ensures AnyPrivsBelow(conf, root, id, [], privs) {
        var q: Path :| q != [] && ProperPath(q) && PrivsAt(conf, root, id, [] + q) * privs != {};
        var b :| b in PrivsAt(conf, root, id, [] + q) * privs;
        GrantedSources(conf, root, id, [], q, b);
        assert b in inh * privs;
      }
    }
  }

  lemma EmptyAnchorAnswer(conf: Conf, root: Node, id: Authid, privs: Privs)
    requires Sound(conf, root)
    requires Details(conf, root, id, []).1 == InheritedPrivs(conf, root, id, [])
    ensures AnyPrivsBelow(conf, root, id, [], privs) <==> InheritedPrivs(conf, root, id, []) * privs != {}
  {
    forall q: Path | HasRolesAt(conf, root, id, q)
      ensures PrivsAt(conf, root, id, Flatten([Join([], '/') + PathText(q)])) == InheritedPrivs(conf, root, id, [])
    {
      RootChild(conf, root, id, q);
    }
  }

  /** A child path of the empty anchor grants what the root hands down, whatever its node has. */
  lemma RootChild(conf: Conf, root: Node, id: Authid, q: Path)
    requires Sound(conf, root) && HasRolesAt(conf, root, id, q)
    ensures PrivsAt(conf, root, id, Flatten([Join([], '/') + PathText(q)])) == InheritedPrivs(conf, root, id, [])
  {
    NodeBelow(conf, root, id, [], root, q);
    ChildPathAddress([], q);
    EmptyAnchorChild(conf, root, id, q);
  }
}
