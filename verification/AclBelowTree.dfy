/** The exact condition under which a negative answer about the paths below an anchor is right,
    for every id, tokens and superusers included, and every anchor. It looks at the finitely
    many nodes of the tree only. */
module AclBelowTree {
  import opened Wrappers
  import opened Text
  import opened AuthId
  import opened AclTree
  import opened AclEdits
  import opened AclPrivs
  import opened AclBelow

  /** `b` is granted on a node below `f`, or handed down past such a node or past `f`. */
  ghost predicate GrantedOnTree(conf: Conf, root: Node, id: Authid, f: Path, b: nat)
  {
    exists q: Path :: OnTree(root, f, q) &&
      (b in InheritedPrivs(conf, root, id, f + q) || (q != [] && b in PrivsAt(conf, root, id, f + q)))
  }

  predicate OnTree(root: Node, f: Path, q: Path)
  {
    q == [] || Find(root, f + q).Some?
  }

  /** What the implementation finds: the propagated privileges of the anchor, and those of the
      nodes below it with an entry of the id's own, or for the empty anchor what the root hands
      down if there is such a node. */
  ghost predicate Noticed(conf: Conf, root: Node, id: Authid, anchor: seq<string>, b: nat)
  {
    b in Details(conf, root, id, Flatten(anchor)).1 ||
    if anchor != [] then GrantedOnNode(conf, root, id, Flatten(anchor), b)
    else (exists q: Path :: HasRolesAt(conf, root, id, q)) && b in InheritedPrivs(conf, root, id, [])
  }

  lemma {:induction false} LastOnTree(root: Node, f: Path, q: Path, n: nat) returns (k: nat)
    requires n <= |q| && (n < |q| ==> Find(root, f + q[..n + 1]).None?)
    ensures k <= n && OnTree(root, f, q[..k]) && (k < |q| ==> Find(root, f + q[..k + 1]).None?)
    decreases n
  {
    k := n;
    if n > 0 && Find(root, f + q[..n]).None? {
      assert q[..n - 1 + 1] == q[..n];
      k := LastOnTree(root, f, q, n - 1);
    }
  }

  lemma ProperSuffix(root: Node, conf: Conf, f: Path, q: Path)
    requires Sound(conf, root) && OnTree(root, f, q)
    ensures ProperPath(q)
  {
    if q != [] {
      assert ProperPath(f + q);
      assert forall k :: 0 <= k < |q| ==> q[k] == (f + q)[|f| + k];
    }
  }

  /** What is granted anywhere below the anchor, on all of the infinitely many paths, shows on the
      nodes of the tree. */
  lemma TreeDecides(conf: Conf, root: Node, id: Authid, f: Path, b: nat)
    requires Sound(conf, root)
    ensures GrantedBelow(conf, root, id, f, {b}) <==> GrantedOnTree(conf, root, id, f, b)
  {
    if GrantedBelow(conf, root, id, f, {b}) {
      var q: Path :| q != [] && ProperPath(q) && PrivsAt(conf, root, id, f + q) * {b} != {};
      OntoTree(conf, root, id, f, q, b);
    }
    if GrantedOnTree(conf, root, id, f, b) {
      var q: Path :| OnTree(root, f, q) &&
        (b in InheritedPrivs(conf, root, id, f + q) || (q != [] && b in PrivsAt(conf, root, id, f + q)));
      OffTree(conf, root, id, f, q, b);
    }
  }

  lemma OntoTree(conf: Conf, root: Node, id: Authid, f: Path, q: Path, b: nat)
    requires q != [] && b in PrivsAt(conf, root, id, f + q)
    ensures GrantedOnTree(conf, root, id, f, b)
  {
    hide PrivsAt, InheritedPrivs;
    var k := LastOnTree(root, f, q, |q|);
    if k < |q| {
      assert f + q == (f + q[..k]) + q[k..];
      assert (f + q[..k]) + q[k..][..1] == f + q[..k + 1];
      OffTreePrivs(conf, root, id, f + q[..k], q[k..]);
      assert b in InheritedPrivs(conf, root, id, f + q[..k]);
    } else {
      assert q[..k] == q;
    }
  }

  lemma OffTree(conf: Conf, root: Node, id: Authid, f: Path, q: Path, b: nat)
    requires Sound(conf, root) && OnTree(root, f, q)
    requires b in InheritedPrivs(conf, root, id, f + q) || (q != [] && b in PrivsAt(conf, root, id, f + q))
    ensures GrantedBelow(conf, root, id, f, {b})
  {
    hide PrivsAt, InheritedPrivs, Sound;
    ProperSuffix(root, conf, f, q);
    if b in InheritedPrivs(conf, root, id, f + q) {
      var x := FreshBelow(root, f + q);
      assert [x][..1] == [x];
      OffTreePrivs(conf, root, id, f + q, [x]);
      assert f + q + [x] == f + (q + [x]);
      assert b in PrivsAt(conf, root, id, f + (q + [x])) * {b};
      assert ProperPath(q + [x]);
    } else {
      assert b in PrivsAt(conf, root, id, f + q) * {b};
    }
  }

  lemma AnswerIsNoticed(conf: Conf, root: Node, id: Authid, anchor: seq<string>, b: nat)
    requires Sound(conf, root)
    ensures AnyPrivsBelow(conf, root, id, anchor, {b}) <==> Noticed(conf, root, id, anchor, b)
  {
    hide Details, PrivsAt, InheritedPrivs, HasRolesAt;
    var f := Flatten(anchor);
    if b !in Details(conf, root, id, f).1 {
      if anchor == [] {
        RootAnswer(conf, root, id, b);
      } else {
        if AnyPrivsBelow(conf, root, id, anchor, {b}) { AskedIsOnNode(conf, root, id, anchor, b); }
        if GrantedOnNode(conf, root, id, f, b) { NodeIsAsked(conf, root, id, anchor, b, {b}); }
      }
    } else {
      assert b in Details(conf, root, id, f).1 * {b};
    }
  }

  lemma RootAnswer(conf: Conf, root: Node, id: Authid, b: nat)
    requires Sound(conf, root) && b !in Details(conf, root, id, []).1
    ensures AnyPrivsBelow(conf, root, id, [], {b}) <==> Noticed(conf, root, id, [], b)
  {
    hide Details, PrivsAt, InheritedPrivs, HasRolesAt, Sound;
    assert Find(root, Flatten([])) == Some(root);
    var inherited := InheritedPrivs(conf, root, id, []);
    forall q: Path | HasRolesAt(conf, root, id, q)
      ensures PrivsAt(conf, root, id, Flatten([Join([], '/') + PathText(q)])) == inherited
    {
      RootChild(conf, root, id, q);
    }
    assert inherited * {b} != {} <==> b in inherited by { assert b in inherited ==> b in inherited * {b}; }
    assert Details(conf, root, id, []).1 * {b} == {};
  }

  lemma OnePrivilege(conf: Conf, root: Node, id: Authid, anchor: seq<string>, b: nat, privs: Privs)
    requires b in privs && AnyPrivsBelow(conf, root, id, anchor, {b})
    ensures AnyPrivsBelow(conf, root, id, anchor, privs)
  {
    hide Details, PrivsAt, HasRolesAt;
    assert forall s: Privs :: s * {b} != {} ==> b in s && s * privs != {};
  }

  /** The answer is right for every set of privileges exactly when everything that is granted on
      the tree is noticed. */
  lemma CompleteOnTreeIff(conf: Conf, root: Node, id: Authid, anchor: seq<string>)
    requires Sound(conf, root)
    ensures AlwaysComplete(conf, root, id, anchor) <==>
            forall b :: GrantedOnTree(conf, root, id, Flatten(anchor), b) ==> Noticed(conf, root, id, anchor, b)
  {
    hide Details, PrivsAt, InheritedPrivs, GrantedOnTree, Noticed, AnyPrivsBelow, Sound;
    var f := Flatten(anchor);
    if AlwaysComplete(conf, root, id, anchor) {
      forall b: nat | GrantedOnTree(conf, root, id, f, b) ensures Noticed(conf, root, id, anchor, b) {
        TreeDecides(conf, root, id, f, b);
        AnswerIsNoticed(conf, root, id, anchor, b);
      }
    }
    if forall b :: GrantedOnTree(conf, root, id, f, b) ==> Noticed(conf, root, id, anchor, b) {
      forall privs: Privs | GrantedBelow(conf, root, id, f, privs)
        ensures AnyPrivsBelow(conf, root, id, anchor, privs)
      {
        var q: Path :| q != [] && ProperPath(q) && PrivsAt(conf, root, id, f + q) * privs != {};
        var b :| b in PrivsAt(conf, root, id, f + q) * privs;
        assert b in PrivsAt(conf, root, id, f + q) * {b};
        TreeDecides(conf, root, id, f, b);
        AnswerIsNoticed(conf, root, id, anchor, b);
        OnePrivilege(conf, root, id, anchor, b, privs);
      }
    }
  }

  // ---------------------------------------------------------------- tokens

  /** The privileges a token can gain unnoticed: handed down past the anchor, or granted on or
      handed down past a node below with an entry of its owner. */
  ghost predicate OwnerGrants(conf: Conf, root: Node, id: Authid, f: Path, b: nat)
  {
    b in InheritedPrivs(conf, root, id, f) ||
    exists q: Path :: q != [] && UserAt(root, f + q, Owner(id)) != map[] &&
      (b in PrivsAt(conf, root, id, f + q) || b in InheritedPrivs(conf, root, id, f + q))
  }

  /** What a token is granted on a node with an entry of its own is noticed. */
  lemma TokenNode(conf: Conf, root: Node, id: Authid, f: Path, q: Path, b: nat)
    requires Sound(conf, root) && q != [] && UserAt(root, f + q, id) != map[] && b in PrivsAt(conf, root, id, f + q)
    ensures GrantedOnNode(conf, root, id, f, b)
  {
    EntryOnPath(conf, root, id, f, q);
  }

  /** Past a node without an entry of the owner, a token inherits what the node grants it, or what
      it inherits past the node above. */
  lemma TokenInherits(conf: Conf, root: Node, id: Authid, p: Path, b: nat)
    requires Sound(conf, root) && id.IsToken() && !IsAdmin(conf, id) && p != []
    requires UserAt(root, p, Owner(id)) == map[] && b in InheritedPrivs(conf, root, id, p)
    ensures (UserAt(root, p, id) != map[] && b in PrivsAt(conf, root, id, p)) ||
            b in InheritedPrivs(conf, root, id, p[..|p| - 1])
  {
    OwnerWithoutEntry(conf, root, Owner(id), p);
    InheritedAbove(conf, root, id, p);
    AnchorRoles(conf, root, id, p);
    EntryPropagates(conf, UserAt(root, p, id));
    TokenPrivs(conf, root, id, p);
  }

  /** A token has what its own roles and its owner both give. */
  lemma TokenPrivs(conf: Conf, root: Node, id: Authid, p: Path)
    requires id.IsToken() && !IsAdmin(conf, id)
    ensures !Owner(id).IsToken()
    ensures PrivsAt(conf, root, id, p) == PrivsOf(conf, Roles(conf, root, id, p)) * PrivsAt(conf, root, Owner(id), p)
    ensures InheritedPrivs(conf, root, id, p) ==
            PrivsOf(conf, Inherited(conf, root, id, p, |p|)) * InheritedPrivs(conf, root, Owner(id), p)
  {
  }

  /** Without an entry on a path a user has there what is handed down past it, which is what is
      handed down past the path above. */
  lemma OwnerWithoutEntry(conf: Conf, root: Node, user: Authid, p: Path)
    requires !user.IsToken() && UserAt(root, p, user) == map[]
    ensures PrivsAt(conf, root, user, p) == InheritedPrivs(conf, root, user, p)
    ensures p != [] ==> InheritedPrivs(conf, root, user, p[..|p| - 1]) == InheritedPrivs(conf, root, user, p)
  {
    AnchorRoles(conf, root, user, p);
    if p != [] { InheritedAbove(conf, root, user, p); }
  }

  lemma InheritedAbove(conf: Conf, root: Node, id: Authid, p: Path)
    requires p != []
    ensures var here := Applicable(conf, UserAt(root, p, id), false);
            Inherited(conf, root, id, p, |p|) ==
            if here != map[] then here else Inherited(conf, root, id, p[..|p| - 1], |p| - 1)
  {
    hide Applicable, UserAt, Inherited;
    assert p[..|p|] == p;
    InheritedStep(conf, root, id, p, |p|);
    InheritedPrefix(conf, root, id, p, |p| - 1, |p| - 1);
  }

  lemma InheritedStep(conf: Conf, root: Node, id: Authid, p: Path, k: nat)
    requires 0 < k <= |p|
    ensures var here := Applicable(conf, UserAt(root, p[..k], id), false);
            Inherited(conf, root, id, p, k) == if here != map[] then here else Inherited(conf, root, id, p, k - 1)
  {
    hide Applicable, UserAt;
  }

  lemma {:induction false} InheritedPrefix(conf: Conf, root: Node, id: Authid, p: Path, n: nat, k: nat)
    requires k <= n <= |p|
    ensures Inherited(conf, root, id, p[..n], k) == Inherited(conf, root, id, p, k)
    decreases k
  {
    assert p[..n][..k] == p[..k];
    if k > 0 { InheritedPrefix(conf, root, id, p, n, k - 1); }
  }

  lemma {:induction false} HandedDown(conf: Conf, root: Node, id: Authid, f: Path, q: Path, b: nat)
    requires Sound(conf, root) && id.IsToken() && !IsAdmin(conf, id) && b in InheritedPrivs(conf, root, id, f + q)
    ensures OwnerGrants(conf, root, id, f, b) || GrantedOnNode(conf, root, id, f, b)
    decreases |q|
  {
    hide PrivsAt, InheritedPrivs, GrantedOnNode, Sound, IsAdmin;
    if q == [] {
      assert f + q == f;
    } else if UserAt(root, f + q, Owner(id)) == map[] {
      TokenInherits(conf, root, id, f + q, b);
      assert (f + q)[..|f + q| - 1] == f + q[..|q| - 1];
      if b in InheritedPrivs(conf, root, id, f + q[..|q| - 1]) {
        HandedDown(conf, root, id, f, q[..|q| - 1], b);
      } else {
        TokenNode(conf, root, id, f, q, b);
      }
    }
  }

  /** Whatever a token is granted below the anchor is noticed or due to an entry of its owner. */
  lemma TokenSources(conf: Conf, root: Node, id: Authid, f: Path, q: Path, b: nat)
    requires Sound(conf, root) && id.IsToken() && !IsAdmin(conf, id) && q != [] && b in PrivsAt(conf, root, id, f + q)
    ensures OwnerGrants(conf, root, id, f, b) || GrantedOnNode(conf, root, id, f, b)
  {
    if UserAt(root, f + q, Owner(id)) == map[] {
      if UserAt(root, f + q, id) != map[] {
        TokenNode(conf, root, id, f, q, b);
      } else {
        AnchorRoles(conf, root, id, f + q);
        OwnerWithoutEntry(conf, root, Owner(id), f + q);
        TokenPrivs(conf, root, id, f + q);
        HandedDown(conf, root, id, f, q, b);
      }
    }
  }

  lemma OwnerGrantsOnTree(conf: Conf, root: Node, id: Authid, f: Path, b: nat)
    requires OwnerGrants(conf, root, id, f, b)
    ensures GrantedOnTree(conf, root, id, f, b)
  {
    hide PrivsAt, InheritedPrivs;
    if b in InheritedPrivs(conf, root, id, f) {
      assert f + [] == f && OnTree(root, f, []);
    } else {
      var q: Path :| q != [] && UserAt(root, f + q, Owner(id)) != map[] &&
        (b in PrivsAt(conf, root, id, f + q) || b in InheritedPrivs(conf, root, id, f + q));
      assert OnTree(root, f, q);
    }
  }

  /** For a token that is no superuser and a non-empty anchor, the answer is right for every set
      of privileges exactly when everything handed down past the anchor, and everything granted on
      or handed down past a node below with an entry of the owner, is noticed. */
  lemma TokenCompleteIff(conf: Conf, root: Node, id: Authid, anchor: seq<string>)
    requires Sound(conf, root) && id.IsToken() && !IsAdmin(conf, id) && anchor != []
    ensures AlwaysComplete(conf, root, id, anchor) <==>
            forall b :: OwnerGrants(conf, root, id, Flatten(anchor), b) ==> Noticed(conf, root, id, anchor, b)
  {
    hide Details, PrivsAt, InheritedPrivs, GrantedOnTree, AnyPrivsBelow, Sound, OwnerGrants, AlwaysComplete, IsAdmin;
    var f := Flatten(anchor);
    CompleteOnTreeIff(conf, root, id, anchor);
    forall b: nat | OwnerGrants(conf, root, id, f, b) ensures GrantedOnTree(conf, root, id, f, b) {
      OwnerGrantsOnTree(conf, root, id, f, b);
    }
    if forall b :: OwnerGrants(conf, root, id, f, b) ==> Noticed(conf, root, id, anchor, b) {
      forall b: nat | GrantedOnTree(conf, root, id, f, b) ensures Noticed(conf, root, id, anchor, b) {
        TreeDecides(conf, root, id, f, b);
        var q: Path :| q != [] && ProperPath(q) && PrivsAt(conf, root, id, f + q) * {b} != {};
        TokenSources(conf, root, id, f, q, b);
      }
    }
  }
}
