/** The order of Rust's `str` (byte order of UTF-8, which is code point order) and the
    enumeration of a set of strings in that order, as `BTreeSet`, `BTreeMap` and a sorted
    key list give it. */
module Ordering {

  predicate Less(a: string, b: string)
  {
    b != [] && (a == [] || a[0] < b[0] || (a[0] == b[0] && Less(a[1..], b[1..])))
  }

  /** The first difference decides, by code point, and a text comes after its prefixes. */
  ghost predicate DiffersAt(a: string, b: string, k: nat)
  {
    k <= |a| && k < |b| && a[..k] == b[..k] && (k == |a| || a[k] < b[k])
  }

  lemma {:induction false} LessIff(a: string, b: string)
    ensures Less(a, b) <==> exists k: nat :: DiffersAt(a, b, k)
    decreases |a|
  {
    forall k: nat | DiffersAt(a, b, k) ensures Less(a, b) { DifferenceDecides(a, b, k); }
    if Less(a, b) { var k := Difference(a, b); }
  }

  lemma {:induction false} DifferenceDecides(a: string, b: string, k: nat)
    requires DiffersAt(a, b, k)
    ensures Less(a, b)
    decreases k
  {
    if k > 0 {
      assert a[0] == a[..k][0] == b[..k][0] == b[0];
      assert a[1..][..k - 1] == a[..k][1..] && b[1..][..k - 1] == b[..k][1..];
      DifferenceDecides(a[1..], b[1..], k - 1);
    }
  }

  lemma {:induction false} Difference(a: string, b: string) returns (k: nat)
    requires Less(a, b)
    ensures DiffersAt(a, b, k)
    decreases |a|
  {
    if a == [] || a[0] < b[0] {
      k := 0;
    } else {
      var j := Difference(a[1..], b[1..]);
      k := j + 1;
      assert a[..k] == [a[0]] + a[1..][..j] && b[..k] == [b[0]] + b[1..][..j];
    }
  }

  lemma {:induction false} LessTotal(a: string, b: string)
    ensures a == b || Less(a, b) || Less(b, a)
    decreases |a|
  {
    if a != [] && b != [] && a[0] == b[0] {
      LessTotal(a[1..], b[1..]);
      assert a == [a[0]] + a[1..] && b == [b[0]] + b[1..];
    }
  }

  lemma {:induction false} LessTransitive(a: string, b: string, c: string)
    requires Less(a, b) && Less(b, c)
    ensures Less(a, c)
    decreases |a|
  {
    if a != [] && a[0] == b[0] && b[0] == c[0] {
      LessTransitive(a[1..], b[1..], c[1..]);
    }
  }

  lemma {:induction false} LessAsymmetric(a: string, b: string)
    requires Less(a, b)
    ensures !Less(b, a) && a != b
    decreases |a|
  {
    if a != [] && a[0] == b[0] {
      LessAsymmetric(a[1..], b[1..]);
    }
  }

  /** Strictly increasing, hence without repetitions. */
  ghost predicate Increasing(s: seq<string>)
  {
    forall i, j :: 0 <= i < j < |s| ==> Less(s[i], s[j])
  }

  ghost function Elements(s: seq<string>): set<string>
  {
    set x | x in s
  }

  ghost predicate IsLeast(m: string, s: set<string>)
  {
    m in s && forall x :: x in s && x != m ==> Less(m, x)
  }

  lemma LeastExists(s: set<string>) returns (m: string)
    requires s != {}
    ensures IsLeast(m, s)
    decreases |s|
  {
    var x :| x in s;
    if s == {x} {
      m := x;
    } else {
      var rest := s - {x};
      assert s == rest + {x};
      var m' := LeastExists(rest);
      LessTotal(x, m');
      if Less(x, m') {
        m := x;
        forall y | y in s && y != x ensures Less(x, y) {
          if y != m' { LessTransitive(x, m', y); }
        }
      } else {
        m := m';
      }
    }
  }

  ghost function Least(s: set<string>): (m: string)
    requires s != {}
    ensures IsLeast(m, s)
  {
    assert exists m :: IsLeast(m, s) by { var m := LeastExists(s); }
    var m :| IsLeast(m, s);
    m
  }

  /** The elements of `s` in increasing order. */
  ghost function Sorted(s: set<string>): (r: seq<string>)
    ensures Increasing(r)
    ensures forall x :: x in r <==> x in s
    ensures |r| == |s|
    decreases |s|
  {
    if s == {} then []
    else
      var m := Least(s);
      var r := Sorted(s - {m});
      assert forall i :: 0 <= i < |r| ==> r[i] in r;
      [m] + r
  }

  /** There is only one increasing enumeration of a set. */
  lemma {:induction false} SortedUnique(r: seq<string>, s: seq<string>)
    requires Increasing(r) && Increasing(s)
    requires forall x :: x in r <==> x in s
    ensures r == s
    decreases |r|
  {
    assert r != [] ==> r[0] in r;
    assert s != [] ==> s[0] in s;
    if r != [] {
      HeadsAgree(r, s);
      forall x ensures x in r[1..] <==> x in s[1..] {
        TailMember(r, x);
        TailMember(s, x);
      }
      SortedUnique(r[1..], s[1..]);
      assert r == [r[0]] + r[1..] && s == [s[0]] + s[1..];
    }
  }

  lemma SortedInjective(s: set<string>, t: set<string>)
    requires Sorted(s) == Sorted(t)
    ensures s == t
  {
    assert forall x :: x in s <==> x in Sorted(s);
    assert forall x :: x in t <==> x in Sorted(t);
  }

  lemma SortedSingle(x: string)
    ensures Sorted({x}) == [x]
  {
    assert |Sorted({x})| == 1;
    assert Sorted({x})[0] in Sorted({x});
  }

  lemma TailMember(r: seq<string>, x: string)
    requires Increasing(r) && r != []
    ensures x in r[1..] <==> x in r && x != r[0]
  {
    if x in r[1..] {
      var k :| 0 <= k < |r[1..]| && r[1..][k] == x;
      LessAsymmetric(r[0], r[k + 1]);
    }
    if x in r && x != r[0] {
      var k :| 0 <= k < |r| && r[k] == x;
      assert r[1..][k - 1] == x;
    }
  }

  lemma HeadsAgree(r: seq<string>, s: seq<string>)
    requires Increasing(r) && Increasing(s) && r != [] && s != []
    requires forall x :: x in r <==> x in s
    ensures r[0] == s[0]
  {
    assert r[0] in s && s[0] in r;
    if r[0] != s[0] {
      var i :| 0 <= i < |s| && s[i] == r[0];
      var j :| 0 <= j < |r| && r[j] == s[0];
      LessAsymmetric(s[0], r[0]);
    }
  }

  /** Insertion into an increasing list; a repeated element is dropped. */
  method InsertOrdered(xs: seq<string>, x: string) returns (r: seq<string>)
    requires Increasing(xs)
    ensures Increasing(r)
    ensures forall y :: y in r <==> y in xs || y == x
  {
    hide Less, Increasing;
    var k := 0;
    while k < |xs| && Less(xs[k], x)
      invariant 0 <= k <= |xs|
      invariant forall i :: 0 <= i < k ==> Less(xs[i], x)
    {
      k := k + 1;
    }
    if k < |xs| && xs[k] == x {
      return xs;
    }
    r := xs[..k] + [x] + xs[k..];
    InsertedIncreasing(xs, k, x);
    assert xs == xs[..k] + xs[k..];
  }

  lemma InsertedIncreasing(xs: seq<string>, k: nat, x: string)
    requires Increasing(xs) && k <= |xs| && forall i :: 0 <= i < k ==> Less(xs[i], x)
    requires k < |xs| ==> !Less(xs[k], x) && xs[k] != x
    ensures Increasing(xs[..k] + [x] + xs[k..])
  {
    hide Less;
    forall j | k <= j < |xs| ensures Less(x, xs[j]) {
      LessTotal(x, xs[k]);
      if k < j { LessTransitive(x, xs[k], xs[j]); }
    }
  }

  /** Sorting a list of keys gives the one increasing enumeration of the keys, whatever the
      order the list came in. */
  method Sort(keys: seq<string>) returns (r: seq<string>)
    ensures r == Sorted(Elements(keys))
  {
    r := [];
    for i := 0 to |keys|
      invariant Increasing(r)
      invariant forall y :: y in r <==> y in keys[..i]
    {
      r := InsertOrdered(r, keys[i]);
      assert keys[..i + 1] == keys[..i] + [keys[i]];
    }
    assert keys[..|keys|] == keys;
    SortedUnique(r, Sorted(Elements(keys)));
  }
}
