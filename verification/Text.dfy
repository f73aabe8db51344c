/** String operations of the Rust standard library that the modelled code relies on:
    splitting at a separator, joining, trimming and iterating over lines. */
module Text {

  lemma CutAt(s: string, i: nat)
    requires i < |s|
    ensures s == s[..i] + [s[i]] + s[i + 1..]
  {
  }

  lemma AppendAssoc<T>(a: seq<T>, b: seq<T>, c: seq<T>)
    ensures a + b + c == a + (b + c)
  {
  }

  lemma Regroup<T>(a: seq<T>, b: seq<T>, c: seq<T>, d: seq<T>)
    ensures a + b + c + d == a + b + (c + d)
  {
  }

  /** A text that ends where a character follows that `b` does not have is not shorter than `b`. */
  lemma NotShorter(a: string, s: string, b: string, t: string)
    requires a + s == b + t && (s == [] || s[0] !in b)
    ensures |a| >= |b|
  {
    var x, y := a + s, b + t;
    assert forall i :: 0 <= i < |b| ==> y[i] == b[i];
    assert |s| > 0 ==> x[|a|] == s[0];
  }

  predicate IsFirstIndex(s: string, c: char, i: nat)
  {
    i < |s| && s[i] == c && forall k :: 0 <= k < i ==> s[k] != c
  }

  lemma {:induction false} FirstIndexExists(s: string, c: char)
    requires c in s
    ensures exists i: nat :: i < |s| && IsFirstIndex(s, c, i)
    decreases |s|
  {
    if s[0] == c {
      assert IsFirstIndex(s, c, 0);
    } else {
      FirstIndexExists(s[1..], c);
      var i: nat :| i < |s[1..]| && IsFirstIndex(s[1..], c, i);
      assert IsFirstIndex(s, c, i + 1);
    }
  }

  /** Position of the first `c` in `s`; `|s|` when there is none. */
  function IndexOf(s: string, c: char): (i: nat)
    ensures i <= |s|
    ensures i == |s| <==> c !in s
    ensures i < |s| ==> IsFirstIndex(s, c, i) && c !in s[..i]
  {
    if c !in s then |s|
    else
      FirstIndexExists(s, c);
      var i: nat :| i < |s| && IsFirstIndex(s, c, i);
      i
  }

  /** `str::split(char)`: always at least one part, empty parts are kept. */
  function Split(s: string, sep: char): (parts: seq<string>)
    ensures |parts| >= 1
    ensures forall k :: 0 <= k < |parts| ==> sep !in parts[k]
    decreases |s|
  {
    var i := IndexOf(s, sep);
    if i == |s| then [s] else [s[..i]] + Split(s[i + 1..], sep)
  }

  /** `[T]::join(sep)` */
  function Join(parts: seq<string>, sep: char): string
  {
    if |parts| == 0 then ""
    else if |parts| == 1 then parts[0]
    else parts[0] + [sep] + Join(parts[1..], sep)
  }

  ghost predicate FreeOf(parts: seq<string>, c: char)
  {
    forall k :: 0 <= k < |parts| ==> c !in parts[k]
  }

  lemma IndexOfPrefix(a: string, c: char, b: string)
    requires c !in a
    ensures IndexOf(a + [c] + b, c) == |a|
  {
    var s := a + [c] + b;
    assert s[|a|] == c;
    assert forall k :: 0 <= k < |a| ==> s[k] == a[k];
  }

  lemma SplitHead(a: string, sep: char, b: string)
    requires sep !in a
    ensures Split(a + [sep] + b, sep) == [a] + Split(b, sep)
  {
    IndexOfPrefix(a, sep, b);
    assert (a + [sep] + b)[..|a|] == a;
    assert (a + [sep] + b)[|a| + 1..] == b;
  }

  /** Splitting is a homomorphism: a separator between two texts splits them independently. */
  lemma {:induction false} SplitAppend(a: string, sep: char, b: string)
    ensures Split(a + [sep] + b, sep) == Split(a, sep) + Split(b, sep)
    decreases |a|
  {
    var i := IndexOf(a, sep);
    if i == |a| {
      SplitHead(a, sep, b);
    } else {
      var h, t := a[..i], a[i + 1..];
      assert a + [sep] + b == h + [sep] + (t + [sep] + b) by {
        CutAt(a, i);
        Regroup(h, [sep], t, [sep] + b);
        AppendAssoc(a, [sep], b);
        AppendAssoc(t, [sep], b);
      }
      SplitHead(h, sep, t + [sep] + b);
      SplitAppend(t, sep, b);
      AppendAssoc([h], Split(t, sep), Split(b, sep));
    }
  }

  lemma {:induction false} SplitJoin(parts: seq<string>, sep: char)
    requires |parts| >= 1 && FreeOf(parts, sep)
    ensures Split(Join(parts, sep), sep) == parts
    decreases |parts|
  {
    if |parts| > 1 {
      SplitHead(parts[0], sep, Join(parts[1..], sep));
      SplitJoin(parts[1..], sep);
      assert parts == [parts[0]] + parts[1..];
    }
  }

  lemma {:induction false} JoinSplit(s: string, sep: char)
    ensures Join(Split(s, sep), sep) == s
    decreases |s|
  {
    var i := IndexOf(s, sep);
    if i < |s| {
      CutAt(s, i);
      JoinSplit(s[i + 1..], sep);
    }
  }

  lemma {:induction false} JoinLast(parts: seq<string>, sep: char, last: string)
    requires parts != []
    ensures Join(parts + [last], sep) == Join(parts, sep) + [sep] + last
    decreases |parts|
  {
    if |parts| == 1 {
      assert (parts + [last])[1..] == [last];
    } else {
      JoinLast(parts[1..], sep, last);
      assert (parts + [last])[1..] == parts[1..] + [last];
      Regroup(parts[0], [sep], Join(parts[1..], sep), [sep] + last);
      AppendAssoc(Join(parts[1..], sep), [sep], last);
      AppendAssoc(Join(parts, sep), [sep], last);
    }
  }

  lemma {:induction false} JoinFreeOf(parts: seq<string>, sep: char, c: char)
    requires FreeOf(parts, c) && c != sep
    ensures c !in Join(parts, sep)
    decreases |parts|
  {
    if |parts| > 1 {
      JoinFreeOf(parts[1..], sep, c);
    }
  }

  /** The Unicode `White_Space` characters, as used by `str::trim` and by `\s`. */
  predicate IsWhite(c: char)
  {
    var n := c as int;
    0x09 <= n <= 0x0d || n == 0x20 || n == 0x85 || n == 0xa0 || n == 0x1680 ||
    0x2000 <= n <= 0x200a || n == 0x2028 || n == 0x2029 || n == 0x202f || n == 0x205f || n == 0x3000
  }

  function TrimStart(s: string): string
  {
    if s != [] && IsWhite(s[0]) then TrimStart(s[1..]) else s
  }

  function TrimEnd(s: string): string
  {
    if s != [] && IsWhite(s[|s| - 1]) then TrimEnd(s[..|s| - 1]) else s
  }

  function Trim(s: string): string
  {
    TrimEnd(TrimStart(s))
  }

  /** A text `Trim` leaves alone. */
  ghost predicate Trimmed(s: string)
  {
    s != [] ==> !IsWhite(s[0]) && !IsWhite(s[|s| - 1])
  }

  lemma TrimTrimmed(s: string)
    requires Trimmed(s)
    ensures Trim(s) == s
  {
  }

  ghost predicate AllWhite(s: string)
  {
    forall i :: 0 <= i < |s| ==> IsWhite(s[i])
  }

  lemma {:induction false} TrimStartCuts(s: string) returns (a: string)
    ensures AllWhite(a) && s == a + TrimStart(s) && (TrimStart(s) != [] ==> !IsWhite(TrimStart(s)[0]))
    decreases |s|
  {
    if s != [] && IsWhite(s[0]) {
      a := TrimStartCuts(s[1..]);
      a := [s[0]] + a;
    } else {
      a := [];
    }
  }

  lemma {:induction false} TrimEndCuts(s: string) returns (b: string)
    ensures AllWhite(b) && s == TrimEnd(s) + b && (TrimEnd(s) != [] ==> !IsWhite(TrimEnd(s)[|TrimEnd(s)| - 1]))
    decreases |s|
  {
    if s != [] && IsWhite(s[|s| - 1]) {
      b := TrimEndCuts(s[..|s| - 1]);
      AppendAssoc(TrimEnd(s), b, [s[|s| - 1]]);
      b := b + [s[|s| - 1]];
    } else {
      b := [];
    }
  }

  /** Trimming takes away the white space on both sides, and all of it. */
  lemma TrimCuts(s: string) returns (a: string, b: string)
    ensures AllWhite(a) && AllWhite(b) && s == a + Trim(s) + b && Trimmed(Trim(s))
  {
    a := TrimStartCuts(s);
    b := TrimEndCuts(TrimStart(s));
    AppendAssoc(a, Trim(s), b);
  }

  /** Drops one trailing carriage return, as `str::lines` does at a line end. */
  function StripCr(s: string): string
  {
    if s != [] && s[|s| - 1] == '\r' then s[..|s| - 1] else s
  }

  /** `str::lines`: split at line feeds; a final line feed does not start another line. */
  function Lines(s: string): (ls: seq<string>)
    decreases |s|
  {
    if s == [] then []
    else
      var i := IndexOf(s, '\n');
      if i == |s| then [s] else [StripCr(s[..i])] + Lines(s[i + 1..])
  }

  function Unlines(ls: seq<string>): string
  {
    if ls == [] then "" else ls[0] + "\n" + Unlines(ls[1..])
  }

  /** A text that is one line of a file: no line feed, and no carriage return a reader would drop. */
  ghost predicate IsLine(l: string)
  {
    '\n' !in l && StripCr(l) == l
  }

  lemma LinesHead(l: string, rest: string)
    requires IsLine(l)
    ensures Lines(l + ['\n'] + rest) == [l] + Lines(rest)
  {
    var s := l + ['\n'] + rest;
    IndexOfPrefix(l, '\n', rest);
    assert s[..|l|] == l && s[|l| + 1..] == rest;
  }

  lemma {:induction false} LinesUnlines(ls: seq<string>)
    requires forall k :: 0 <= k < |ls| ==> IsLine(ls[k])
    ensures Lines(Unlines(ls)) == ls
    decreases |ls|
  {
    if ls != [] {
      LinesHead(ls[0], Unlines(ls[1..]));
      LinesUnlines(ls[1..]);
    }
  }
}
