/** Little-endian packed records: what `write_struct` emits for a packed structure, and how a
    reader takes such a record apart. */
module Bytes {
  import opened Wrappers
  import opened Text

  type byte = x: int | 0 <= x < 256

  function Pow256(n: nat): (p: nat)
    ensures p > 0
  {
    if n == 0 then 1 else 256 * Pow256(n - 1)
  }

  /** The low `width` bytes of `v`, least significant first; higher bytes are cut off. */
  function LE(v: nat, width: nat): (b: seq<byte>)
    ensures |b| == width
    decreases width
  {
    if width == 0 then [] else [v % 256] + LE(v / 256, width - 1)
  }

  function FromLE(b: seq<byte>): nat
  {
    if b == [] then 0 else b[0] + 256 * FromLE(b[1..])
  }

  lemma SmallMultiple(d: int, k: int)
    requires -d < d * k < d
    ensures k == 0
  {
  }

  lemma QuotientUnique(v: int, d: int, q: int, r: int, x: int, y: int)
    requires v == d * q + r == d * x + y && 0 <= r < d && 0 <= y < d
    ensures x == q
  {
    assert d * (x - q) == r - y;
    SmallMultiple(d, x - q);
  }

  lemma DivideTwice(v: nat, p: nat)
    requires p > 0
    ensures v / 256 / p == v / (256 * p)
  {
    var q, d := v / 256, v / 256 / p;
    assert q == p * d + q % p;
    assert 256 * q == 256 * p * d + 256 * (q % p);
    var n := 256 * p;
    assert v == n * (v / n) + v % n;
    QuotientUnique(v, n, d, 256 * (q % p) + v % 256, v / n, v % n);
  }

  /** The byte order: byte `i` has the weight 256 to the power `i`. */
  lemma {:induction false} ByteAt(v: nat, width: nat, i: nat)
    requires i < width
    ensures LE(v, width)[i] == v / Pow256(i) % 256
    decreases i
  {
    if i > 0 {
      ByteAt(v / 256, width - 1, i - 1);
      DivideTwice(v, Pow256(i - 1));
    }
  }

  lemma {:induction false} FromLEofLE(v: nat, width: nat)
    requires v < Pow256(width)
    ensures FromLE(LE(v, width)) == v
    decreases width
  {
    if width > 0 {
      FromLEofLE(v / 256, width - 1);
      assert LE(v, width)[1..] == LE(v / 256, width - 1);
    }
  }

  lemma Widths()
    ensures Pow256(2) == 0x1_0000 && Pow256(4) == 0x1_0000_0000 && Pow256(8) == 0x1_0000_0000_0000_0000
  {
    assert Pow256(1) == 256 && Pow256(2) == 0x1_0000 && Pow256(3) == 0x100_0000;
    assert Pow256(4) == 0x1_0000_0000 && Pow256(5) == 0x100_0000_0000 && Pow256(6) == 0x1_0000_0000_0000;
    assert Pow256(7) == 0x100_0000_0000_0000;
  }

  function Sum(widths: seq<nat>): nat
  {
    if widths == [] then 0 else widths[0] + Sum(widths[1..])
  }

  function SumTo(widths: seq<nat>, n: nat): nat
    requires n <= |widths|
  {
    if n == 0 then 0 else SumTo(widths, n - 1) + widths[n - 1]
  }

  lemma {:induction false} SumSplit(widths: seq<nat>, n: nat)
    requires n <= |widths|
    ensures Sum(widths) == SumTo(widths, n) + Sum(widths[n..])
    decreases n
  {
    if n == 0 {
      assert widths[0..] == widths;
    } else {
      SumSplit(widths, n - 1);
      assert widths[n - 1..][1..] == widths[n..];
    }
  }

  lemma SumAll(widths: seq<nat>)
    ensures Sum(widths) == SumTo(widths, |widths|)
  {
    SumSplit(widths, |widths|);
  }

  /** The fields of a record one after the other. */
  function Encode(values: seq<nat>, widths: seq<nat>): (b: seq<byte>)
    requires |values| == |widths|
    ensures |b| == Sum(widths)
  {
    if widths == [] then [] else LE(values[0], widths[0]) + Encode(values[1..], widths[1..])
  }

  function Decode(b: seq<byte>, widths: seq<nat>): (values: seq<nat>)
    requires |b| >= Sum(widths)
    ensures |values| == |widths|
    decreases |widths|
  {
    if widths == [] then []
    else [FromLE(b[..widths[0]])] + Decode(b[widths[0]..], widths[1..])
  }

  ghost predicate Fits(values: seq<nat>, widths: seq<nat>)
    requires |values| == |widths|
  {
    forall i :: 0 <= i < |values| ==> values[i] < Pow256(widths[i])
  }

  /** Reading a record gives back the values it was made of. */
  lemma {:induction false} DecodeEncode(values: seq<nat>, widths: seq<nat>, rest: seq<byte>)
    requires |values| == |widths| && Fits(values, widths)
    ensures Decode(Encode(values, widths) + rest, widths) == values
    decreases |widths|
  {
    if widths != [] {
      var b := Encode(values, widths) + rest;
      var tail := Encode(values[1..], widths[1..]);
      AppendAssoc(LE(values[0], widths[0]), tail, rest);
      assert b[..widths[0]] == LE(values[0], widths[0]);
      assert b[widths[0]..] == tail + rest;
      FromLEofLE(values[0], widths[0]);
      DecodeEncode(values[1..], widths[1..], rest);
    }
  }

  /** Reading a record that starts at `pos` of a larger text. */
  lemma DecodeAt(a: seq<byte>, pos: nat, values: seq<nat>, widths: seq<nat>)
    requires |values| == |widths| && Fits(values, widths)
    requires pos + Sum(widths) <= |a| && a[pos..pos + Sum(widths)] == Encode(values, widths)
    ensures Decode(a[pos..], widths) == values
  {
    hide Decode, Encode, Sum;
    DecodeEncode(values, widths, a[pos + Sum(widths)..]);
    assert a[pos..] == Encode(values, widths) + a[pos + Sum(widths)..];
  }

  /** The record at `pos`, if the text is long enough. */
  function RecordAt(a: seq<byte>, pos: nat, widths: seq<nat>): (r: Option<seq<nat>>)
    ensures r.Some? ==> |r.value| == |widths| && pos + Sum(widths) <= |a|
  {
    if pos + Sum(widths) > |a| then None else Some(Decode(a[pos..], widths))
  }

  lemma RecordReadsBack(a: seq<byte>, pos: nat, values: seq<nat>, widths: seq<nat>)
    requires |values| == |widths| && Fits(values, widths)
    requires pos + Sum(widths) <= |a| && a[pos..pos + Sum(widths)] == Encode(values, widths)
    ensures RecordAt(a, pos, widths) == Some(values)
  {
    hide Decode, Encode, Sum;
    DecodeAt(a, pos, values, widths);
  }
}
