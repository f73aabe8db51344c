/** The reader undoes the writer: from the end record it finds every entry with its name,
    checksum, 64 bit sizes and offset, and behind each offset the entry's data. */
module ZipRoundTrip {
  import opened Wrappers
  import opened Bytes
  import opened Zip

  /** Names up to 65535 bytes; the other fields are as wide as in the implementation. */
  ghost predicate EntryFits(e: Entry)
  {
    |e.name| <= M16 && e.time <= M16 && e.date <= M16 && e.mode <= M16 && e.crc <= M32 &&
    e.size < LIMIT64 && e.csize < LIMIT64 && e.offset < LIMIT64
  }

  ghost predicate AllFit(es: seq<Entry>)
  {
    forall k :: 0 <= k < |es| ==> EntryFits(es[k])
  }

  lemma CentralFits(e: Entry)
    requires EntryFits(e)
    ensures Fits(CentralValues(e), CENTRAL)
  {
    Widths();
    var v := CentralValues(e);
    forall i | 0 <= i < |v| ensures v[i] < Pow256(CENTRAL[i]) {
      hide Pow256;
    }
  }

  lemma Slices<T>(a: seq<T>, pos: nat, x: seq<T>, y: seq<T>, z: seq<T>)
    requires pos + |x| + |y| + |z| <= |a| && a[pos..pos + |x| + |y| + |z|] == x + y + z
    ensures a[pos..pos + |x|] == x
    ensures a[pos + |x|..pos + |x| + |y|] == y
    ensures a[pos + |x| + |y|..pos + |x| + |y| + |z|] == z
  {
    var s := a[pos..pos + |x| + |y| + |z|];
    assert s == x + y + z;
    forall k | 0 <= k < |x| ensures a[pos + k] == x[k] { assert s[k] == x[k]; }
    forall k | 0 <= k < |y| ensures a[pos + |x| + k] == y[k] { assert s[|x| + k] == y[k]; }
    forall k | 0 <= k < |z| ensures a[pos + |x| + |y| + k] == z[k] { assert s[|x| + |y| + k] == z[k]; }
  }

  // ---------------------------------------------------------------- the ZIP64 escapes

  lemma EncodeHead(v: nat, w: nat, vs: seq<nat>, ws: seq<nat>)
    requires |vs| == |ws|
    ensures Encode([v] + vs, [w] + ws) == LE(v, w) + Encode(vs, ws)
  {
    assert ([v] + vs)[1..] == vs && ([w] + ws)[1..] == ws;
  }

  lemma ExtraParts(e: Entry)
    requires NeedsZip64(e)
    ensures Extra(e) == LE(1, 2) + (LE(28, 2) + (LE(e.size, 8) + (LE(e.csize, 8) + (LE(e.offset, 8) + LE(0, 4)))))
  {
    hide LE, Encode;
    EncodeNothing();
    EncodeHead(0, 4, [], []);
    assert [0] + [] == [0] && [4] + [] == [4];
    EncodeHead(e.offset, 8, [0], [4]);
    assert [e.offset] + [0] == [e.offset, 0] && [8] + [4] == [8, 4];
    EncodeHead(e.csize, 8, [e.offset, 0], [8, 4]);
    assert [e.csize] + [e.offset, 0] == [e.csize, e.offset, 0] && [8] + [8, 4] == [8, 8, 4];
    EncodeHead(e.size, 8, [e.csize, e.offset, 0], [8, 8, 4]);
    var v4 := [e.size, e.csize, e.offset, 0];
    assert [e.size] + [e.csize, e.offset, 0] == v4 && [8] + [8, 8, 4] == [8, 8, 8, 4];
    EncodeHead(28, 2, v4, [8, 8, 8, 4]);
    EncodeHead(1, 2, [28] + v4, [2] + [8, 8, 8, 4]);
    assert [1] + ([28] + v4) == [1, 28, e.size, e.csize, e.offset, 0];
    assert [2] + ([2] + [8, 8, 8, 4]) == CENTRAL64;
  }

  lemma EncodeNothing()
    ensures Encode([], []) == []
  {
  }

  lemma BodyOfExtra(b: seq<byte>)
    requires |b| == 28
    ensures Zip64Body(LE(1, 2) + (LE(28, 2) + b)) == Some(b)
  {
    hide LE, FromLE, Pow256;
    var x := LE(1, 2) + (LE(28, 2) + b);
    assert x[..2] == LE(1, 2) && x[2..4] == LE(28, 2) && x[4..32] == b;
    Widths();
    FromLEofLE(1, 2);
    FromLEofLE(28, 2);
  }

  lemma TakeNext(v: nat, b: seq<byte>)
    requires v < LIMIT64
    ensures Take64(M32, LE(v, 8) + b) == Some((v, b))
  {
    hide LE, FromLE, Pow256;
    Widths();
    FromLEofLE(v, 8);
    assert (LE(v, 8) + b)[..8] == LE(v, 8) && (LE(v, 8) + b)[8..] == b;
  }

  /** The escape values and the extra field give back the 64 bit values. */
  lemma ResolveEntry(e: Entry)
    requires EntryFits(e)
    ensures var v := CentralValues(e); Resolve(v[9], v[8], v[16], Extra(e)) == Some((e.size, e.csize, e.offset))
  {
    hide LE, Encode, FromLE;
    if NeedsZip64(e) {
      ExtraParts(e);
      var b3 := LE(0, 4);
      var b2 := LE(e.offset, 8) + b3;
      var b1 := LE(e.csize, 8) + b2;
      var b0 := LE(e.size, 8) + b1;
      BodyOfExtra(b0);
      TakeNext(e.size, b1);
      TakeNext(e.csize, b2);
      TakeNext(e.offset, b3);
    } else {
      assert Zip64Body([]) == None;
    }
  }

  lemma ExtraLength(e: Entry)
    ensures |Extra(e)| == if NeedsZip64(e) then 32 else 0
  {
    RecordSizes();
  }

  lemma CentralLength(e: Entry)
    ensures |CentralHeader(e)| == CentralSize(e)
  {
    hide Sum, Encode, Extra, CentralValues;
    RecordSizes();
    ExtraLength(e);
  }

  // ---------------------------------------------------------------- the central directory

  lemma CentralReadsBack(a: seq<byte>, pos: nat, e: Entry)
    requires EntryFits(e) && pos + CentralSize(e) <= |a| && a[pos..pos + CentralSize(e)] == CentralHeader(e)
    ensures ReadCentral(a, pos) == Some((InfoOf(e), pos + CentralSize(e)))
  {
    hide Sum, Encode, Extra, Resolve, RecordAt, Fits;
    RecordSizes();
    ExtraLength(e);
    var v := CentralValues(e);
    Slices(a, pos, Encode(v, CENTRAL), e.name, Extra(e));
    CentralFits(e);
    RecordReadsBack(a, pos, v, CENTRAL);
    ResolveEntry(e);
  }

  lemma {:induction false} DirectoryReadsBack(a: seq<byte>, pos: nat, es: seq<Entry>)
    requires AllFit(es) && pos + |Centrals(es)| <= |a| && a[pos..pos + |Centrals(es)|] == Centrals(es)
    ensures ReadDirectory(a, pos, |es|) == Some((Infos(es), pos + |Centrals(es)|))
    decreases |es|
  {
    hide ReadCentral, CentralHeader, CentralSize, InfoOf;
    if es != [] {
      var e, rest := es[0], es[1..];
      CentralLength(e);
      Slices(a, pos, CentralHeader(e), Centrals(rest), []);
      assert CentralHeader(e) + Centrals(rest) + [] == Centrals(es);
      CentralReadsBack(a, pos, e);
      DirectoryReadsBack(a, pos + CentralSize(e), rest);
    }
  }

  // ---------------------------------------------------------------- the end of the archive

  /** An end record whose values need no ZIP64 record but look like an escape. */
  predicate LooksEscaped(count: nat, dirSize: nat, dirOffset: nat)
  {
    dirSize <= M32 && dirOffset <= M32 && count <= M16 &&
    (dirSize == M32 || dirOffset == M32 || count == M16)
  }

  lemma EndFits(count: nat, dirSize: nat, dirOffset: nat)
    requires count <= M16 && dirSize <= M32 && dirOffset <= M32
    ensures Fits(EndValues(count, dirSize, dirOffset), END)
  {
    hide Pow256;
    Widths();
  }

  lemma PlainEndReadsBack(pre: seq<byte>, count: nat, dirSize: nat, dirOffset: nat)
    requires count < M16 && dirSize < M32 && dirOffset < M32
    ensures ReadEnd(pre + Encode(EndValues(count, dirSize, dirOffset), END)) ==
            Some(Directory(count, dirSize, dirOffset))
  {
    hide Sum, Encode, RecordAt, Fits;
    var v := EndValues(count, dirSize, dirOffset);
    var a := pre + Encode(v, END);
    EndFits(count, dirSize, dirOffset);
    assert a[|pre|..|pre| + Sum(END)] == Encode(v, END);
    RecordReadsBack(a, |pre|, v, END);
  }

  lemma End64Fits(count: nat, dirSize: nat, dirOffset: nat)
    requires count < LIMIT64 && dirSize < LIMIT64 && dirOffset < LIMIT64
    ensures Fits(End64Values(count, dirSize, dirOffset), END64)
  {
    hide Pow256;
    Widths();
  }

  lemma LocatorFits(pos: nat)
    requires pos < LIMIT64
    ensures Fits([LOCATOR_SIG, 0, pos, 1], LOCATOR)
  {
    hide Pow256;
    Widths();
  }

  lemma BigEndReadsBack(pre: seq<byte>, count: nat, dirSize: nat, dirOffset: nat)
    requires |pre| == dirOffset + dirSize && |pre| < LIMIT64 && count < LIMIT64
    ensures ReadEnd(pre + (Encode(End64Values(count, dirSize, dirOffset), END64) +
                           Encode([LOCATOR_SIG, 0, dirOffset + dirSize, 1], LOCATOR) +
                           Encode(EndValues(M16, M32, M32), END))) == Some(Directory(count, dirSize, dirOffset))
  {
    hide Sum, Encode, RecordAt, Fits;
    var v64, ve := End64Values(count, dirSize, dirOffset), EndValues(M16, M32, M32);
    var vl := [LOCATOR_SIG, 0, dirOffset + dirSize, 1];
    var a := pre + (Encode(v64, END64) + Encode(vl, LOCATOR) + Encode(ve, END));
    var p1, p2 := |pre| + Sum(END64), |pre| + Sum(END64) + Sum(LOCATOR);
    assert a[|pre|..] == Encode(v64, END64) + Encode(vl, LOCATOR) + Encode(ve, END);
    Slices(a, |pre|, Encode(v64, END64), Encode(vl, LOCATOR), Encode(ve, END));
    End64Fits(count, dirSize, dirOffset);
    LocatorFits(dirOffset + dirSize);
    EndFits(M16, M32, M32);
    RecordReadsBack(a, p2, ve, END);
    RecordReadsBack(a, p1, vl, LOCATOR);
    RecordReadsBack(a, |pre|, v64, END64);
  }

  lemma EndReadsBack(pre: seq<byte>, count: nat, dirSize: nat, dirOffset: nat)
    requires |pre| == dirOffset + dirSize && |pre| < LIMIT64 && count < LIMIT64
    requires !LooksEscaped(count, dirSize, dirOffset)
    ensures ReadEnd(pre + EndRecords(count, dirSize, dirOffset)) == Some(Directory(count, dirSize, dirOffset))
  {
    hide ReadEnd, Encode;
    if dirSize > M32 || dirOffset > M32 || count > M16 {
      BigEndReadsBack(pre, count, dirSize, dirOffset);
    } else {
      PlainEndReadsBack(pre, count, dirSize, dirOffset);
    }
  }

  // ---------------------------------------------------------------- whole archives

  lemma AllSizesFit(es: seq<Entry>, datas: seq<seq<byte>>)
    requires |es| == |datas|
    ensures |es| <= |Centrals(es)|
    decreases |es|
  {
    if es != [] {
      AllSizesFit(es[1..], datas[1..]);
      CentralLength(es[0]);
    }
  }

  /** Reading a written archive gives exactly the entries, in order, across all combinations of
      ZIP64 escapes. */
  lemma ReadUndoesWrite(es: seq<Entry>, datas: seq<seq<byte>>)
    requires |es| == |datas| && AllFit(es) && |Archive(es, datas)| < LIMIT64
    requires !LooksEscaped(|es|, |Centrals(es)|, |Locals(es, datas)|)
    ensures Read(Archive(es, datas)) == Some(Infos(es))
  {
    hide ReadEnd, ReadDirectory, EndRecords, Locals, Centrals, AllFit, Infos;
    var locals, dir := Locals(es, datas), Centrals(es);
    var end := EndRecords(|es|, |dir|, |locals|);
    var a := Archive(es, datas);
    AllSizesFit(es, datas);
    EndReadsBack(locals + dir, |es|, |dir|, |locals|);
    Slices(a, 0, locals, dir, end);
    DirectoryReadsBack(a, |locals|, es);
  }

  /** The bytes before the end record happen to form a ZIP64 locator, and what it leads to stands in
      for the record that was not written: it has the right values where the end record has escapes,
      or an offset at which a directory with the same entries is read. Whether a writer risks this
      at all is decided beforehand by `LooksEscaped`; this part depends on the written bytes. */
  ghost predicate StandIn(a: seq<byte>, es: seq<Entry>, dirSize: nat, dirOffset: nat)
  {
    |a| >= Sum(END) + Sum(LOCATOR) &&
    match ReadEnd64(a, |a| - Sum(END) - Sum(LOCATOR))
    case None => false
    case Some(d) =>
      (|es| == M16 ==> d.count == |es|) &&
      if dirOffset == M32
      then ReadDirectory(a, d.offset, |es|) == Some((Infos(es), d.offset + if dirSize == M32 then d.size else dirSize))
      else dirSize == M32 ==> d.size == dirSize
  }

  lemma {:induction false} ReadDirectoryLength(a: seq<byte>, pos: nat, count: nat)
    ensures ReadDirectory(a, pos, count).Some? ==> |ReadDirectory(a, pos, count).value.0| == count
    decreases count
  {
    hide ReadCentral;
    if count > 0 && ReadCentral(a, pos).Some? {
      ReadDirectoryLength(a, ReadCentral(a, pos).value.1, count - 1);
    }
  }

  lemma {:induction false} InfosLength(es: seq<Entry>)
    ensures |Infos(es)| == |es|
    decreases |es|
  {
    if es != [] { InfosLength(es[1..]); }
  }

  /** The end record of an archive that looks escaped: a reader goes on to the locator. */
  lemma EscapedEnd(pre: seq<byte>, count: nat, dirSize: nat, dirOffset: nat)
    requires LooksEscaped(count, dirSize, dirOffset)
    ensures var a := pre + EndRecords(count, dirSize, dirOffset);
            |a| == |pre| + Sum(END) &&
            ReadEnd(a) == if |pre| < Sum(LOCATOR) then None else
              match ReadEnd64(a, |pre| - Sum(LOCATOR))
              case None => None
              case Some(d) =>
                Some(Directory(if count == M16 then d.count else count,
                               if dirSize == M32 then d.size else dirSize,
                               if dirOffset == M32 then d.offset else dirOffset))
  {
    hide Encode, RecordAt, Fits, Sum, ReadEnd64;
    var v := EndValues(count, dirSize, dirOffset);
    var a := pre + Encode(v, END);
    EndFits(count, dirSize, dirOffset);
    assert a[|pre|..|pre| + Sum(END)] == Encode(v, END);
    RecordReadsBack(a, |pre|, v, END);
  }

  /** A reader gets the entries back exactly when no value of an end record without ZIP64 records
      equals its escape, or something stands in for the record it then looks for. */
  lemma ReadUndoesWriteIff(es: seq<Entry>, datas: seq<seq<byte>>)
    requires |es| == |datas| && AllFit(es) && |Archive(es, datas)| < LIMIT64
    ensures Read(Archive(es, datas)) == Some(Infos(es)) <==>
            !LooksEscaped(|es|, |Centrals(es)|, |Locals(es, datas)|) ||
            StandIn(Archive(es, datas), es, |Centrals(es)|, |Locals(es, datas)|)
  {
    hide ReadDirectory, ReadEnd, ReadEnd64, EndRecords, Locals, Centrals, AllFit, Infos, Sum;
    if LooksEscaped(|es|, |Centrals(es)|, |Locals(es, datas)|) {
      var locals, dir := Locals(es, datas), Centrals(es);
      var a := Archive(es, datas);
      EscapedEnd(locals + dir, |es|, |dir|, |locals|);
      Slices(a, 0, locals, dir, EndRecords(|es|, |dir|, |locals|));
      DirectoryReadsBack(a, |locals|, es);
      InfosLength(es);
      match ReadEnd(a)
      case None =>
      case Some(d) => ReadDirectoryLength(a, d.offset, d.count);
    } else {
      ReadUndoesWrite(es, datas);
    }
  }

  // ---------------------------------------------------------------- the data behind an offset

  ghost predicate Placed(es: seq<Entry>, datas: seq<seq<byte>>)
  {
    |es| == |datas| &&
    forall k :: 0 <= k < |es| ==> es[k].offset == |Locals(es[..k], datas[..k])| && es[k].csize == |datas[k]|
  }

  lemma LocalFits(e: Entry)
    requires EntryFits(e)
    ensures Fits(LocalValues(e), LOCAL) && Fits(DescriptorValues(e), DESCRIPTOR)
  {
    hide Pow256;
    Widths();
  }

  lemma LocalReadsBack(a: seq<byte>, e: Entry, data: seq<byte>)
    requires EntryFits(e) && e.csize == |data|
    requires e.offset + |Local(e, data)| <= |a| && a[e.offset..e.offset + |Local(e, data)|] == Local(e, data)
    ensures ReadData(a, InfoOf(e)) == Some(data)
  {
    hide Sum, Encode, RecordAt, Fits;
    RecordSizes();
    LocalFits(e);
    Slices(a, e.offset, LocalHeader(e), data, Descriptor(e));
    Slices(a, e.offset, Encode(LocalValues(e), LOCAL), e.name, Encode([1, 16, 0, 0], LOCAL64));
    RecordReadsBack(a, e.offset, LocalValues(e), LOCAL);
    assert LocalValues(e)[2..6] == [Flags(e), 8, e.time, e.date];
    RecordReadsBack(a, e.offset + |LocalHeader(e)| + |data|, DescriptorValues(e), DESCRIPTOR);
  }

  lemma {:induction false} LocalsPrefix(es: seq<Entry>, datas: seq<seq<byte>>, k: nat)
    requires |es| == |datas| && k <= |es|
    ensures |Locals(es[..k], datas[..k])| <= |Locals(es, datas)|
    ensures Locals(es, datas)[..|Locals(es[..k], datas[..k])|] == Locals(es[..k], datas[..k])
    decreases |es|
  {
    hide Local;
    if k == |es| {
      assert es[..k] == es && datas[..k] == datas;
    } else {
      var n := |es| - 1;
      LocalsPrefix(es[..n], datas[..n], k);
      assert es[..n][..k] == es[..k] && datas[..n][..k] == datas[..k];
    }
  }

  /** The local segment of the k-th entry stands where its offset says. */
  lemma LocalAt(es: seq<Entry>, datas: seq<seq<byte>>, k: nat, a: seq<byte>)
    requires Placed(es, datas) && k < |es|
    requires |Locals(es, datas)| <= |a| && a[..|Locals(es, datas)|] == Locals(es, datas)
    ensures es[k].offset + |Local(es[k], datas[k])| <= |a|
    ensures a[es[k].offset..es[k].offset + |Local(es[k], datas[k])|] == Local(es[k], datas[k])
  {
    hide Local;
    var l := Locals(es, datas);
    var pre := Locals(es[..k], datas[..k]);
    LocalsPrefix(es, datas, k + 1);
    assert es[..k + 1][..k] == es[..k] && datas[..k + 1][..k] == datas[..k];
    var upTo := Locals(es[..k + 1], datas[..k + 1]);
    assert upTo == pre + Local(es[k], datas[k]);
    assert a[..|upTo|] == upTo by { assert a[..|l|][..|upTo|] == a[..|upTo|]; }
    assert a[|pre|..|upTo|] == a[..|upTo|][|pre|..];
  }

  /** Behind the offset the directory gives for an entry stand its local header with the same
      name, its data, and a descriptor with the same checksum and sizes. */
  lemma DataReadsBack(es: seq<Entry>, datas: seq<seq<byte>>, k: nat)
    requires Placed(es, datas) && AllFit(es) && k < |es|
    ensures ReadData(Archive(es, datas), InfoOf(es[k])) == Some(datas[k])
  {
    hide Locals, Local, ReadData, InfoOf, EntryFits, EndRecords, Centrals;
    var a := Archive(es, datas);
    assert a[..|Locals(es, datas)|] == Locals(es, datas);
    LocalAt(es, datas, k, a);
    LocalReadsBack(a, es[k], datas[k]);
  }
}
