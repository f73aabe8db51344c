/** The encoder object: it counts the bytes it emits, remembers the entries, and writes the
    central directory and the end records when it is finished. A failing write loses the
    target. `target` is the bytes written so far. */
module ZipEncoder {
  import opened Wrappers
  import opened Text
  import opened Bytes
  import opened Zip
  import opened ZipRoundTrip

  datatype Error = NoTarget | Io

  /** Where writing an entry fails, if it does. */
  datatype Fault = NoFault | AtHeader | AtData | AtDescriptor

  /** What the Deflate stage did for an entry: the bytes it appended, the number of bytes it
      read and their checksum. */
  datatype Content = Content(compressed: seq<byte>, totalIn: nat, crc: nat)

  /** An entry as `ZipEntry::new` makes it. */
  predicate Unwritten(e: Entry)
  {
    e.crc == 0 && e.size == 0 && e.csize == 0
  }

  /** Sizes and checksum as the Deflate stage reports them, and zero without content. */
  ghost predicate Measured(crc: nat, size: nat, csize: nat, content: Option<Content>)
  {
    match content
    case None => crc == 0 && size == 0 && csize == 0
    case Some(c) => crc == c.crc && size == c.totalIn && csize == |c.compressed|
  }

  /** `e` is the entry `entry` written at `offset` with that content. */
  ghost predicate Recorded(e: Entry, entry: Entry, offset: nat, content: Option<Content>)
  {
    e.name == entry.name && e.time == entry.time && e.date == entry.date && e.mode == entry.mode &&
    e.utf8 == entry.utf8 && e.offset == offset && Measured(e.crc, e.size, e.csize, content)
  }

  function Data(content: Option<Content>): seq<byte>
  {
    match content case None => [] case Some(c) => c.compressed
  }

  lemma {:induction false} CentralsAppend(es: seq<Entry>, e: Entry)
    ensures Centrals(es + [e]) == Centrals(es) + CentralHeader(e)
    decreases |es|
  {
    hide CentralHeader;
    if es == [] {
      assert es + [e] == [e] && [e][1..] == [];
    } else {
      assert (es + [e])[1..] == es[1..] + [e];
      CentralsAppend(es[1..], e);
      AppendAssoc(CentralHeader(es[0]), Centrals(es[1..]), CentralHeader(e));
    }
  }

  lemma LocalsAppend(es: seq<Entry>, datas: seq<seq<byte>>, e: Entry, d: seq<byte>)
    requires |es| == |datas|
    ensures Locals(es + [e], datas + [d]) == Locals(es, datas) + Local(e, d)
  {
    assert (es + [e])[..|es|] == es && (datas + [d])[..|es|] == datas;
  }

  lemma PlacedAppend(es: seq<Entry>, datas: seq<seq<byte>>, e: Entry, d: seq<byte>)
    requires Placed(es, datas) && e.offset == |Locals(es, datas)| && e.csize == |d|
    ensures Placed(es + [e], datas + [d])
  {
    hide Locals;
    var fs, ds := es + [e], datas + [d];
    forall k | 0 <= k < |fs| ensures fs[k].offset == |Locals(fs[..k], ds[..k])| && fs[k].csize == |ds[k]| {
      if k < |es| {
        assert fs[..k] == es[..k] && ds[..k] == datas[..k];
      } else {
        assert fs[..k] == es && ds[..k] == datas;
      }
    }
  }

  lemma LocalHeaderLength(e: Entry)
    ensures |LocalHeader(e)| == 30 + |e.name| + 20 && |Descriptor(e)| == 24
  {
    hide Encode, Sum;
    RecordSizes();
  }

  class Encoder {
    var byteCount: nat
    var files: seq<Entry>
    var target: Option<seq<byte>>
    ghost var datas: seq<seq<byte>>
    var written: seq<byte>

    /** The bytes emitted so far are the local segments of the entries, the byte count is their
        number, and every entry knows where its segment starts. */
    ghost predicate Valid()
      reads this
    {
      target.Some? ==>
        written == target.value && byteCount == |target.value| && Placed(files, datas) &&
        target.value == Locals(files, datas)
    }

    constructor ()
      ensures Valid() && target == Some([]) && files == [] && datas == []
    {
      byteCount, files, target := 0, [], Some([]);
      datas, written := [], [];
    }

    /** Without content there is no data to fail at. After a failure the target is gone, so no
        later call succeeds. */
    method AddEntry(entry: Entry, content: Option<Content>, fault: Fault) returns (r: Result<(), Error>)
      requires Valid() && Unwritten(entry)
      modifies this
      ensures Valid()
      ensures r.Ok? <==> old(target).Some? && (fault.NoFault? || (fault.AtData? && content.None?))
      ensures r.Err? ==> files == old(files) && datas == old(datas) && target.None?
      ensures old(target).None? ==> r == Err(NoTarget) && byteCount == old(byteCount)
      ensures r.Ok? ==> target.Some? && datas == old(datas) + [Data(content)]
      ensures r.Ok? ==>
                |files| == |old(files)| + 1 && files[..|old(files)|] == old(files) &&
                Recorded(files[|old(files)|], entry, old(byteCount), content)
    {
      hide LocalHeader, Descriptor, Locals;
      if target.None? { return Err(NoTarget); }
      var out := target.value;
      target := None;
      var e := entry.(offset := byteCount);
      ghost var first := e;
      LocalHeaderLength(e);
      if fault.AtHeader? { return Err(Io); }
      out := out + LocalHeader(e);
      byteCount := byteCount + 30 + |e.name| + 20;
      if content.Some? {
        if fault.AtData? { return Err(Io); }
        out := out + content.value.compressed;
        byteCount := byteCount + |content.value.compressed|;
        e := e.(csize := |content.value.compressed|, size := content.value.totalIn, crc := content.value.crc);
      }
      LocalHeaderLength(e);
      SameHeader(first, e);
      if fault.AtDescriptor? { return Err(Io); }
      out := out + Descriptor(e);
      byteCount := byteCount + 24;
      target := Some(out);
      ghost var d := Data(content);
      LocalsAppend(files, datas, e, d);
      PlacedAppend(files, datas, e, d);
      assert out == Locals(files, datas) + Local(e, d) by {
        if content.None? { assert LocalHeader(e) + [] == LocalHeader(e); }
        AppendAssoc(Locals(files, datas), LocalHeader(e), d);
        AppendAssoc(Locals(files, datas), LocalHeader(e) + d, Descriptor(e));
      }
      files := files + [e];
      datas := datas + [d];
      written := out;
      return Ok(());
    }

    /** Writes the directory and the end records and gives the target up; a second call, or an
        entry added later, fails. */
    method Finish(fault: bool) returns (r: Result<(), Error>)
      requires Valid()
      modifies this
      ensures Valid() && files == old(files) && datas == old(datas) && target.None?
      ensures r.Ok? <==> old(target).Some? && !fault
      ensures r.Ok? ==> |files| == |datas| && Placed(files, datas) && written == Archive(files, datas)
      ensures r.Err? ==> written == old(written)
    {
      hide Centrals, CentralHeader, Locals, EndRecords, CentralSize;
      if target.None? { return Err(NoTarget); }
      var out := target.value;
      target := None;
      var dirOffset := byteCount;
      var dirSize := 0;
      assert Centrals([]) == [] by { NoCentrals(); }
      for i := 0 to |files|
        invariant files == old(files) && datas == old(datas) && target.None? && written == old(written)
        invariant dirSize == |Centrals(files[..i])|
        invariant out == Locals(files, datas) + Centrals(files[..i])
      {
        CentralLength(files[i]);
        CentralsAppend(files[..i], files[i]);
        assert files[..i + 1] == files[..i] + [files[i]];
        AppendAssoc(Locals(files, datas), Centrals(files[..i]), CentralHeader(files[i]));
        out := out + CentralHeader(files[i]);
        dirSize := dirSize + CentralSize(files[i]);
      }
      assert files[..|files|] == files;
      out := WriteEnd(out, |files|, dirSize, dirOffset);
      if fault { return Err(Io); }
      written := out;
      return Ok(());
    }
  }

  lemma NoCentrals()
    ensures Centrals([]) == []
  {
  }

  lemma SameHeader(e: Entry, f: Entry)
    requires e.name == f.name && e.time == f.time && e.date == f.date && e.utf8 == f.utf8
    ensures LocalHeader(e) == LocalHeader(f)
  {
    hide Encode;
  }

  lemma EndRecordsParts(out: seq<byte>, count: nat, dirSize: nat, dirOffset: nat)
    ensures dirSize > M32 || dirOffset > M32 || count > M16 ==>
            out + EndRecords(count, dirSize, dirOffset) ==
            out + Encode(End64Values(count, dirSize, dirOffset), END64) +
            Encode([LOCATOR_SIG, 0, dirOffset + dirSize, 1], LOCATOR) + Encode(EndValues(M16, M32, M32), END)
    ensures !(dirSize > M32 || dirOffset > M32 || count > M16) ==>
            out + EndRecords(count, dirSize, dirOffset) == out + Encode(EndValues(count, dirSize, dirOffset), END)
  {
    hide Encode;
    var record := Encode(End64Values(count, dirSize, dirOffset), END64);
    var locator := Encode([LOCATOR_SIG, 0, dirOffset + dirSize, 1], LOCATOR);
    AppendAssoc(out, record, locator);
    AppendAssoc(out, record + locator, Encode(EndValues(M16, M32, M32), END));
  }

  /** A cast to an unsigned type with `limit` values. */
  function Cast(v: nat, limit: nat): (r: nat)
    requires limit > 0
    ensures v < limit ==> r == v
  {
    v % limit
  }

  /** `write_eocd`: the casts to 16 and 32 bits keep the low bytes. */
  method WriteEnd(out: seq<byte>, entryCount: nat, dirSize: nat, dirOffset: nat) returns (r: seq<byte>)
    ensures r == out + EndRecords(entryCount, dirSize, dirOffset)
  {
    hide Encode, EndRecords, Cast, Sum;
    EndRecordsParts(out, entryCount, dirSize, dirOffset);
    r := out;
    var count := Cast(entryCount, 0x1_0000);
    var size, offset := Cast(dirSize, 0x1_0000_0000), Cast(dirOffset, 0x1_0000_0000);
    if dirSize > M32 || dirOffset > M32 || entryCount > M16 {
      count, size, offset := M16, M32, M32;
      r := r + Encode(End64Values(entryCount, dirSize, dirOffset), END64);
      var locatorOffset := dirOffset + dirSize;
      r := r + Encode([LOCATOR_SIG, 0, locatorOffset, 1], LOCATOR);
    }
    r := r + Encode(EndValues(count, size, offset), END);
  }

  /** Values that fit their fields, and no value of the end record that looks like an escape. */
  ghost predicate Fitting(es: seq<Entry>, datas: seq<seq<byte>>)
    requires |es| == |datas|
  {
    AllFit(es) && |Archive(es, datas)| < LIMIT64 && !LooksEscaped(|es|, |Centrals(es)|, |Locals(es, datas)|)
  }

  /** A reader finds exactly these entries, in order, and behind each its data. */
  ghost predicate ReadsBack(a: seq<byte>, es: seq<Entry>, datas: seq<seq<byte>>)
    requires |es| == |datas|
  {
    Read(a) == Some(Infos(es)) && forall k :: 0 <= k < |es| ==> ReadData(a, InfoOf(es[k])) == Some(datas[k])
  }

  /** Everything the encoder finished can be read back. */
  lemma FinishedArchiveReadsBack(es: seq<Entry>, datas: seq<seq<byte>>)
    requires Placed(es, datas) && Fitting(es, datas)
    ensures ReadsBack(Archive(es, datas), es, datas)
  {
    hide Archive, Read, ReadData, Infos, InfoOf, Centrals, Locals;
    ReadUndoesWrite(es, datas);
    forall k | 0 <= k < |es| ensures ReadData(Archive(es, datas), InfoOf(es[k])) == Some(datas[k]) {
      DataReadsBack(es, datas, k);
    }
  }

  datatype Item = Item(entry: Entry, content: Option<Content>, fault: Fault)

  predicate Written(item: Item)
  {
    item.fault.NoFault? || (item.fault.AtData? && item.content.None?)
  }

  /** The entries and data an archive was made of. */
  ghost predicate MadeOf(items: seq<Item>, es: seq<Entry>, datas: seq<seq<byte>>)
  {
    |es| == |datas| == |items| &&
    forall k :: 0 <= k < |items| ==>
      Recorded(es[k], items[k].entry, es[k].offset, items[k].content) && datas[k] == Data(items[k].content)
  }

  predicate Bit(v: nat, weight: nat)
    requires weight > 0
  {
    v / weight % 2 == 1
  }

  /** What a reader finds in the directory is what the item says: made under Unix, so that the upper
      half of the attributes is the mode, with the MS-DOS directory bit below; deflated, with a data
      descriptor (bit 3) and marked as UTF-8 (bit 11) where the name is; and with the sizes and the
      checksum of the content. */
  ghost predicate Tells(info: Info, item: Item)
  {
    info.name == item.entry.name && info.time == item.entry.time && info.date == item.entry.date &&
    info.madeBy / 0x100 == 3 && info.attributes / 0x1_0000 == item.entry.mode &&
    (Bit(info.attributes, 0x10) <==> Bit(item.entry.mode, 0x4000)) &&
    info.compression == 8 && Bit(info.flags, 8) && (Bit(info.flags, 0x800) <==> item.entry.utf8) &&
    Measured(info.crc, info.size, info.csize, item.content)
  }

  /** A reader finds exactly the items, in order, and behind each its data. */
  ghost predicate FilesOf(a: seq<byte>, items: seq<Item>)
  {
    Read(a).Some? && |Read(a).value| == |items| &&
    forall k :: 0 <= k < |items| ==>
      Tells(Read(a).value[k], items[k]) && ReadData(a, Read(a).value[k]) == Some(Data(items[k].content))
  }

  lemma InfoTells(e: Entry, item: Item)
    requires Recorded(e, item.entry, e.offset, item.content)
    ensures Tells(InfoOf(e), item)
  {
    AttributeBits(e);
  }

  lemma AttributeBits(e: Entry)
    ensures ExternalAttributes(e) / 0x1_0000 == e.mode
    ensures Bit(ExternalAttributes(e), 0x10) <==> Bit(e.mode, 0x4000)
  {
    var bit := if e.mode / 0x4000 % 2 == 1 then 1 else 0;
    var v := ExternalAttributes(e);
    assert v == 0x1_0000 * e.mode + 0x10 * bit;
    Quotient(v, 0x1_0000, e.mode, 0x10 * bit);
    Quotient(v, 0x10, 0x1000 * e.mode + bit, 0);
    Quotient(0x1000 * e.mode + bit, 2, 0x800 * e.mode, bit);
  }

  lemma Quotient(v: nat, d: nat, q: nat, r: nat)
    requires r < d && v == d * q + r
    ensures v / d == q && v % d == r
  {
    QuotientUnique(v, d, q, r, v / d, v % d);
  }

  lemma {:induction false} InfosAt(es: seq<Entry>, k: nat)
    requires k < |es|
    ensures |Infos(es)| == |es| && Infos(es)[k] == InfoOf(es[k])
    decreases |es|
  {
    hide InfoOf;
    if k > 0 { InfosAt(es[1..], k - 1); } else { InfosLength(es); }
  }

  lemma ArchiveTells(items: seq<Item>, a: seq<byte>, es: seq<Entry>, datas: seq<seq<byte>>)
    requires MadeOf(items, es, datas) && ReadsBack(a, es, datas)
    ensures FilesOf(a, items)
  {
    hide InfoOf, Infos, Read, ReadData, Tells, Recorded;
    InfosLength(es);
    forall k | 0 <= k < |items|
      ensures Tells(Read(a).value[k], items[k]) && ReadData(a, Read(a).value[k]) == Some(Data(items[k].content))
    {
      InfosAt(es, k);
      InfoTells(es[k], items[k]);
    }
  }

  /** Adds all entries and finishes: it succeeds exactly when no write fails, and then a reader
      finds exactly these items, in order, and their data. */
  method WriteArchive(items: seq<Item>, finishFault: bool)
    returns (r: Result<seq<byte>, Error>, ghost es: seq<Entry>, ghost datas: seq<seq<byte>>)
    requires forall k :: 0 <= k < |items| ==> Unwritten(items[k].entry)
    ensures r.Ok? <==> !finishFault && forall k :: 0 <= k < |items| ==> Written(items[k])
    ensures r.Ok? ==> MadeOf(items, es, datas) && Placed(es, datas) && r.value == Archive(es, datas)
    ensures r.Ok? && Fitting(es, datas) ==> FilesOf(r.value, items)
  {
    hide Archive, Centrals, Locals, Placed, ReadsBack, Fitting, FilesOf;
    var encoder := new Encoder();
    es, datas := [], [];
    for k := 0 to |items|
      invariant encoder.Valid() && encoder.target.Some? && fresh(encoder)
      invariant MadeOf(items[..k], encoder.files, encoder.datas)
      invariant forall j :: 0 <= j < k ==> Written(items[j])
    {
      ghost var before, had := encoder.files, encoder.datas;
      var added := encoder.AddEntry(items[k].entry, items[k].content, items[k].fault);
      if added.Err? { return Err(added.error), es, datas; }
      MadeOfAppend(items, k, before, had, encoder.files[k], encoder.datas[k]);
      assert encoder.files == before + [encoder.files[k]];
    }
    assert items[..|items|] == items;
    var finished := encoder.Finish(finishFault);
    if finished.Err? { return Err(finished.error), es, datas; }
    es, datas := encoder.files, encoder.datas;
    if Fitting(es, datas) {
      FinishedArchiveReadsBack(es, datas);
      ArchiveTells(items, encoder.written, es, datas);
    }
    return Ok(encoder.written), es, datas;
  }

  lemma MadeOfAppend(items: seq<Item>, k: nat, es: seq<Entry>, datas: seq<seq<byte>>, e: Entry, d: seq<byte>)
    requires k < |items| && MadeOf(items[..k], es, datas)
    requires Recorded(e, items[k].entry, e.offset, items[k].content) && d == Data(items[k].content)
    ensures MadeOf(items[..k + 1], es + [e], datas + [d])
  {
    assert items[..k + 1] == items[..k] + [items[k]];
  }
}
