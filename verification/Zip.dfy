/** The ZIP archive format as the encoder writes it, and a reader that follows the PKWARE
    APPNOTE (sections 4.3.7, 4.3.9, 4.3.12, 4.3.14 to 4.3.16 and 4.5.3), starting at the end
    record. Dates and times are opaque 16 bit fields; Deflate is a stage that appends a given
    number of bytes. */
module Zip {
  import opened Wrappers
  import opened Bytes

  const M16: nat := 0xFFFF
  const M32: nat := 0xFFFF_FFFF
  const LIMIT64: nat := 0x1_0000_0000_0000_0000

  const LOCAL_SIG: nat := 0x04034B50
  const DESCRIPTOR_SIG: nat := 0x08074B50
  const CENTRAL_SIG: nat := 0x02014B50
  const END_SIG: nat := 0x06054B50
  const END64_SIG: nat := 0x06064B50
  const LOCATOR_SIG: nat := 0x07064B50

  // field widths of the packed records
  const LOCAL: seq<nat> := [4, 2, 2, 2, 2, 2, 4, 4, 4, 2, 2]
  const LOCAL64: seq<nat> := [2, 2, 8, 8]
  const DESCRIPTOR: seq<nat> := [4, 4, 8, 8]
  const CENTRAL: seq<nat> := [4, 2, 2, 2, 2, 2, 2, 4, 4, 4, 2, 2, 2, 2, 2, 4, 4]
  const CENTRAL64: seq<nat> := [2, 2, 8, 8, 8, 4]
  const END: seq<nat> := [4, 2, 2, 2, 2, 4, 4, 2]
  const END64: seq<nat> := [4, 8, 2, 2, 4, 4, 8, 8, 8, 8]
  const LOCATOR: seq<nat> := [4, 4, 8, 4]

  lemma RecordSizes()
    ensures Sum(LOCAL) == 30 && Sum(LOCAL64) == 20 && Sum(DESCRIPTOR) == 24 && Sum(CENTRAL64) == 32
    ensures Sum(CENTRAL) == 46 && Sum(END) == 22 && Sum(END64) == 56 && Sum(LOCATOR) == 20
  {
    hide Sum;
    SmallRecordSizes();
    LargeRecordSizes();
  }

  lemma SmallRecordSizes()
    ensures Sum(LOCAL64) == 20 && Sum(DESCRIPTOR) == 24 && Sum(CENTRAL64) == 32 && Sum(END) == 22 && Sum(LOCATOR) == 20
  {
    hide Sum;
    SumAll(LOCAL64);
    SumAll(DESCRIPTOR);
    SumAll(CENTRAL64);
    assert SumTo(CENTRAL64, 3) == 12;
    SumAll(END);
    assert SumTo(END, 3) == 8;
    assert SumTo(END, 6) == 16;
    SumAll(LOCATOR);
  }

  lemma LargeRecordSizes()
    ensures Sum(LOCAL) == 30 && Sum(CENTRAL) == 46 && Sum(END64) == 56
  {
    hide Sum;
    SumAll(LOCAL);
    assert SumTo(LOCAL, 3) == 8;
    assert SumTo(LOCAL, 6) == 14;
    assert SumTo(LOCAL, 9) == 26;
    SumAll(CENTRAL);
    assert SumTo(CENTRAL, 3) == 8;
    assert SumTo(CENTRAL, 6) == 14;
    assert SumTo(CENTRAL, 9) == 24;
    assert SumTo(CENTRAL, 12) == 32;
    assert SumTo(CENTRAL, 15) == 38;
    SumAll(END64);
    assert SumTo(END64, 3) == 14;
    assert SumTo(END64, 6) == 24;
    assert SumTo(END64, 9) == 48;
  }

  // ---------------------------------------------------------------- the writer's records

  datatype Entry = Entry(
    name: seq<byte>, time: nat, date: nat, mode: nat, utf8: bool,
    crc: nat, size: nat, csize: nat, offset: nat)

  /** Data descriptor follows (bit 3), and for UTF-8 names the language bit (bit 11). */
  function Flags(e: Entry): nat
  {
    if e.utf8 then 0x808 else 8
  }

  function LocalValues(e: Entry): seq<nat>
  {
    [LOCAL_SIG, 0x2d, Flags(e), 8, e.time, e.date, 0, M32, M32, |e.name|, 20]
  }

  function LocalHeader(e: Entry): (b: seq<byte>)
  {
    Encode(LocalValues(e), LOCAL) + e.name + Encode([1, 16, 0, 0], LOCAL64)
  }

  function DescriptorValues(e: Entry): seq<nat>
  {
    [DESCRIPTOR_SIG, e.crc, e.csize, e.size]
  }

  function Descriptor(e: Entry): seq<byte>
  {
    Encode(DescriptorValues(e), DESCRIPTOR)
  }

  predicate NeedsZip64(e: Entry)
  {
    e.csize >= M32 || e.size >= M32 || e.offset >= M32
  }

  /** Unix mode in the upper half, the MS-DOS directory bit below. */
  function ExternalAttributes(e: Entry): nat
  {
    e.mode * 0x1_0000 + if e.mode / 0x4000 % 2 == 1 then 16 else 0
  }

  function CentralValues(e: Entry): seq<nat>
  {
    var big := NeedsZip64(e);
    [CENTRAL_SIG, 0x032d, 0x002d, Flags(e), 8, e.time, e.date, e.crc,
     if big then M32 else e.csize, if big then M32 else e.size,
     |e.name|, if big then 32 else 0, 0, 0, 0, ExternalAttributes(e), if big then M32 else e.offset]
  }

  function Extra(e: Entry): seq<byte>
  {
    if NeedsZip64(e) then Encode([1, 28, e.size, e.csize, e.offset, 0], CENTRAL64) else []
  }

  function CentralHeader(e: Entry): (b: seq<byte>)
  {
    Encode(CentralValues(e), CENTRAL) + e.name + Extra(e)
  }

  function CentralSize(e: Entry): nat
  {
    46 + |e.name| + if NeedsZip64(e) then 32 else 0
  }

  /** The end of the archive: the ZIP64 records when a value does not fit, then the end record. */
  function EndRecords(count: nat, dirSize: nat, dirOffset: nat): seq<byte>
  {
    if dirSize > M32 || dirOffset > M32 || count > M16 then
      Encode(End64Values(count, dirSize, dirOffset), END64) +
      Encode([LOCATOR_SIG, 0, dirOffset + dirSize, 1], LOCATOR) +
      Encode(EndValues(M16, M32, M32), END)
    else
      Encode(EndValues(count, dirSize, dirOffset), END)
  }

  function End64Values(count: nat, dirSize: nat, dirOffset: nat): seq<nat>
  {
    [END64_SIG, 44, 0x032d, 0x002d, 0, 0, count, count, dirSize, dirOffset]
  }

  function EndValues(count: nat, dirSize: nat, dirOffset: nat): seq<nat>
  {
    [END_SIG, 0, 0, count, count, dirSize, dirOffset, 0]
  }

  function Local(e: Entry, data: seq<byte>): seq<byte>
  {
    LocalHeader(e) + data + Descriptor(e)
  }

  function Locals(es: seq<Entry>, datas: seq<seq<byte>>): seq<byte>
    requires |es| == |datas|
  {
    if es == [] then [] else Locals(es[..|es| - 1], datas[..|es| - 1]) + Local(es[|es| - 1], datas[|es| - 1])
  }

  function Centrals(es: seq<Entry>): seq<byte>
  {
    if es == [] then [] else CentralHeader(es[0]) + Centrals(es[1..])
  }

  function Archive(es: seq<Entry>, datas: seq<seq<byte>>): seq<byte>
    requires |es| == |datas|
  {
    Locals(es, datas) + Centrals(es) + EndRecords(|es|, |Centrals(es)|, |Locals(es, datas)|)
  }

  // ---------------------------------------------------------------- a reader

  /** What the central directory says about a file. */
  datatype Info = Info(
    madeBy: nat, name: seq<byte>, flags: nat, compression: nat, time: nat, date: nat,
    crc: nat, csize: nat, size: nat, attributes: nat, offset: nat)

  function InfoOf(e: Entry): Info
  {
    Info(0x032d, e.name, Flags(e), 8, e.time, e.date, e.crc, e.csize, e.size, ExternalAttributes(e), e.offset)
  }

  function Infos(es: seq<Entry>): seq<Info>
  {
    if es == [] then [] else [InfoOf(es[0])] + Infos(es[1..])
  }

  /** The body of the ZIP64 extra field (header id 1). */
  function Zip64Body(extra: seq<byte>): (r: Option<seq<byte>>)
    decreases |extra|
  {
    if |extra| < 4 then None
    else
      var id, len := FromLE(extra[..2]), FromLE(extra[2..4]);
      if 4 + len > |extra| then None
      else if id == 1 then Some(extra[4..4 + len])
      else Zip64Body(extra[4 + len..])
  }

  /** A 32 bit field, or the next 8 bytes of the ZIP64 body when it holds the escape value. */
  function Take64(v: nat, body: seq<byte>): Option<(nat, seq<byte>)>
  {
    if v != M32 then Some((v, body))
    else if |body| < 8 then None
    else Some((FromLE(body[..8]), body[8..]))
  }

  /** Sizes and offset, resolved in the order of section 4.5.3. */
  function Resolve(size: nat, csize: nat, offset: nat, extra: seq<byte>): Option<(nat, nat, nat)>
  {
    var body := match Zip64Body(extra) case None => [] case Some(b) => b;
    match Take64(size, body)
    case None => None
    case Some((s, b1)) =>
      match Take64(csize, b1)
      case None => None
      case Some((c, b2)) =>
        match Take64(offset, b2)
        case None => None
        case Some((o, _)) => Some((s, c, o))
  }

  function ReadCentral(a: seq<byte>, pos: nat): Option<(Info, nat)>
  {
    hide Resolve, Sum, RecordAt;
    match RecordAt(a, pos, CENTRAL)
    case None => None
    case Some(h) =>
      var nameStart := pos + Sum(CENTRAL);
      var nameEnd := nameStart + h[10];
      var extraEnd := nameEnd + h[11];
      if h[0] != CENTRAL_SIG || extraEnd + h[12] > |a| then None
      else
        match Resolve(h[9], h[8], h[16], a[nameEnd..extraEnd])
        case None => None
        case Some((size, csize, offset)) =>
          var info := Info(h[1], a[nameStart..nameEnd], h[3], h[4], h[5], h[6], h[7], csize, size, h[15], offset);
          Some((info, extraEnd + h[12]))
  }

  function ReadDirectory(a: seq<byte>, pos: nat, count: nat): Option<(seq<Info>, nat)>
    decreases count
  {
    if count == 0 then Some(([], pos))
    else
      match ReadCentral(a, pos)
      case None => None
      case Some((info, next)) =>
        match ReadDirectory(a, next, count - 1)
        case None => None
        case Some((infos, end)) => Some(([info] + infos, end))
  }

  datatype Directory = Directory(count: nat, size: nat, offset: nat)

  /** The ZIP64 end record, found through the locator at `pos`. */
  function ReadEnd64(a: seq<byte>, pos: nat): Option<Directory>
  {
    match RecordAt(a, pos, LOCATOR)
    case None => None
    case Some(loc) =>
      if loc[0] != LOCATOR_SIG then None
      else
        match RecordAt(a, loc[2], END64)
        case None => None
        case Some(r) => if r[0] != END64_SIG then None else Some(Directory(r[7], r[8], r[9]))
  }

  /** The end record without a comment; a field with its escape value is taken from the ZIP64
      end record, whose locator stands right before it. */
  function ReadEnd(a: seq<byte>): Option<Directory>
  {
    var pos := |a| - Sum(END);
    if pos < 0 then None
    else
      match RecordAt(a, pos, END)
      case None => None
      case Some(e) =>
        if e[0] != END_SIG || e[7] != 0 then None
        else if e[4] != M16 && e[5] != M32 && e[6] != M32 then Some(Directory(e[4], e[5], e[6]))
        else if pos < Sum(LOCATOR) then None
        else
          match ReadEnd64(a, pos - Sum(LOCATOR))
          case None => None
          case Some(d) =>
            Some(Directory(if e[4] == M16 then d.count else e[4],
                           if e[5] == M32 then d.size else e[5],
                           if e[6] == M32 then d.offset else e[6]))
  }

  /** The files of an archive; the directory has to end where the end record says. */
  function Read(a: seq<byte>): Option<seq<Info>>
  {
    match ReadEnd(a)
    case None => None
    case Some(d) =>
      match ReadDirectory(a, d.offset, d.count)
      case None => None
      case Some((infos, end)) => if end == d.offset + d.size then Some(infos) else None
  }

  /** The compressed data of a file: behind its local header and followed by a data descriptor,
      which both agree with the directory. */
  function ReadData(a: seq<byte>, info: Info): Option<seq<byte>>
  {
    hide Sum, RecordAt;
    match RecordAt(a, info.offset, LOCAL)
    case None => None
    case Some(h) =>
      var nameStart := info.offset + Sum(LOCAL);
      var nameEnd := nameStart + h[9];
      var start := nameEnd + h[10];
      var end := start + info.csize;
      if h[0] != LOCAL_SIG || end > |a| || a[nameStart..nameEnd] != info.name then None
      else if h[2..6] != [info.flags, info.compression, info.time, info.date] then None
      else
        match RecordAt(a, end, DESCRIPTOR)
        case None => None
        case Some(d) =>
          if d == [DESCRIPTOR_SIG, info.crc, info.csize, info.size] then Some(a[start..end]) else None
  }
}
