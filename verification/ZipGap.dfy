/** An archive the encoder writes and a reader does not read back: 65535 empty files, a count
    that fits the end record and is its escape value. */
module ZipGap {
  import opened Wrappers
  import opened Bytes
  import opened Zip
  import opened ZipRoundTrip
  import opened ZipEncoder

  const NAME: seq<byte> := [97, 97, 97, 97, 97, 97, 97, 97, 97, 97, 97, 97, 97, 97, 97, 97, 97, 97, 97, 97]
  const COUNT: nat := 65535

  /** The k-th file: a name of twenty letters, no content. */
  function File(k: nat): Entry
  {
    Entry(NAME, 0, 0, 0x81a4, false, 0, 0, 0, 94 * k)
  }

  function Files(n: nat): seq<Entry>
  {
    if n == 0 then [] else Files(n - 1) + [File(n - 1)]
  }

  function Empty(n: nat): seq<seq<byte>>
  {
    if n == 0 then [] else Empty(n - 1) + [[]]
  }

  lemma LocalSize(k: nat)
    ensures |Local(File(k), [])| == 94
  {
    hide LocalHeader, Descriptor;
    LocalHeaderLength(File(k));
  }

  lemma {:induction false} FilesPlaced(n: nat)
    ensures |Files(n)| == n && |Empty(n)| == n && Placed(Files(n), Empty(n)) && |Locals(Files(n), Empty(n))| == 94 * n
    decreases n
  {
    hide Locals, Local;
    if n == 0 {
      NoLocals();
    } else {
      FilesPlaced(n - 1);
      PlacedAppend(Files(n - 1), Empty(n - 1), File(n - 1), []);
      LocalsAppend(Files(n - 1), Empty(n - 1), File(n - 1), []);
      LocalSize(n - 1);
    }
  }

  lemma NoLocals()
    ensures Locals([], []) == []
  {
  }

  lemma {:induction false} DirectorySize(n: nat)
    requires n <= COUNT
    ensures |Centrals(Files(n))| == 66 * n
    decreases n
  {
    hide Centrals, CentralHeader;
    if n == 0 {
      NoCentrals();
    } else {
      DirectorySize(n - 1);
      CentralsAppend(Files(n - 1), File(n - 1));
      CentralLength(File(n - 1));
    }
  }

  lemma {:induction false} FilesFit(n: nat)
    requires n <= COUNT
    ensures AllFit(Files(n))
    decreases n
  {
    if n > 0 {
      FilesFit(n - 1);
      assert EntryFits(File(n - 1));
    }
  }

  /** The directory ends with the last name. */
  lemma DirectoryTail()
    ensures |Centrals(Files(COUNT))| >= 20 && Centrals(Files(COUNT))[|Centrals(Files(COUNT))| - 20..] == NAME
  {
    hide Centrals, CentralHeader;
    var last := File(COUNT - 1);
    assert Files(COUNT) == Files(COUNT - 1) + [last];
    hide Files;
    CentralsAppend(Files(COUNT - 1), last);
    HeaderTail(last);
    var front, header := Centrals(Files(COUNT - 1)), CentralHeader(last);
    assert (front + header)[|front + header| - 20..] == header[|header| - 20..];
  }

  lemma HeaderTail(e: Entry)
    requires !NeedsZip64(e) && |e.name| == 20
    ensures |CentralHeader(e)| >= 20 && CentralHeader(e)[|CentralHeader(e)| - 20..] == e.name
  {
    hide Encode, Sum;
    TailOf(Encode(CentralValues(e), CENTRAL), e.name);
  }

  lemma TailOf(a: seq<byte>, b: seq<byte>)
    ensures (a + b + [])[|a + b + []| - |b|..] == b
  {
  }

  lemma NameIsNoLocator(b: seq<byte>)
    requires |b| >= 20 && b[..20] == NAME
    ensures Sum(LOCATOR) == 20 && Decode(b, LOCATOR)[0] != LOCATOR_SIG
  {
    hide Sum;
    RecordSizes();
    assert b[..4] == [97, 97, 97, 97];
    assert [97, 97, 97, 97][1..] == [97, 97, 97] && [97, 97, 97][1..] == [97, 97] && [97, 97][1..] == [97];
    assert FromLE([97]) == 97;
    assert FromLE([97, 97]) == 97 + 256 * 97;
    assert FromLE([97, 97, 97, 97]) == 97 + 256 * (97 + 256 * (97 + 256 * 97));
  }

  lemma TailIsNoLocator(pre: seq<byte>, end: seq<byte>)
    requires |pre| >= 20 && pre[|pre| - 20..] == NAME
    ensures ReadEnd64(pre + end, |pre| - 20) == None
  {
    hide Sum, Decode;
    var a := pre + end;
    RecordSizes();
    var b := a[|pre| - 20..];
    assert b[..20] == pre[|pre| - 20..];
    NameIsNoLocator(b);
  }

  /** The encoder reaches this archive, and reading it does not give the 65535 files back. */
  lemma CountReadsAsEscape()
    ensures |Files(COUNT)| == |Empty(COUNT)| == COUNT && Placed(Files(COUNT), Empty(COUNT)) && AllFit(Files(COUNT))
    ensures LooksEscaped(COUNT, |Centrals(Files(COUNT))|, |Locals(Files(COUNT), Empty(COUNT))|)
    ensures Read(Archive(Files(COUNT), Empty(COUNT))) != Some(Infos(Files(COUNT)))
  {
    hide Centrals, Locals, Read, Infos, Files, Empty, Placed, AllFit, ReadEnd64, Encode, Sum;
    FilesPlaced(COUNT);
    DirectorySize(COUNT);
    FilesFit(COUNT);
    DirectoryTail();
    var es, datas := Files(COUNT), Empty(COUNT);
    var pre := Locals(es, datas) + Centrals(es);
    assert pre[|pre| - 20..] == Centrals(es)[|Centrals(es)| - 20..];
    RecordSizes();
    TailIsNoLocator(pre, EndRecords(COUNT, |Centrals(es)|, |Locals(es, datas)|));
    ReadUndoesWriteIff(es, datas);
  }
}
