/** Snapshot paths below a namespace, as `ns/a/ns/b/vm/100/1970-01-01T00:00:00Z`. The conversion
    between a time and its text is a parameter: `show` may refuse a time, `read` a text. */
module Snapshot {
  import opened Wrappers
  import Text
  import opened AuthId
  import opened Namespace

  datatype BackupType = Vm | Ct | Host

  datatype BackupDir = BackupDir(ty: BackupType, id: string, time: int)

  type TimePrinter = int -> Option<string>
  type TimeParser = string -> Option<int>

  function TypeName(ty: BackupType): string
  {
    match ty
    case Vm => "vm"
    case Ct => "ct"
    case Host => "host"
  }

  function ParseType(s: string): Option<BackupType>
  {
    if s == "ct" then Some(Ct) else if s == "host" then Some(Host) else if s == "vm" then Some(Vm) else None
  }

  predicate Digit(c: char)
  {
    '0' <= c <= '9'
  }

  /** Four digits, then two digits five times, each after its separator, then `Z`. */
  predicate TimeShape(s: string)
  {
    |s| == 20 && s[4] == '-' && s[7] == '-' && s[10] == 'T' && s[13] == ':' && s[16] == ':' && s[19] == 'Z' &&
    forall i :: 0 <= i < 19 && i !in {4, 7, 10, 13, 16} ==> Digit(s[i])
  }

  /** What the time functions are for: every time that prints is read back from its text. */
  ghost predicate ReadsBack(show: TimePrinter, read: TimeParser)
  {
    forall t: int :: show(t).Some? ==> TimeShape(show(t).value) && read(show(t).value) == Some(t)
  }

  /** `FromStr for BackupDir` */
  function ParseDir(read: TimeParser, s: string): Option<BackupDir>
  {
    var parts := Text.Split(s, '/');
    if |parts| == 3 && ParseType(parts[0]).Some? && SafeId(parts[1]) && TimeShape(parts[2]) && read(parts[2]).Some? then
      Some(BackupDir(ParseType(parts[0]).value, parts[1], read(parts[2]).value))
    else None
  }

  function PrintDir(show: TimePrinter, d: BackupDir): Option<string>
  {
    match show(d.time)
    case None => None
    case Some(time) => Some(TypeName(d.ty) + "/" + d.id + "/" + time)
  }

  /** Position of the third slash from the right. */
  function ThirdSlash(s: string): (r: Option<nat>)
    ensures r.Some? ==> r.value < |s| && s[r.value] == '/'
  {
    match LastIndexOf(s, '/')
    case None => None
    case Some(i) =>
      match LastIndexOf(s[..i], '/')
      case None => None
      case Some(j) => LastIndexOf(s[..j], '/')
  }

  /** What `from_path` makes of a path. */
  function ParsePath(path: string): Option<seq<string>>
  {
    match PathParts(path)
    case None => None
    case Some(parts) => if Good(parts) then Some(parts) else None
  }

  /** `parse_ns_and_snapshot` */
  function ParseNsAndSnapshot(read: TimeParser, input: string): Option<(seq<string>, BackupDir)>
  {
    match ThirdSlash(input)
    case None =>
      (match ParseDir(read, input)
       case None => None
       case Some(dir) => Some(([], dir)))
    case Some(at) =>
      match ParsePath(input[..at])
      case None => None
      case Some(ns) =>
        match ParseDir(read, input[at + 1..])
        case None => None
        case Some(dir) => Some((ns, dir))
  }

  /** `print_ns_and_snapshot` */
  function PrintNsAndSnapshot(show: TimePrinter, ns: seq<string>, dir: BackupDir): Option<string>
  {
    match PrintDir(show, dir)
    case None => None
    case Some(text) => Some(if ns == [] then text else PrintPath(ns) + "/" + text)
  }

  // ---------------------------------------------------------------- the third slash

  /** Three components without slashes, as a snapshot has. */
  ghost predicate ThreeParts(t: string, x: string, y: string, z: string)
  {
    '/' !in x && '/' !in y && '/' !in z && t == x + "/" + y + "/" + z
  }

  lemma ThirdSlashAt(a: string, t: string, x: string, y: string, z: string)
    requires ThreeParts(t, x, y, z)
    ensures ThirdSlash(a + "/" + t) == Some(|a|)
  {
    var s := a + "/" + t;
    var s2 := a + ['/'] + x + ['/'] + y;
    var s1 := a + ['/'] + x;
    assert s == s2 + ['/'] + z;
    LastIndexOfUnique(s2, '/', z);
    assert s[..|s2|] == s2;
    LastIndexOfUnique(s1, '/', y);
    assert s2[..|s1|] == s1;
    LastIndexOfUnique(a, '/', x);
  }

  lemma ThirdSlashNone(t: string, x: string, y: string, z: string)
    requires ThreeParts(t, x, y, z)
    ensures ThirdSlash(t) == None
  {
    var s1 := x + ['/'] + y;
    assert t == s1 + ['/'] + z;
    LastIndexOfUnique(s1, '/', z);
    assert t[..|s1|] == s1;
    LastIndexOfUnique(x, '/', y);
    assert s1[..|x|] == x;
  }

  // ---------------------------------------------------------------- snapshots

  lemma TimeHasNoSlash(s: string)
    requires TimeShape(s)
    ensures '/' !in s
  {
    forall i | 0 <= i < |s| ensures s[i] != '/' {
      if i < 19 && i !in {4, 7, 10, 13, 16} { assert Digit(s[i]); }
    }
  }

  lemma TypeRoundTrip(ty: BackupType)
    ensures ParseType(TypeName(ty)) == Some(ty) && '/' !in TypeName(ty)
  {
  }

  lemma SplitThree(t: string, x: string, y: string, z: string)
    requires ThreeParts(t, x, y, z)
    ensures Text.Split(t, '/') == [x, y, z]
  {
    assert t == x + ['/'] + (y + ['/'] + z);
    Text.SplitHead(x, '/', y + ['/'] + z);
    Text.SplitHead(y, '/', z);
  }

  lemma SplitIsThree(t: string) returns (x: string, y: string, z: string)
    requires |Text.Split(t, '/')| == 3
    ensures ThreeParts(t, x, y, z) && Text.Split(t, '/') == [x, y, z]
  {
    var parts := Text.Split(t, '/');
    x, y, z := parts[0], parts[1], parts[2];
    Text.JoinSplit(t, '/');
    assert parts == [x, y, z];
    assert parts[1..] == [y, z] && [y, z][1..] == [z];
    assert Text.Join([y, z], '/') == y + ['/'] + Text.Join([z], '/');
    assert t == x + ['/'] + (y + ['/'] + z);
  }

  /** `s` names the snapshot `d`, with its time as the text `time`. */
  predicate Names(read: TimeParser, s: string, d: BackupDir, time: string)
  {
    s == TypeName(d.ty) + "/" + d.id + "/" + time && SafeId(d.id) && TimeShape(time) && read(time) == Some(d.time)
  }

  lemma TypeOf(s: string, ty: BackupType)
    ensures ParseType(s) == Some(ty) <==> s == TypeName(ty)
  {
  }

  /** Exactly these texts are read as the snapshot `d`. */
  lemma ParseDirIff(read: TimeParser, s: string, d: BackupDir)
    ensures ParseDir(read, s) == Some(d) <==> exists time :: Names(read, s, d, time)
  {
    hide TimeShape, SafeId, TypeName, ParseType;
    forall time | Names(read, s, d, time) ensures ParseDir(read, s) == Some(d) {
      TypeRoundTrip(d.ty);
      SafeIdHasNoSlash(d.id);
      TimeHasNoSlash(time);
      SplitThree(s, TypeName(d.ty), d.id, time);
    }
    if ParseDir(read, s) == Some(d) {
      var x, y, z := SplitIsThree(s);
      TypeOf(x, d.ty);
      assert Names(read, s, d, z);
    }
  }

  /** A printed snapshot has three components and is read back. */
  lemma DirRoundTrip(show: TimePrinter, read: TimeParser, dir: BackupDir)
    returns (x: string, y: string, z: string)
    requires ReadsBack(show, read) && SafeId(dir.id) && PrintDir(show, dir).Some?
    ensures ThreeParts(PrintDir(show, dir).value, x, y, z)
    ensures ParseDir(read, PrintDir(show, dir).value) == Some(dir)
  {
    x, y, z := TypeName(dir.ty), dir.id, show(dir.time).value;
    TypeRoundTrip(dir.ty);
    SafeIdHasNoSlash(y);
    TimeHasNoSlash(z);
    SplitThree(PrintDir(show, dir).value, x, y, z);
  }

  // ---------------------------------------------------------------- with a namespace

  /** Reading what was printed gives back the namespace and the snapshot, whatever the components
      are called, `ns` included. */
  lemma NsRoundTrip(show: TimePrinter, read: TimeParser, ns: seq<string>, dir: BackupDir)
    requires ReadsBack(show, read) && Good(ns) && SafeId(dir.id) && PrintDir(show, dir).Some?
    ensures PrintNsAndSnapshot(show, ns, dir).Some?
    ensures ParseNsAndSnapshot(read, PrintNsAndSnapshot(show, ns, dir).value) == Some((ns, dir))
  {
    var x, y, z := DirRoundTrip(show, read, dir);
    Reads(read, PrintNsAndSnapshot(show, ns, dir).value, ns, PrintDir(show, dir).value, dir);
  }

  /** The texts of a snapshot in a namespace: the printed form, and the same with a second slash
      before the snapshot. */
  predicate Written(input: string, ns: seq<string>, text: string)
  {
    if ns == [] then input == text || input == "/" + text
    else input == PrintPath(ns) + "/" + text || input == PrintPath(ns) + "//" + text
  }

  lemma SlashBefore(read: TimeParser, path: string, text: string)
    requires ParseDir(read, text).Some?
    ensures ThirdSlash(path + "/" + text) == Some(|path|)
  {
    var x, y, z := SplitIsThree(text);
    ThirdSlashAt(path, text, x, y, z);
  }

  lemma Sides(a: string, c: char, b: string)
    ensures (a + [c] + b)[..|a|] == a && (a + [c] + b)[|a| + 1..] == b
  {
  }

  lemma ReadsBelow(read: TimeParser, path: string, ns: seq<string>, text: string, dir: BackupDir)
    requires PathParts(path) == Some(ns) && Good(ns) && ParseDir(read, text) == Some(dir)
    ensures ParseNsAndSnapshot(read, path + "/" + text) == Some((ns, dir))
  {
    hide PathParts, ParseDir, ThirdSlash, Good;
    SlashBefore(read, path, text);
    Sides(path, '/', text);
  }

  lemma ReadsTop(read: TimeParser, text: string, dir: BackupDir)
    requires ParseDir(read, text) == Some(dir)
    ensures ParseNsAndSnapshot(read, text) == Some(([], dir))
  {
    var x, y, z := SplitIsThree(text);
    ThirdSlashNone(text, x, y, z);
  }

  lemma SecondSlash(a: string, t: string)
    ensures a + "//" + t == a + "/" + "/" + t
  {
  }

  lemma Reads(read: TimeParser, input: string, ns: seq<string>, text: string, dir: BackupDir)
    requires Good(ns) && ParseDir(read, text) == Some(dir) && Written(input, ns, text)
    ensures ParseNsAndSnapshot(read, input) == Some((ns, dir))
  {
    hide ParseNsAndSnapshot, PathParts, PrintPath, ParseDir, Good;
    if ns == [] {
      ReadsTop(read, text, dir);
      PathEmpty();
      ReadsBelow(read, "", ns, text, dir);
      assert "" + "/" + text == "/" + text;
    } else {
      GoodFreeOfSlash(ns);
      PathOfPrinted(ns);
      PathOfPrintedSlash(ns);
      SecondSlash(PrintPath(ns), text);
      ReadsBelow(read, PrintPath(ns), ns, text, dir);
      ReadsBelow(read, PrintPath(ns) + "/", ns, text, dir);
    }
  }

  lemma WrittenFrom(path: string, text: string)
    requires PathParts(path).Some?
    ensures Written(path + "/" + text, PathParts(path).value, text)
  {
    hide PathParts, PrintPath;
    PathForm(path);
    var ns := PathParts(path).value;
    SecondSlash(PrintPath(ns), text);
    if ns == [] {
      PrintsNothing();
      assert "" + "/" + text == "/" + text;
    }
  }

  lemma PrintsNothing()
    ensures PrintPath([]) == ""
  {
  }

  lemma OnlyWritten(read: TimeParser, input: string) returns (text: string)
    requires ParseNsAndSnapshot(read, input).Some?
    ensures Good(ParseNsAndSnapshot(read, input).value.0)
    ensures ParseDir(read, text) == Some(ParseNsAndSnapshot(read, input).value.1)
    ensures Written(input, ParseNsAndSnapshot(read, input).value.0, text)
  {
    hide PathParts, PrintPath, ParseDir, ThirdSlash, Good;
    match ThirdSlash(input)
    case None =>
      EmptyIsGood();
      text := input;
    case Some(at) =>
      text := input[at + 1..];
      Text.CutAt(input, at);
      WrittenFrom(input[..at], text);
  }

  lemma EmptyIsGood()
    ensures Good([])
  {
  }

  /** Exactly the written texts of valid namespaces and readable snapshots are accepted. */
  lemma ParseIff(read: TimeParser, input: string, ns: seq<string>, dir: BackupDir)
    ensures ParseNsAndSnapshot(read, input) == Some((ns, dir)) <==>
            Good(ns) && exists text, time :: Names(read, text, dir, time) && Written(input, ns, text)
  {
    hide ParseNsAndSnapshot, ParseDir, Good, Names, Written;
    if ParseNsAndSnapshot(read, input) == Some((ns, dir)) {
      var text := OnlyWritten(read, input);
      ParseDirIff(read, text, dir);
    }
    if Good(ns) && exists text, time :: Names(read, text, dir, time) && Written(input, ns, text) {
      var text, time :| Names(read, text, dir, time) && Written(input, ns, text);
      ParseDirIff(read, text, dir);
      Reads(read, input, ns, text, dir);
    }
  }

  /** A second slash before the snapshot is accepted: `ns/a//vm/100/1970-01-01T00:00:00Z`, and the
      same with any other readable time. */
  lemma SecondSlashAccepted(read: TimeParser, time: string)
    requires TimeShape(time) && read(time).Some?
    ensures var text := "vm" + "/" + "100" + "/" + time;
            ParseNsAndSnapshot(read, "ns/a" + "//" + text) == Some((["a"], BackupDir(Vm, "100", read(time).value)))
  {
    hide ParseNsAndSnapshot, ParseDir, TimeShape;
    var text := "vm" + "/" + "100" + "/" + time;
    SampleReads(read, time);
    assert PrintPath(["a"]) == "ns/a";
    hide PrintPath;
    Reads(read, "ns/a" + "//" + text, ["a"], text, BackupDir(Vm, "100", read(time).value));
  }

  lemma SampleReads(read: TimeParser, time: string)
    requires TimeShape(time) && read(time).Some?
    ensures ParseDir(read, "vm" + "/" + "100" + "/" + time) == Some(BackupDir(Vm, "100", read(time).value))
  {
    TimeHasNoSlash(time);
    hide TimeShape;
    SplitThree("vm" + "/" + "100" + "/" + time, "vm", "100", time);
  }
}
