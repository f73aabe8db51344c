/** A reader of JSON texts (RFC 8259) without white space and with the members of every object in
    increasing order of their names, as section 3 of RFC 7638 demands. It undoes the canonical
    stream, so the stream is such a text and determines the value, at every nesting depth. */
module CanonicalJsonReader {
  import opened Wrappers
  import opened CanonicalJson
  import opened Ordering
  import Text

  // ---------------------------------------------------------------- the reader

  function HexDigitValue(c: char): Option<nat>
  {
    if '0' <= c <= '9' then Some(c as int - '0' as int)
    else if 'a' <= c <= 'f' then Some(c as int - 'a' as int + 10)
    else if 'A' <= c <= 'F' then Some(c as int - 'A' as int + 10)
    else None
  }

  /** A four digit escape (section 7 of RFC 8259); halves of surrogate pairs are not read. */
  function ReadHex(s: string): Option<char>
    requires |s| == 4
  {
    if exists i :: 0 <= i < 4 && HexDigitValue(s[i]).None? then None
    else
      var n := 4096 * HexDigitValue(s[0]).value + 256 * HexDigitValue(s[1]).value +
               16 * HexDigitValue(s[2]).value + HexDigitValue(s[3]).value;
      if 0xd800 <= n < 0xe000 then None else Some(n as char)
  }

  /** One character of a string, and what follows. */
  function ReadChar(s: string): (r: Option<(char, string)>)
    ensures r.Some? ==> |r.value.1| < |s|
  {
    if s == [] || s[0] == '"' || s[0] as int < 32 then None
    else if s[0] != '\\' then Some((s[0], s[1..]))
    else if |s| == 1 then None
    else match s[1]
      case '"' => Some(('"', s[2..]))
      case '\\' => Some(('\\', s[2..]))
      case '/' => Some(('/', s[2..]))
      case 'b' => Some((8 as char, s[2..]))
      case 'f' => Some((12 as char, s[2..]))
      case 'n' => Some(('\n', s[2..]))
      case 'r' => Some(('\r', s[2..]))
      case 't' => Some(('\t', s[2..]))
      case 'u' =>
        if |s| < 6 then None
        else (match ReadHex(s[2..6]) case None => None case Some(c) => Some((c, s[6..])))
      case _ => None
  }

  /** The rest of a string, its closing quote included. */
  function ReadTail(s: string): (r: Option<(string, string)>)
    ensures r.Some? ==> |r.value.1| < |s|
    decreases |s|
  {
    if s != [] && s[0] == '"' then Some(("", s[1..]))
    else
      match ReadChar(s)
      case None => None
      case Some((c, rest)) =>
        match ReadTail(rest)
        case None => None
        case Some((more, end)) => Some(([c] + more, end))
  }

  function ReadString(s: string): (r: Option<(string, string)>)
    ensures r.Some? ==> |r.value.1| < |s|
  {
    if s == [] || s[0] != '"' then None else ReadTail(s[1..])
  }

  /** How many characters of a number a text starts with. */
  function NumberLength(s: string): (n: nat)
    ensures n <= |s|
  {
    if s != [] && NumberChar(s[0]) then 1 + NumberLength(s[1..]) else 0
  }

  function ReadScalar(s: string): (r: Option<(Value, string)>)
    ensures r.Some? ==> |r.value.1| < |s|
  {
    if "null" <= s then Some((Null, s[4..]))
    else if "true" <= s then Some((Bool(true), s[4..]))
    else if "false" <= s then Some((Bool(false), s[5..]))
    else if s != [] && s[0] == '"' then
      match ReadString(s) case None => None case Some((t, rest)) => Some((String(t), rest))
    else if IsNumber(s[..NumberLength(s)]) then Some((Number(s[..NumberLength(s)]), s[NumberLength(s)..]))
    else None
  }

  function ReadValue(s: string): (r: Option<(Value, string)>)
    ensures r.Some? ==> |r.value.1| < |s|
    decreases |s|, 0
  {
    if "[]" <= s then Some((Array([]), s[2..]))
    else if "[" <= s then ReadItems(s[1..], [])
    else if "{}" <= s then Some((Object(map[]), s[2..]))
    else if "{" <= s then ReadMembers(s[1..], map[], None)
    else ReadScalar(s)
  }

  /** The items of an array after those in `read`, and the closing bracket. */
  function ReadItems(s: string, read: seq<Value>): (r: Option<(Value, string)>)
    ensures r.Some? ==> |r.value.1| < |s|
    decreases |s|, 1
  {
    match ReadValue(s)
    case None => None
    case Some((item, rest)) =>
      if "," <= rest then ReadItems(rest[1..], read + [item])
      else if "]" <= rest then Some((Array(read + [item]), rest[1..]))
      else None
  }

  /** The members of an object after those in `read`, the last of them `last`, and the closing
      brace. */
  function ReadMembers(s: string, read: map<string, Value>, last: Option<string>): (r: Option<(Value, string)>)
    ensures r.Some? ==> |r.value.1| < |s|
    decreases |s|, 1
  {
    match ReadString(s)
    case None => None
    case Some((key, colon)) =>
      if !(":" <= colon) || (last.Some? && !Less(last.value, key)) then None
      else
        match ReadValue(colon[1..])
        case None => None
        case Some((member, rest)) =>
          if "," <= rest then ReadMembers(rest[1..], read[key := member], Some(key))
          else if "}" <= rest then Some((Object(read[key := member]), rest[1..]))
          else None
  }

  // ---------------------------------------------------------------- strings

  lemma HexReads(n: nat)
    requires n < 16
    ensures HexDigitValue(HexDigit(n)) == Some(n)
  {
  }

  lemma HexEscape(c: char)
    requires c as int < 32
    ensures ReadHex(['0', '0', HexDigit(c as int / 16), HexDigit(c as int % 16)]) == Some(c)
  {
    hide HexDigit;
    var n := c as int;
    var s := ['0', '0', HexDigit(n / 16), HexDigit(n % 16)];
    HexReads(n / 16);
    HexReads(n % 16);
    assert HexDigitValue('0') == Some(0);
    forall i | 0 <= i < 4 ensures HexDigitValue(s[i]).Some? {
      if i == 2 { assert s[i] == HexDigit(n / 16); } else if i == 3 { assert s[i] == HexDigit(n % 16); }
    }
    assert 16 * (n / 16) + n % 16 == n;
  }

  /** An escape reads as the character it stands for. */
  lemma EscapeReads(c: char, s: string)
    ensures ReadChar(Escape(c) + s) == Some((c, s)) && (Escape(c) + s)[0] != '"'
  {
    hide ReadHex, HexDigit;
    var x := Escape(c) + s;
    assert x[0] == Escape(c)[0];
    if |Escape(c)| == 1 {
      assert x[1..] == s;
    } else if |Escape(c)| == 2 {
      assert x[1] == Escape(c)[1] && x[2..] == s;
    } else {
      HexEscape(c);
      assert x[1] == 'u' && x[6..] == s;
      assert x[2..6] == Escape(c)[2..6] == ['0', '0', HexDigit(c as int / 16), HexDigit(c as int % 16)];
    }
  }

  lemma {:induction false} TailReads(a: string, s: string)
    ensures ReadTail(QuotedTail(a) + s) == Some((a, s))
    decreases |a|
  {
    hide ReadChar, Escape;
    if a == [] {
      assert ("\"" + s)[1..] == s;
    } else {
      Text.AppendAssoc(Escape(a[0]), QuotedTail(a[1..]), s);
      EscapeReads(a[0], QuotedTail(a[1..]) + s);
      TailReads(a[1..], s);
      assert a == [a[0]] + a[1..];
    }
  }

  lemma StringReads(a: string, s: string)
    ensures Quoted(a) + s != [] && (Quoted(a) + s)[0] == '"' && ReadString(Quoted(a) + s) == Some((a, s))
  {
    hide ReadTail, QuotedTail;
    Text.AppendAssoc("\"", QuotedTail(a), s);
    assert ("\"" + (QuotedTail(a) + s))[1..] == QuotedTail(a) + s;
    TailReads(a, s);
  }

  // ---------------------------------------------------------------- scalars

  /** What may follow a value: nothing, or a separator. */
  predicate Follows(s: string)
  {
    s == [] || s[0] == ',' || s[0] == ']' || s[0] == '}'
  }

  lemma {:induction false} NumberEnds(t: string, s: string)
    requires Follows(s) && forall i :: 0 <= i < |t| ==> NumberChar(t[i])
    ensures NumberLength(t + s) == |t|
    decreases |t|
  {
    if t == [] { assert t + s == s; } else {
      NumberEnds(t[1..], s);
      assert (t + s)[1..] == t[1..] + s;
    }
  }

  lemma NumberReads(t: NumberToken, s: string)
    requires Follows(s)
    ensures ReadValue(t + s) == Some((Number(t), s))
  {
    NumberEnds(t, s);
    assert (t + s)[0] == t[0] && (t + s)[..|t|] == t && (t + s)[|t|..] == s;
  }

  lemma WordReads(s: string)
    ensures ReadValue("null" + s) == Some((Null, s))
    ensures ReadValue("true" + s) == Some((Bool(true), s))
    ensures ReadValue("false" + s) == Some((Bool(false), s))
  {
    assert ("null" + s)[4..] == s && ("true" + s)[4..] == s && ("false" + s)[5..] == s;
    assert ("null" + s)[0] == 'n' && ("true" + s)[0] == 't' && ("false" + s)[0] == 'f';
  }

  lemma ScalarReads(v: Value, s: string)
    requires Follows(s) && !v.Array? && !v.Object?
    ensures ReadValue(Canonical(v) + s) == Some((v, s))
  {
    match v
    case Null => WordReads(s);
    case Bool(_) => WordReads(s);
    case Number(t) => NumberReads(t, s);
    case String(t) => StringReads(t, s);
  }

  /** The first character of a value is no separator. */
  lemma FirstCharacter(v: Value, s: string)
    ensures Canonical(v) + s != [] && !Follows([(Canonical(v) + s)[0]])
  {
    hide Sorted, Members, ItemsTail, QuotedTail;
    assert Canonical(v) != [] && (Canonical(v) + s)[0] == Canonical(v)[0];
  }

  // ---------------------------------------------------------------- values

  /** Reading a canonical stream gives back the value, whatever follows it. */
  lemma {:induction false} ReadCanonical(v: Value, s: string)
    requires Follows(s)
    ensures ReadValue(Canonical(v) + s) == Some((v, s))
    decreases v, 3, 0
  {
    hide ReadItems, ReadMembers, ReadScalar;
    match v
    case Array(items) =>
      if items == [] {
        assert "[" + "]" == "[]" && ("[]" + s)[2..] == s;
      } else {
        var text := Canonical(items[0]) + (ItemsTail(v, 1) + s);
        OpenForm("[", Canonical(items[0]), ItemsTail(v, 1), s);
        FirstCharacter(items[0], ItemsTail(v, 1) + s);
        assert ("[" + text)[1..] == text && ("[" + text)[1] == text[0];
        assert items[..0] == [];
        ItemsRead(v, s, 0);
      }
    case Object(m) => ObjectReads(v, s);
    case _ => ScalarReads(v, s);
  }

  lemma OpenForm(a: string, b: string, c: string, s: string)
    ensures a + (b + c) + s == a + (b + (c + s))
  {
  }

  lemma {:induction false} ItemsRead(v: Value, s: string, i: nat)
    requires v.Array? && i < |v.items|
    ensures ReadItems(Canonical(v.items[i]) + (ItemsTail(v, i + 1) + s), v.items[..i]) == Some((v, s))
    decreases v, 2, |v.items| - i
  {
    hide ReadValue, Canonical;
    var rest := ItemsTail(v, i + 1) + s;
    assert v.items[..i] + [v.items[i]] == v.items[..i + 1];
    if i + 1 < |v.items| {
      TailForm(",", Canonical(v.items[i + 1]), ItemsTail(v, i + 2), s);
      ReadCanonical(v.items[i], rest);
      ItemsRead(v, s, i + 1);
    } else {
      assert rest == "]" + s && rest[1..] == s && v.items[..i + 1] == v.items;
      ReadCanonical(v.items[i], rest);
    }
  }

  lemma TailForm(a: string, b: string, c: string, s: string)
    requires |a| == 1
    ensures a + b + c + s == a + (b + (c + s)) && a <= a + b + c + s && (a + b + c + s)[1..] == b + (c + s)
  {
  }

  ghost function Part(v: Value, keys: seq<string>, i: nat): map<string, Value>
    requires Names(v, keys) && i <= |keys|
  {
    map k | k in keys[..i] :: v.members[k]
  }

  lemma ObjectOpens(text: string)
    requires text != [] && text[0] == '"'
    ensures ReadValue("{" + text) == ReadMembers(text, map[], None)
  {
    hide ReadMembers, ReadScalar, ReadItems;
    var x := "{" + text;
    assert x[0] == '{' && x[1] == '"' && x[1..] == text;
  }

  lemma EmptyObjectReads(v: Value, s: string)
    requires v.Object? && v.members.Keys == {}
    ensures ReadValue("{" + "}" + s) == Some((v, s))
  {
    hide ReadMembers, ReadScalar, ReadItems;
    assert v.members == map[];
    var x := "{" + "}" + s;
    assert x[0] == '{' && x[1] == '}' && x[2..] == s && "{}" <= x;
  }

  lemma {:induction false} ObjectReads(v: Value, s: string)
    requires v.Object?
    ensures ReadValue(Canonical(v) + s) == Some((v, s))
    decreases v, 2, |v.members| + 1
  {
    hide ReadValue, ReadMembers, ReadScalar, ReadItems, Sorted;
    var keys := Sorted(v.members.Keys);
    assert forall i :: 0 <= i < |keys| ==> keys[i] in keys;
    if keys == [] {
      assert v.members.Keys == {} by { assert forall k :: k in v.members.Keys ==> k in keys; }
      assert Canonical(v) == "{" + "}";
      EmptyObjectReads(v, s);
    } else {
      var text := Member(v, keys[0]) + (MembersTail(v, keys, 1) + s);
      OpenForm("{", Member(v, keys[0]), MembersTail(v, keys, 1), s);
      assert Canonical(v) + s == "{" + text;
      assert text[0] == '"';
      ObjectOpens(text);
      assert Part(v, keys, 0) == map[];
      assert |keys| == |v.members.Keys|;
      MembersRead(v, keys, s, 0);
    }
  }

  lemma MemberStep(x: string, key: string, body: string, m: Value, rest: string,
                   read: map<string, Value>, last: Option<string>)
    requires ReadString(x) == Some((key, ":" + body)) && ReadValue(body) == Some((m, rest))
    requires last.Some? ==> Less(last.value, key)
    ensures "," <= rest ==> ReadMembers(x, read, last) == ReadMembers(rest[1..], read[key := m], Some(key))
    ensures "}" <= rest ==> ReadMembers(x, read, last) == Some((Object(read[key := m]), rest[1..]))
  {
    hide ReadString, ReadValue, Less;
    assert (":" + body)[1..] == body && ":" <= ":" + body;
    assert "}" <= rest ==> rest[0] == '}';
  }

  lemma {:induction false} MembersRead(v: Value, keys: seq<string>, s: string, i: nat)
    requires v.Object? && keys == Sorted(v.members.Keys) && Names(v, keys) && i < |keys|
    ensures ReadMembers(Member(v, keys[i]) + (MembersTail(v, keys, i + 1) + s), Part(v, keys, i),
                        if i == 0 then None else Some(keys[i - 1])) == Some((v, s))
    decreases v, 1, |keys| - i
  {
    hide ReadValue, ReadString, ReadMembers, Canonical, Sorted, Quoted, Part, Less;
    var key, rest := keys[i], MembersTail(v, keys, i + 1) + s;
    var member, last := v.members[key], if i == 0 then None else Some(keys[i - 1]);
    var x := Member(v, key) + rest;
    MemberForm(Quoted(key), Canonical(member), rest);
    StringReads(key, ":" + (Canonical(member) + rest));
    PartGrows(v, keys, i);
    if i + 1 < |keys| {
      TailForm(",", Member(v, keys[i + 1]), MembersTail(v, keys, i + 2), s);
      ReadCanonical(member, rest);
      MemberStep(x, key, Canonical(member) + rest, member, rest, Part(v, keys, i), last);
      MembersRead(v, keys, s, i + 1);
    } else {
      assert rest == "}" + s && rest[1..] == s;
      ReadCanonical(member, rest);
      MemberStep(x, key, Canonical(member) + rest, member, rest, Part(v, keys, i), last);
      PartWhole(v, keys);
    }
  }

  lemma PartWhole(v: Value, keys: seq<string>)
    requires Names(v, keys) && forall k :: k in v.members ==> k in keys
    ensures Part(v, keys, |keys|) == v.members
  {
    assert keys[..|keys|] == keys;
    assert forall k :: k in keys ==> k in v.members;
  }

  lemma MemberForm(a: string, b: string, s: string)
    ensures a + ":" + b + s == a + (":" + (b + s))
  {
  }

  lemma PartGrows(v: Value, keys: seq<string>, i: nat)
    requires Names(v, keys) && i < |keys|
    ensures Part(v, keys, i + 1) == Part(v, keys, i)[keys[i] := v.members[keys[i]]]
  {
    assert keys[..i + 1] == keys[..i] + [keys[i]];
  }

  // ---------------------------------------------------------------- consequences

  /** Canonical streams are uniquely decodable: whatever follows them, two that agree come from
      the same value and leave the same rest. */
  lemma Unique(v: Value, s: string, w: Value, t: string)
    requires Canonical(v) + s == Canonical(w) + t && Follows(s) && Follows(t)
    ensures v == w && s == t
  {
    hide ReadValue, Canonical;
    ReadCanonical(v, s);
    ReadCanonical(w, t);
  }

  /** Two values feed the same stream only if they are equal. */
  lemma Injective(v: Value, w: Value)
    requires Canonical(v) == Canonical(w)
    ensures v == w
  {
    hide Canonical;
    assert Canonical(v) + [] == Canonical(v) && Canonical(w) + [] == Canonical(w);
    Unique(v, [], w, []);
  }

  // ---------------------------------------------------------------- keys

  /** Letters, digits, '-' and '_'. */
  predicate Base64Url(s: string)
  {
    forall i :: 0 <= i < |s| ==>
      'a' <= s[i] <= 'z' || 'A' <= s[i] <= 'Z' || '0' <= s[i] <= '9' || s[i] == '-' || s[i] == '_'
  }

  lemma {:induction false} PlainTail(s: string)
    requires Base64Url(s)
    ensures QuotedTail(s) == s + "\""
    decreases |s|
  {
    if s != [] { PlainTail(s[1..]); }
  }

  lemma PlainQuoted(s: string)
    requires Base64Url(s)
    ensures Quoted(s) == "\"" + s + "\""
  {
    PlainTail(s);
  }

  lemma Join3(a: string, b: string, c: string)
    ensures "{" + (a + ("," + b + ("," + c + "}"))) == "{" + a + "," + b + "," + c + "}"
  {
  }

  /** The stream of an object with three members. */
  lemma ThreeMembers(v: Value, a: string, b: string, c: string)
    requires v.Object? && v.members.Keys == {a, b, c} && Less(a, b) && Less(b, c)
    ensures Canonical(v) == "{" + Member(v, a) + "," + Member(v, b) + "," + Member(v, c) + "}"
  {
    var keys := [a, b, c];
    LessTransitive(a, b, c);
    assert Increasing(keys);
    SortedUnique(Sorted(v.members.Keys), keys);
    hide Sorted, Member, Less, Increasing;
    assert MembersTail(v, keys, 3) == "}";
    assert MembersTail(v, keys, 2) == "," + Member(v, c) + "}";
    assert MembersTail(v, keys, 1) == "," + Member(v, b) + ("," + Member(v, c) + "}");
    Join3(Member(v, a), Member(v, b), Member(v, c));
  }

  lemma TextMember(v: Value, key: string, text: string)
    requires v.Object? && key in v.members && v.members[key] == String(text) && Base64Url(key) && Base64Url(text)
    ensures Member(v, key) == "\"" + key + "\":\"" + text + "\""
  {
    hide Quoted;
    PlainQuoted(key);
    PlainQuoted(text);
  }

  /** The stream of an RSA key is the text of section 3.1 of RFC 7638. */
  lemma RsaStream(e: string, n: string)
    requires Base64Url(e) && Base64Url(n)
    ensures Canonical(Object(map["kty" := String("RSA"), "n" := String(n), "e" := String(e)])) ==
            "{" + ("\"e\":\"" + e + "\"") + "," + "\"kty\":\"RSA\"" + "," + ("\"n\":\"" + n + "\"") + "}"
  {
    hide Canonical, Member;
    var v := Object(map["kty" := String("RSA"), "n" := String(n), "e" := String(e)]);
    ThreeMembers(v, "e", "kty", "n");
    TextMember(v, "e", e);
    TextMember(v, "kty", "RSA");
    TextMember(v, "n", n);
    assert "\"" + "e" + "\":\"" == "\"e\":\"";
    assert "\"" + "n" + "\":\"" == "\"n\":\"";
    assert "\"" + "kty" + "\":\"" + "RSA" + "\"" == "\"kty\":\"RSA\"";
  }
}
