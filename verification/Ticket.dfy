/** Authentication tickets: `prefix:data:time::signature`. Texts are UTF-8 byte strings; a byte
    is the character of that code. Signing, base64, UTF-8 validity and the data type's own text
    form are parameters. */
module Ticket {
  import opened Wrappers
  import Text

  predicate IsBytes(s: string)
  {
    forall i :: 0 <= i < |s| ==> s[i] as int < 256
  }

  type ByteString = s: string | IsBytes(s) witness ""

  const I64_MAX := 0x7fff_ffff_ffff_ffff
  const U64_SIZE := 0x1_0000_0000_0000_0000

  type Seconds = t: int | -I64_MAX - 1 <= t <= I64_MAX

  const TICKET_LIFETIME := 2 * 3600

  // ---------------------------------------------------------------- hexadecimal

  function HexUpper(n: nat): char
    requires n < 16
  {
    if n < 10 then '0' + n as char else 'A' + (n - 10) as char
  }

  /** The value of a hexadecimal digit of either case. */
  function HexValue(c: char): Option<nat>
  {
    if '0' <= c <= '9' then Some(c as int - '0' as int)
    else if 'A' <= c <= 'F' then Some(c as int - 'A' as int + 10)
    else if 'a' <= c <= 'f' then Some(c as int - 'a' as int + 10)
    else None
  }

  predicate IsHex(c: char)
  {
    HexValue(c).Some?
  }

  lemma HexUpperValue(n: nat)
    requires n < 16
    ensures HexValue(HexUpper(n)) == Some(n) && HexUpper(n) != ':' && HexUpper(n) != '+' && HexUpper(n) != '-'
  {
  }

  // ---------------------------------------------------------------- percent encoding

  /** Control characters, the colon and everything outside ASCII are escaped; a percent sign is
      not. */
  predicate Escaped(c: char)
  {
    c as int < 0x20 || c as int >= 0x7f || c == ':'
  }

  function EncodeByte(c: char): ByteString
    requires c as int < 256
  {
    if Escaped(c) then ['%', HexUpper(c as int / 16), HexUpper(c as int % 16)] else [c]
  }

  function Encode(s: ByteString): ByteString
  {
    if s == [] then [] else EncodeByte(s[0]) + Encode(s[1..])
  }

  /** A percent sign with two hexadecimal digits after it. */
  predicate EscapeAt(s: string, i: nat)
  {
    i + 2 < |s| && s[i] == '%' && IsHex(s[i + 1]) && IsHex(s[i + 2])
  }

  function Decode(s: string): (r: string)
    ensures IsBytes(s) ==> IsBytes(r)
  {
    if s == [] then []
    else if EscapeAt(s, 0) then [(16 * HexValue(s[1]).value + HexValue(s[2]).value) as char] + Decode(s[3..])
    else [s[0]] + Decode(s[1..])
  }

  /** The text has nothing that reads as an escape. */
  predicate Plain(s: string)
  {
    forall i :: 0 <= i < |s| ==> !EscapeAt(s, i)
  }

  lemma {:induction false} EncodeHasNoColon(s: ByteString)
    ensures ':' !in Encode(s)
    decreases |s|
  {
    if s != [] {
      EncodeHasNoColon(s[1..]);
      HexUpperValue(s[0] as int / 16);
      HexUpperValue(s[0] as int % 16);
    }
  }

  lemma DecodeEscape(c: char, rest: string)
    requires c as int < 256 && Escaped(c)
    ensures Decode(EncodeByte(c) + rest) == [c] + Decode(rest)
  {
    var s := EncodeByte(c) + rest;
    HexUpperValue(c as int / 16);
    HexUpperValue(c as int % 16);
    assert s[0] == '%' && s[1] == HexUpper(c as int / 16) && s[2] == HexUpper(c as int % 16);
    assert s[3..] == rest;
    assert 16 * (c as int / 16) + c as int % 16 == c as int;
  }

  /** Encoding keeps the first characters as far as they are hexadecimal digits, and makes no
      others. */
  lemma EncodeFirst(s: ByteString)
    ensures s != [] ==> Encode(s) != [] && (IsHex(s[0]) <==> IsHex(Encode(s)[0]))
    ensures s != [] && IsHex(s[0]) ==> Encode(s)[0] == s[0] && Encode(s)[1..] == Encode(s[1..])
  {
    if s != [] && IsHex(s[0]) { assert Encode(s) == [s[0]] + Encode(s[1..]); }
  }

  /** A percent sign starts an escape in the encoding exactly when it did in the text. */
  lemma EscapeKept(s: ByteString)
    requires s != [] && s[0] == '%'
    ensures EscapeAt(Encode(s), 0) <==> EscapeAt(s, 0)
    ensures EscapeAt(s, 0) ==> Encode(s)[3..] == Encode(s[3..])
    ensures Encode(s)[0] == '%' && Encode(s)[1..] == Encode(s[1..])
  {
    assert Encode(s) == ['%'] + Encode(s[1..]);
    EncodeFirst(s[1..]);
    if |s| > 1 && IsHex(s[1]) {
      EncodeFirst(s[1..][1..]);
      assert s[1..][1..] == s[2..];
      if |s| > 2 && IsHex(s[2]) { assert s[2..][1..] == s[3..]; }
    }
  }

  lemma {:induction false} DecodeShorter(s: ByteString)
    ensures |Decode(Encode(s))| <= |s|
    ensures !Plain(s) ==> |Decode(Encode(s))| < |s|
    decreases |s|
  {
    if s != [] {
      DecodeShorter(s[1..]);
      PlainTail(s);
      hide Plain;
      if Escaped(s[0]) {
        DecodeEscape(s[0], Encode(s[1..]));
      } else if EscapeAt(s, 0) {
        EscapeKept(s);
        DecodeShorter(s[3..]);
        DecodeSkips(Encode(s));
      } else {
        DecodeLiteral(s);
      }
    }
  }

  lemma DecodeSkips(s: string)
    requires EscapeAt(s, 0)
    ensures |Decode(s)| == 1 + |Decode(s[3..])|
  {
  }

  lemma PlainTail(s: string)
    requires s != []
    ensures Plain(s) <==> !EscapeAt(s, 0) && Plain(s[1..])
  {
    if Plain(s) {
      forall i | 0 <= i < |s[1..]| ensures !EscapeAt(s[1..], i) { assert !EscapeAt(s, i + 1); }
    }
    if !EscapeAt(s, 0) && Plain(s[1..]) {
      forall i | 0 <= i < |s| ensures !EscapeAt(s, i) {
        if i > 0 { assert !EscapeAt(s[1..], i - 1); }
      }
    }
  }

  lemma DecodeLiteral(s: ByteString)
    requires s != [] && !Escaped(s[0]) && !EscapeAt(s, 0)
    ensures Decode(Encode(s)) == [s[0]] + Decode(Encode(s[1..]))
  {
    if s[0] == '%' { EscapeKept(s); }
    assert Encode(s)[0] == s[0] && Encode(s)[1..] == Encode(s[1..]);
  }

  lemma {:induction false} DecodePlain(s: ByteString)
    requires Plain(s)
    ensures Decode(Encode(s)) == s
    decreases |s|
  {
    if s != [] {
      PlainTail(s);
      DecodePlain(s[1..]);
      if Escaped(s[0]) {
        DecodeEscape(s[0], Encode(s[1..]));
      } else {
        DecodeLiteral(s);
      }
    }
  }

  /** Decoding undoes encoding exactly on texts without a percent sign and two hexadecimal
      digits after it. */
  lemma DecodeEncodeIff(s: ByteString)
    ensures Decode(Encode(s)) == s <==> Plain(s)
  {
    DecodeShorter(s);
    if Plain(s) { DecodePlain(s); }
  }

  predicate Printable(s: string)
  {
    forall i :: 0 <= i < |s| ==> 0x20 <= s[i] as int < 0x7f && s[i] != ':'
  }

  lemma {:induction false} EncodePrintable(s: ByteString)
    requires Printable(s)
    ensures Encode(s) == s
    decreases |s|
  {
    if s != [] { EncodePrintable(s[1..]); }
  }

  /** The text `%41` comes back as `A`. */
  lemma EscapeChanges()
    ensures Encode("%41") == "%41" && Decode("%41") == "A"
  {
    EncodePrintable("%41");
    DecodeOne("%41");
  }

  lemma DecodeOne(s: string)
    requires |s| == 3 && EscapeAt(s, 0)
    ensures Decode(s) == [(16 * HexValue(s[1]).value + HexValue(s[2]).value) as char]
  {
    assert s[3..] == [];
  }

  lemma EncodeInjective(s: ByteString, t: ByteString)
    requires Plain(s) && Plain(t) && Encode(s) == Encode(t)
    ensures s == t
  {
    DecodePlain(s);
    DecodePlain(t);
  }

  // ---------------------------------------------------------------- time stamps

  function Digits(n: nat): ByteString
  {
    if n < 16 then [HexUpper(n)] else Digits(n / 16) + [HexUpper(n % 16)]
  }

  function Zeros(n: nat): ByteString
  {
    seq(n, _ => '0')
  }

  /** `{:08X}` of a signed 64-bit number: its two's complement, at least eight digits. */
  function PrintTime(t: Seconds): ByteString
  {
    var digits := Digits(if t < 0 then t + U64_SIZE else t);
    if |digits| < 8 then Zeros(8 - |digits|) + digits else digits
  }

  predicate AllHex(s: string)
  {
    forall i :: 0 <= i < |s| ==> IsHex(s[i])
  }

  function Value(s: string): nat
    requires AllHex(s)
  {
    if s == [] then 0 else 16 * Value(s[..|s| - 1]) + HexValue(s[|s| - 1]).value
  }

  /** `i64::from_str_radix(_, 16)` */
  function ParseTime(s: string): Option<Seconds>
  {
    if s == [] then None
    else
      var signed := s[0] == '+' || s[0] == '-';
      var digits := if signed then s[1..] else s;
      if digits == [] || !AllHex(digits) then None
      else
        var n: int := Value(digits);
        var v := if s[0] == '-' then 0 - n else n;
        if -I64_MAX - 1 <= v <= I64_MAX then Some(v) else None
  }

  lemma {:induction false} ValueDigits(n: nat)
    ensures Digits(n) != [] && AllHex(Digits(n)) && Value(Digits(n)) == n
    decreases n
  {
    HexUpperValue(n % 16);
    if n >= 16 {
      ValueDigits(n / 16);
      assert Digits(n)[..|Digits(n)| - 1] == Digits(n / 16);
    }
  }

  lemma {:induction false} ValueZeros(z: nat, s: string)
    requires AllHex(s)
    ensures AllHex(Zeros(z) + s) && Value(Zeros(z) + s) == Value(s)
    decreases z + |s|
  {
    var all := Zeros(z) + s;
    if s != [] {
      ValueZeros(z, s[..|s| - 1]);
      assert all[..|all| - 1] == Zeros(z) + s[..|s| - 1];
      assert all[|all| - 1] == s[|s| - 1];
    } else if z > 0 {
      ValueZeros(z - 1, s);
      assert all[..|all| - 1] == Zeros(z - 1) + s;
    }
  }

  /** The text of a time stamp is the hexadecimal number of its two's complement. */
  lemma TimeValue(t: Seconds)
    ensures PrintTime(t) != [] && AllHex(PrintTime(t))
    ensures Value(PrintTime(t)) == if t < 0 then t + U64_SIZE else t
  {
    hide Digits, Value, AllHex, Zeros;
    var n: nat := if t < 0 then t + U64_SIZE else t;
    ValueDigits(n);
    if |Digits(n)| < 8 { ValueZeros(8 - |Digits(n)|, Digits(n)); }
  }

  lemma HexIsNoSign(s: string)
    requires AllHex(s)
    ensures ':' !in s && (s != [] ==> s[0] != '+' && s[0] != '-')
  {
    assert forall c :: IsHex(c) ==> c != ':' && c != '+' && c != '-';
    assert forall c :: c in s ==> IsHex(c);
  }

  /** A time stamp is read back exactly when it is not negative. */
  lemma TimeRoundTripIff(t: Seconds)
    ensures ParseTime(PrintTime(t)) == Some(t) <==> t >= 0
  {
    TimeValue(t);
    HexIsNoSign(PrintTime(t));
  }

  /** One second before the epoch prints as sixteen digits that do not fit when read. */
  lemma NegativeTimeFails()
    ensures ParseTime(PrintTime(-1)) == None
  {
    TimeValue(-1);
    HexIsNoSign(PrintTime(-1));
  }

  lemma PrintTimeInjective(t: Seconds, u: Seconds)
    requires PrintTime(t) == PrintTime(u)
    ensures t == u
  {
    TimeValue(t);
    TimeValue(u);
  }

  // ---------------------------------------------------------------- tickets

  datatype Ticket = Ticket(prefix: ByteString, data: ByteString, time: Seconds, signature: Option<string>)

  /** `verify` takes a signature and the signed text; it may fail. */
  datatype Keyring = Keyring(sign: string -> Option<string>, verify: (string, string) -> Option<bool>)

  ghost predicate KeyringCorrect(k: Keyring)
  {
    forall m: string :: k.sign(m).Some? ==> k.verify(k.sign(m).value, m) == Some(true)
  }

  datatype Base64 = Base64(encode: string -> ByteString, decode: string -> Option<string>)

  ghost predicate Base64Correct(b: Base64)
  {
    forall s: string :: b.decode(b.encode(s)) == Some(s)
  }

  function Colon(a: ByteString, b: ByteString): ByteString
  {
    a + ":" + b
  }

  /** `ticket_data` */
  function TicketData(prefix: ByteString, data: ByteString, time: Seconds): ByteString
  {
    Colon(Colon(Encode(prefix), Encode(data)), PrintTime(time))
  }

  /** The signed text. */
  function VerificationData(prefix: ByteString, data: ByteString, time: Seconds, aad: Option<string>): string
  {
    TicketData(prefix, data, time) + (if aad.Some? then ":" + aad.value else "")
  }

  /** The text before the first colon and the text after it. */
  function Cut(s: string): (r: Option<(string, string)>)
    ensures IsBytes(s) && r.Some? ==> IsBytes(r.value.0) && IsBytes(r.value.1)
  {
    var i := Text.IndexOf(s, ':');
    if i == |s| then None else Some((s[..i], s[i + 1..]))
  }

  /** `Ticket::parse`; `utf8` tells valid UTF-8. */
  function Parse(b: Base64, utf8: string -> bool, s: ByteString): Option<Ticket>
  {
    match Cut(s)
    case None => None
    case Some((prefix, s1)) =>
      match Cut(s1)
      case None => None
      case Some((data, s2)) =>
        match Cut(s2)
        case None => None
        case Some((time, rest)) =>
          if utf8(Decode(prefix)) && utf8(Decode(data)) &&
             ParseTime(time).Some? && rest != [] && rest[0] == ':' && b.decode(rest[1..]).Some? then
            Some(Ticket(Decode(prefix), Decode(data), ParseTime(time).value, b.decode(rest[1..])))
          else None
  }

  /** Subtraction on signed 64-bit numbers, wrapping around. */
  function Age(now: Seconds, time: Seconds): (r: Seconds)
    ensures (r - (now - time)) % U64_SIZE == 0
    ensures now >= 0 && time >= 0 ==> r == now - time
  {
    var d := now - time;
    if d > I64_MAX then d - U64_SIZE else if d < -I64_MAX - 1 then d + U64_SIZE else d
  }

  /** `verify`: the checks in their order; `read` is the data type's own parser. */
  function Verify<T>(t: Ticket, k: Keyring, prefix: string, aad: Option<string>, now: Seconds,
                     read: string -> Option<T>): Option<T>
  {
    if t.prefix != prefix then None
    else if t.signature.None? then None
    else if Age(now, t.time) < -300 then None
    else if Age(now, t.time) > TICKET_LIFETIME then None
    else if k.verify(t.signature.value, VerificationData(t.prefix, t.data, t.time, aad)) != Some(true) then None
    else read(t.data)
  }

  class TicketObject {
    const prefix: ByteString
    const data: ByteString
    const time: Seconds
    var signature: Option<string>

    ghost function Contents(): Ticket
      reads this
    {
      Ticket(prefix, data, time, signature)
    }

    constructor (prefix: ByteString, data: ByteString, now: Seconds)
      ensures Contents() == Ticket(prefix, data, now, None)
    {
      this.prefix, this.data, this.time, this.signature := prefix, data, now, None;
    }

    /** Signs the ticket and returns its text. A failing signature leaves the ticket as it is. */
    method Sign(k: Keyring, b: Base64, aad: Option<string>) returns (r: Result<ByteString, ()>)
      modifies this
      ensures r.Ok? <==> k.sign(VerificationData(prefix, data, time, aad)).Some?
      ensures signature == if r.Ok? then k.sign(VerificationData(prefix, data, time, aad)) else old(signature)
      ensures r.Ok? ==> r.value == SignedText(b, Contents())
    {
      var output := TicketData(prefix, data, time);
      var signed := k.sign(VerificationData(prefix, data, time, aad));
      if signed.None? { return Err(()); }
      signature := signed;
      return Ok(output + "::" + b.encode(signed.value));
    }
  }

  function SignedText(b: Base64, t: Ticket): ByteString
    requires t.signature.Some?
  {
    TicketData(t.prefix, t.data, t.time) + "::" + b.encode(t.signature.value)
  }

  // ---------------------------------------------------------------- the laws

  lemma CutJoined(a: string, b: string)
    requires ':' !in a
    ensures Cut(a + ":" + b) == Some((a, b))
  {
    Text.IndexOfPrefix(a, ':', b);
    assert (a + ":" + b)[..|a|] == a && (a + ":" + b)[|a| + 1..] == b;
  }

  /** A ticket's text followed by `tail`, one colon at a time. */
  lemma DataLayout(prefix: ByteString, data: ByteString, time: Seconds, tail: string)
    ensures ':' !in Encode(prefix) && ':' !in Encode(data) && ':' !in PrintTime(time)
    ensures TicketData(prefix, data, time) + tail ==
            Encode(prefix) + ":" + (Encode(data) + ":" + (PrintTime(time) + tail))
  {
    EncodeHasNoColon(prefix);
    EncodeHasNoColon(data);
    TimeValue(time);
    HexIsNoSign(PrintTime(time));
    Five(Encode(prefix), ":", Encode(data), ":", PrintTime(time), tail);
  }

  lemma Five(a: string, b: string, c: string, d: string, e: string, f: string)
    ensures a + b + c + d + e + f == a + b + (c + d + (e + f))
  {
  }

  lemma CutTwice(a: string, b: string, c: string)
    requires ':' !in a && ':' !in b
    ensures Cut(a + ":" + (b + ":" + c)) == Some((a, b + ":" + c)) && Cut(b + ":" + c) == Some((b, c))
  {
    hide Cut;
    CutJoined(a, b + ":" + c);
    CutJoined(b, c);
  }

  /** The parts a signed ticket's text is cut into. */
  lemma SignedParts(b: Base64, t: Ticket)
    requires t.signature.Some?
    ensures var sig := b.encode(t.signature.value);
            var rest := Encode(t.data) + ":" + (PrintTime(t.time) + ":" + (":" + sig));
            Cut(SignedText(b, t)) == Some((Encode(t.prefix), rest)) &&
            Cut(rest) == Some((Encode(t.data), PrintTime(t.time) + ":" + (":" + sig))) &&
            Cut(PrintTime(t.time) + ":" + (":" + sig)) == Some((PrintTime(t.time), ":" + sig))
  {
    hide Cut, Encode, PrintTime, TicketData;
    var sig := b.encode(t.signature.value);
    DataLayout(t.prefix, t.data, t.time, "::" + sig);
    TwoColons(TicketData(t.prefix, t.data, t.time), sig);
    TwoColons(PrintTime(t.time), sig);
    CutTwice(Encode(t.prefix), Encode(t.data), PrintTime(t.time) + ":" + (":" + sig));
    CutJoined(PrintTime(t.time), ":" + sig);
  }

  lemma TwoColons(a: string, b: string)
    ensures a + "::" + b == a + ("::" + b) && a + ("::" + b) == a + ":" + (":" + b)
  {
  }

  /** What parsing makes of a signed ticket. */
  lemma ParseOfSigned(b: Base64, utf8: string -> bool, t: Ticket)
    requires Base64Correct(b) && t.signature.Some?
    ensures var p, d, time := Decode(Encode(t.prefix)), Decode(Encode(t.data)), ParseTime(PrintTime(t.time));
            Parse(b, utf8, SignedText(b, t)) ==
            if utf8(p) && utf8(d) && time.Some? then Some(Ticket(p, d, time.value, t.signature)) else None
  {
    hide Cut, Encode, Decode, PrintTime, ParseTime, SignedText, Base64Correct;
    SignedParts(b, t);
    var sig := b.encode(t.signature.value);
    assert (":" + sig)[1..] == sig;
    SignatureReads(b, t.signature.value);
  }

  lemma SignatureReads(b: Base64, signature: string)
    requires Base64Correct(b)
    ensures b.decode(b.encode(signature)) == Some(signature)
  {
  }

  /** A signed ticket is read back as it is exactly when its texts are plain and its time is not
      negative. */
  lemma ParseSignedIff(b: Base64, utf8: string -> bool, t: Ticket)
    requires Base64Correct(b) && t.signature.Some? && utf8(t.prefix) && utf8(t.data)
    ensures Parse(b, utf8, SignedText(b, t)) == Some(t) <==> Plain(t.prefix) && Plain(t.data) && t.time >= 0
  {
    hide Encode, Decode, PrintTime, ParseTime, SignedText, Parse, Plain, Base64Correct;
    ParseOfSigned(b, utf8, t);
    DecodeEncodeIff(t.prefix);
    DecodeEncodeIff(t.data);
    TimeRoundTripIff(t.time);
  }

  lemma TailSame(a: string, x: Option<string>, y: Option<string>)
    requires a + (if x.Some? then ":" + x.value else "") == a + (if y.Some? then ":" + y.value else "")
    ensures x == y
  {
    var s, t := if x.Some? then ":" + x.value else "", if y.Some? then ":" + y.value else "";
    assert s == (a + s)[|a|..] && t == (a + t)[|a|..];
    assert x.Some? ==> s[1..] == x.value;
    assert y.Some? ==> t[1..] == y.value;
  }

  lemma TimeAndTail(t: Seconds, x: Option<string>, u: Seconds, y: Option<string>)
    requires PrintTime(t) + (if x.Some? then ":" + x.value else "") ==
             PrintTime(u) + (if y.Some? then ":" + y.value else "")
    ensures t == u && x == y
  {
    var s, s' := if x.Some? then ":" + x.value else "", if y.Some? then ":" + y.value else "";
    TimeValue(t);
    TimeValue(u);
    HexIsNoSign(PrintTime(t));
    HexIsNoSign(PrintTime(u));
    SameStop(PrintTime(t), s, PrintTime(u), s');
    PrintTimeInjective(t, u);
    TailSame(PrintTime(t), x, y);
  }

  lemma SameStop(a: string, s: string, b: string, t: string)
    requires ':' !in a && ':' !in b && a + s == b + t
    requires (s == [] || s[0] == ':') && (t == [] || t[0] == ':')
    ensures a == b
  {
    Text.NotShorter(a, s, b, t);
    Text.NotShorter(b, t, a, s);
    assert a == (a + s)[..|a|] && b == (b + t)[..|b|];
  }

  /** The signed text determines the time, the additional data and the encoded texts. */
  lemma SignedIff(p: ByteString, d: ByteString, t: Seconds, x: Option<string>, q: ByteString, e: ByteString,
                  u: Seconds, y: Option<string>)
    ensures VerificationData(p, d, t, x) == VerificationData(q, e, u, y) <==>
            Encode(p) == Encode(q) && Encode(d) == Encode(e) && t == u && x == y
  {
    var s, s' := if x.Some? then ":" + x.value else "", if y.Some? then ":" + y.value else "";
    if VerificationData(p, d, t, x) == VerificationData(q, e, u, y) {
      DataLayout(p, d, t, s);
      DataLayout(q, e, u, s');
      CutJoined(Encode(p), Encode(d) + ":" + (PrintTime(t) + s));
      CutJoined(Encode(q), Encode(e) + ":" + (PrintTime(u) + s'));
      CutJoined(Encode(d), PrintTime(t) + s);
      CutJoined(Encode(e), PrintTime(u) + s');
      TimeAndTail(t, x, u, y);
    }
  }

  /** For plain texts it determines everything that is signed. */
  lemma SignedDetermines(p: ByteString, d: ByteString, t: Seconds, x: Option<string>, q: ByteString, e: ByteString,
                         u: Seconds, y: Option<string>)
    requires Plain(p) && Plain(d) && Plain(q) && Plain(e)
    requires VerificationData(p, d, t, x) == VerificationData(q, e, u, y)
    ensures p == q && d == e && t == u && x == y
  {
    SignedIff(p, d, t, x, q, e, u, y);
    EncodeInjective(p, q);
    EncodeInjective(d, e);
  }

  lemma {:induction false} EncodedPrintable(s: ByteString)
    ensures Printable(Encode(s))
    decreases |s|
  {
    if s != [] {
      EncodedPrintable(s[1..]);
      HexUpperValue(s[0] as int / 16);
      HexUpperValue(s[0] as int % 16);
    }
  }

  /** Without that, a text that needs escapes is signed like its own encoding. */
  lemma EncodingCollides(p: ByteString, d: ByteString, t: Seconds, x: Option<string>)
    ensures VerificationData(Encode(p), Encode(d), t, x) == VerificationData(p, d, t, x)
    ensures Encode(p) == p <==> Printable(p)
  {
    EncodedPrintable(p);
    EncodedPrintable(d);
    EncodePrintable(Encode(p));
    EncodePrintable(Encode(d));
    if Printable(p) { EncodePrintable(p); }
  }

  /** A ticket that was signed, sent as text and read back is accepted with the same key, prefix
      and additional data exactly while its age is between minus five minutes and two hours. */
  lemma AcceptedIff<T>(k: Keyring, b: Base64, utf8: string -> bool, t: Ticket, aad: Option<string>, now: Seconds,
                       read: string -> Option<T>, value: T)
    requires KeyringCorrect(k) && Base64Correct(b) && read(t.data) == Some(value)
    requires Plain(t.prefix) && Plain(t.data) && utf8(t.prefix) && utf8(t.data) && t.time >= 0 && now >= 0
    requires t.signature.Some? && t.signature == k.sign(VerificationData(t.prefix, t.data, t.time, aad))
    ensures Parse(b, utf8, SignedText(b, t)) == Some(t)
    ensures Verify(t, k, t.prefix, aad, now, read) == (if -300 <= now - t.time <= 7200 then Some(value) else None)
  {
    ParseSignedIff(b, utf8, t);
  }

  /** Exactly these tickets are accepted: right prefix, signed over the ticket and the additional
      data, of the right age, with data that parses. */
  lemma VerifyIff<T>(t: Ticket, k: Keyring, prefix: string, aad: Option<string>, now: Seconds,
                     read: string -> Option<T>, value: T)
    ensures Verify(t, k, prefix, aad, now, read) == Some(value) <==>
            t.prefix == prefix && t.signature.Some? &&
            k.verify(t.signature.value, VerificationData(t.prefix, t.data, t.time, aad)) == Some(true) &&
            -300 <= Age(now, t.time) <= 7200 && read(t.data) == Some(value)
  {
  }

  /** `s` is `prefix:data:time::signature`, and its parts read as those of `t`. */
  ghost predicate TicketText(b: Base64, utf8: string -> bool, s: ByteString, t: Ticket,
                             prefix: ByteString, data: ByteString, time: string, signature: string)
  {
    ':' !in prefix && ':' !in data && ':' !in time &&
    s == prefix + ":" + (data + ":" + (time + ":" + (":" + signature))) &&
    utf8(Decode(prefix)) && utf8(Decode(data)) && t.prefix == Decode(prefix) && t.data == Decode(data) &&
    ParseTime(time) == Some(t.time) && b.decode(signature) == t.signature && t.signature.Some?
  }

  lemma CutIff(s: string, a: string, c: string)
    ensures Cut(s) == Some((a, c)) <==> ':' !in a && s == a + ":" + c
  {
    if ':' !in a && s == a + ":" + c { CutJoined(a, c); }
    if Cut(s) == Some((a, c)) {
      var i := Text.IndexOf(s, ':');
      assert s == s[..i] + [s[i]] + s[i + 1..];
    }
  }

  /** Exactly these texts are read as the ticket `t`. */
  lemma ParseIff(b: Base64, utf8: string -> bool, s: ByteString, t: Ticket)
    ensures Parse(b, utf8, s) == Some(t) <==>
            exists prefix: ByteString, data: ByteString, time, signature ::
              TicketText(b, utf8, s, t, prefix, data, time, signature)
  {
    hide Cut, Decode, ParseTime;
    forall prefix: ByteString, data: ByteString, time, signature
      | TicketText(b, utf8, s, t, prefix, data, time, signature)
      ensures Parse(b, utf8, s) == Some(t)
    {
      CutIff(s, prefix, data + ":" + (time + ":" + (":" + signature)));
      CutIff(data + ":" + (time + ":" + (":" + signature)), data, time + ":" + (":" + signature));
      CutIff(time + ":" + (":" + signature), time, ":" + signature);
      assert (":" + signature)[1..] == signature;
    }
    if Parse(b, utf8, s) == Some(t) {
      var c0 := Cut(s).value;
      var c1 := Cut(c0.1).value;
      var c2 := Cut(c1.1).value;
      CutIff(s, c0.0, c0.1);
      CutIff(c0.1, c1.0, c1.1);
      CutIff(c1.1, c2.0, c2.1);
      assert c2.1 == ":" + c2.1[1..];
      assert TicketText(b, utf8, s, t, c0.0, c1.0, c2.0, c2.1[1..]);
    }
  }

  // ---------------------------------------------------------------- who made an accepted ticket

  /** What a ticket was signed for. */
  datatype Issue = Issue(prefix: ByteString, data: ByteString, time: Seconds, aad: Option<string>)

  function SignedFor(i: Issue): string
  {
    VerificationData(i.prefix, i.data, i.time, i.aad)
  }

  /** The keyring accepts exactly the signatures it made for these tickets, each for its own text. */
  ghost predicate Signs(k: Keyring, issued: set<Issue>)
  {
    forall sig: string, text: string :: k.verify(sig, text) == Some(true) <==>
      k.sign(text) == Some(sig) && exists i :: i in issued && SignedFor(i) == text
  }

  /** The same ticket as far as its signed text goes. */
  predicate SameSigned(i: Issue, j: Issue)
  {
    Encode(i.prefix) == Encode(j.prefix) && Encode(i.data) == Encode(j.data) && i.time == j.time && i.aad == j.aad
  }

  /** An accepted ticket is one that was issued, in prefix, data, time and additional data, as far
      as its percent encoding tells. */
  lemma AcceptedWasIssued<T>(k: Keyring, issued: set<Issue>, t: Ticket, prefix: string, aad: Option<string>,
                             now: Seconds, read: string -> Option<T>) returns (i: Issue)
    requires Signs(k, issued) && Verify(t, k, prefix, aad, now, read).Some?
    ensures i in issued && SameSigned(i, Issue(t.prefix, t.data, t.time, aad)) && t.prefix == prefix
    ensures t.signature == k.sign(SignedFor(i))
    ensures -300 <= Age(now, t.time) <= 7200
  {
    hide VerificationData, Encode, Age;
    var value := Verify(t, k, prefix, aad, now, read).value;
    VerifyIff(t, k, prefix, aad, now, read, value);
    var text := VerificationData(t.prefix, t.data, t.time, aad);
    assert k.verify(t.signature.value, text) == Some(true);
    i :| i in issued && SignedFor(i) == text;
    SignedIff(i.prefix, i.data, i.time, i.aad, t.prefix, t.data, t.time, aad);
  }

  /** For plain texts exactly the issued tickets are accepted, while their age is right. */
  lemma AcceptedIffIssued<T>(k: Keyring, issued: set<Issue>, t: Ticket, prefix: string, aad: Option<string>,
                             now: Seconds, read: string -> Option<T>)
    requires Signs(k, issued) && forall i :: i in issued ==> Plain(i.prefix) && Plain(i.data)
    requires Plain(t.prefix) && Plain(t.data)
    ensures Verify(t, k, prefix, aad, now, read).Some? <==>
            Issue(t.prefix, t.data, t.time, aad) in issued && t.prefix == prefix && t.signature.Some? &&
            t.signature == k.sign(VerificationData(t.prefix, t.data, t.time, aad)) &&
            -300 <= Age(now, t.time) <= 7200 && read(t.data).Some?
  {
    hide VerificationData, Encode, Age, Plain;
    var me := Issue(t.prefix, t.data, t.time, aad);
    if Verify(t, k, prefix, aad, now, read).Some? {
      var i := AcceptedWasIssued(k, issued, t, prefix, aad, now, read);
      EncodeInjective(i.prefix, t.prefix);
      EncodeInjective(i.data, t.data);
      assert i == me;
    } else if me in issued {
      assert SignedFor(me) == VerificationData(t.prefix, t.data, t.time, aad);
    }
  }

  /** So the signature of a ticket does not carry over: with another prefix, data, time or other
      additional data it is refused. */
  lemma ChangedIsRefused<T>(k: Keyring, issued: set<Issue>, i: Issue, t: Ticket, prefix: string, aad: Option<string>,
                            now: Seconds, read: string -> Option<T>)
    requires Signs(k, issued) && forall j :: j in issued ==> Plain(j.prefix) && Plain(j.data)
    requires forall j :: j in issued && j != i ==> k.sign(SignedFor(j)) != k.sign(SignedFor(i))
    requires t.signature == k.sign(SignedFor(i)) && Plain(t.prefix) && Plain(t.data)
    requires Issue(t.prefix, t.data, t.time, aad) != i
    ensures Verify(t, k, prefix, aad, now, read) == None
  {
    hide Verify, Encode, Age, Plain;
    AcceptedIffIssued(k, issued, t, prefix, aad, now, read);
  }
}
