/** User ids (`name@realm`) and authentication ids (a user id with an optional `!token`):
    their text form and its parser. Positions are counted in characters; both separators are
    ASCII, so this gives the same parts as the byte positions of the implementation. */
module AuthId {
  import opened Wrappers
  import opened Text

  datatype Userid = Userid(data: string, nameLen: nat)

  datatype Authid = Authid(user: Userid, token: Option<string>)
  {
    predicate IsToken() { token.Some? }
  }

  datatype IdError = NotAUserId | EmptyToken | BadUserName | BadRealm | BadTokenName

  predicate NameChar(c: char)
  {
    !IsWhite(c) && c != ':' && c != '/' && 0x20 <= c as int && c as int != 0x7f
  }

  /** The user name expression: no white space, colon, slash or control character. */
  predicate ValidName(s: string)
  {
    s != [] && forall k :: 0 <= k < |s| ==> NameChar(s[k])
  }

  predicate WordChar(c: char)
  {
    'a' <= c <= 'z' || 'A' <= c <= 'Z' || '0' <= c <= '9' || c == '_'
  }

  predicate SafeChar(c: char)
  {
    WordChar(c) || c == '.' || c == '-'
  }

  /** The safe id expression, used for realms and token names. */
  predicate SafeId(s: string)
  {
    s != [] && WordChar(s[0]) && forall k :: 0 <= k < |s| ==> SafeChar(s[k])
  }

  predicate ValidRealm(s: string)
  {
    SafeId(s) && 2 <= |s| <= 32
  }

  predicate IsLastIndex(s: string, c: char, i: nat)
  {
    i < |s| && s[i] == c && forall k :: i < k < |s| ==> s[k] != c
  }

  lemma {:induction false} LastIndexExists(s: string, c: char)
    requires c in s
    ensures exists i: nat :: IsLastIndex(s, c, i)
    decreases |s|
  {
    var n := |s| - 1;
    if s[n] == c {
      assert IsLastIndex(s, c, n);
    } else {
      assert s == s[..n] + [s[n]];
      LastIndexExists(s[..n], c);
      var i: nat :| IsLastIndex(s[..n], c, i);
      assert IsLastIndex(s, c, i);
    }
  }

  /** Position of the last `c`, as `rposition` finds it. */
  function LastIndexOf(s: string, c: char): (r: Option<nat>)
    ensures r.None? <==> c !in s
    ensures r.Some? ==> IsLastIndex(s, c, r.value)
  {
    if c !in s then None
    else
      LastIndexExists(s, c);
      var i: nat :| i < |s| && IsLastIndex(s, c, i);
      Some(i)
  }

  lemma LastIndexOfUnique(a: string, c: char, b: string)
    requires c !in b
    ensures LastIndexOf(a + [c] + b, c) == Some(|a|)
  {
    var s := a + [c] + b;
    assert s[|a|] == c;
    forall k | |a| < k < |s| ensures s[k] != c {
      assert s[k] == b[k - |a| - 1];
    }
  }

  function MakeUserid(name: string, realm: string): Userid
  {
    Userid(name + "@" + realm, |name|)
  }

  ghost predicate ValidUserid(u: Userid)
  {
    u.nameLen < |u.data| && u.data[u.nameLen] == '@' &&
    ValidName(u.data[..u.nameLen]) && ValidRealm(u.data[u.nameLen + 1..])
  }

  ghost predicate ValidAuthid(a: Authid)
  {
    ValidUserid(a.user) && (a.token.Some? ==> SafeId(a.token.value))
  }

  function ParseUserid(id: string): Result<Userid, IdError>
  {
    match LastIndexOf(id, '@')
    case None => Err(NotAUserId)
    case Some(nameLen) =>
      var name, realm := id[..nameLen], id[nameLen + 1..];
      if !ValidName(name) then Err(BadUserName)
      else if !ValidRealm(realm) then Err(BadRealm)
      else Ok(MakeUserid(name, realm))
  }

  function PrintAuthid(a: Authid): string
  {
    match a.token
    case Some(t) => a.user.data + "!" + t
    case None => a.user.data
  }

  /** Where the user id ends: at the last '!' behind the last '@', else at the end. */
  function RealmEnd(id: string, nameLen: nat): (e: nat)
    requires nameLen < |id|
    ensures e <= |id|
  {
    match LastIndexOf(id, '!')
    case None => |id|
    case Some(pos) => if pos < nameLen then |id| else pos
  }

  /** `FromStr for Authid` */
  function ParseAuthid(id: string): Result<Authid, IdError>
  {
    match LastIndexOf(id, '@')
    case None => Err(NotAUserId)
    case Some(nameLen) =>
      var end := RealmEnd(id, nameLen);
      if end == |id| - 1 then Err(EmptyToken)
      else
        match ParseUserid(id[..end])
        case Err(e) => Err(e)
        case Ok(user) =>
          if end < |id| then
            var token := id[end + 1..];
            if SafeId(token) then Ok(Authid(user, Some(token))) else Err(BadTokenName)
          else
            Ok(Authid(user, None))
  }

  /** `TryFrom<String> for Authid`: checks the token first, then truncates its buffer to the
      user id. It accepts what `FromStr` accepts, with the same result. */
  method TryFromString(text: string) returns (r: Result<Authid, IdError>)
    ensures r.Ok? <==> ParseAuthid(text).Ok?
    ensures r.Ok? ==> r == ParseAuthid(text)
  {
    var data := text;
    var at := LastIndexOf(data, '@');
    if at.None? { return Err(NotAUserId); }
    var end := RealmEnd(data, at.value);
    if end == |data| - 1 { return Err(EmptyToken); }
    var token: Option<string> := None;
    if end < |data| {
      if !SafeId(data[end + 1..]) { return Err(BadTokenName); }
      token := Some(data[end + 1..]);
    }
    data := data[..end];
    match ParseUserid(data)
    case Err(e) => return Err(e);
    case Ok(user) => return Ok(Authid(user, token));
  }

  lemma SafeIdFree(s: string, c: char)
    requires SafeId(s) && !SafeChar(c)
    ensures c !in s
  {
  }

  lemma ParseUseridOfParts(name: string, realm: string)
    requires ValidName(name) && ValidRealm(realm)
    ensures ParseUserid(name + "@" + realm) == Ok(MakeUserid(name, realm))
    ensures ValidUserid(MakeUserid(name, realm))
  {
    var s := name + "@" + realm;
    SafeIdFree(realm, '@');
    LastIndexOfUnique(name, '@', realm);
    assert s[..|name|] == name && s[|name| + 1..] == realm;
  }

  lemma UseridParts(u: Userid) returns (name: string, realm: string)
    requires ValidUserid(u)
    ensures ValidName(name) && ValidRealm(realm) && u == MakeUserid(name, realm)
  {
    name, realm := u.data[..u.nameLen], u.data[u.nameLen + 1..];
    assert u.data == name + "@" + realm;
  }

  lemma UseridRoundTrip(u: Userid)
    requires ValidUserid(u)
    ensures ParseUserid(u.data) == Ok(u)
  {
    var name, realm := UseridParts(u);
    ParseUseridOfParts(name, realm);
  }

  lemma UseridParsed(s: string)
    requires ParseUserid(s).Ok?
    ensures ParseUserid(s).value.data == s && ValidUserid(ParseUserid(s).value)
  {
    var n := LastIndexOf(s, '@').value;
    assert s == s[..n] + "@" + s[n + 1..];
    ParseUseridOfParts(s[..n], s[n + 1..]);
  }

  /** Two valid user ids with the same text are the same, so comparing a user id with a string
      decides identity. */
  lemma UseridEqualityIsTextEquality(u: Userid, v: Userid)
    requires ValidUserid(u) && ValidUserid(v)
    ensures u == v <==> u.data == v.data
  {
    UseridRoundTrip(u);
    UseridRoundTrip(v);
  }

  lemma PrintedToken(name: string, realm: string, token: string)
    requires ValidRealm(realm) && SafeId(token)
    ensures LastIndexOf(name + "@" + realm + "!" + token, '@') == Some(|name|)
    ensures LastIndexOf(name + "@" + realm + "!" + token, '!') == Some(|name| + 1 + |realm|)
  {
    SafeIdFree(realm, '@');
    SafeIdFree(token, '@');
    SafeIdFree(token, '!');
    LastIndexOfUnique(name + "@" + realm, '!', token);
    LastIndexOfUnique(name, '@', realm + "!" + token);
    assert name + "@" + realm + "!" + token == name + "@" + (realm + "!" + token);
  }

  lemma PrintedUser(name: string, realm: string)
    requires ValidRealm(realm)
    ensures LastIndexOf(name + "@" + realm, '@') == Some(|name|)
    ensures var bang := LastIndexOf(name + "@" + realm, '!'); bang.Some? ==> bang.value < |name|
  {
    SafeIdFree(realm, '@');
    SafeIdFree(realm, '!');
    LastIndexOfUnique(name, '@', realm);
    var s := name + "@" + realm;
    forall k | |name| < k < |s| ensures s[k] != '!' {
      assert s[k] == realm[k - |name| - 1];
    }
  }

  /** In the text of a valid id, the last '@' ends the user name and the realm ends the user
      id, whatever separators the user name contains. */
  lemma PrintedLayout(a: Authid)
    requires ValidAuthid(a)
    ensures LastIndexOf(PrintAuthid(a), '@') == Some(a.user.nameLen)
    ensures a.user.nameLen < |a.user.data|
    ensures RealmEnd(PrintAuthid(a), a.user.nameLen) == |a.user.data|
  {
    var name, realm := UseridParts(a.user);
    if a.token.Some? {
      PrintedToken(name, realm, a.token.value);
    } else {
      PrintedUser(name, realm);
    }
  }

  /** Parsing the text of a valid id gives it back, even when the user name contains '@' or '!'. */
  lemma ParsePrintAuthid(a: Authid)
    requires ValidAuthid(a)
    ensures ParseAuthid(PrintAuthid(a)) == Ok(a)
  {
    PrintedLayout(a);
    var s, n := PrintAuthid(a), |a.user.data|;
    assert s[..n] == a.user.data;
    UseridRoundTrip(a.user);
    if a.token.Some? {
      assert s[n + 1..] == a.token.value;
      assert |s| == n + 1 + |a.token.value|;
    }
  }

  /** Every accepted text is the text of the id it parses to, and that id is valid. */
  lemma PrintParseAuthid(s: string)
    requires ParseAuthid(s).Ok?
    ensures PrintAuthid(ParseAuthid(s).value) == s
    ensures ValidAuthid(ParseAuthid(s).value)
  {
    var nameLen := LastIndexOf(s, '@').value;
    var end := RealmEnd(s, nameLen);
    UseridParsed(s[..end]);
    if end < |s| {
      CutAt(s, end);
    } else {
      assert s[..end] == s;
    }
  }

  const ROOT: Authid := Authid(Userid("root@pam", 4), None)

  lemma RootValid()
    ensures ValidAuthid(ROOT)
  {
    assert "root@pam"[..4] == "root" && "root@pam"[5..] == "pam";
  }
}
