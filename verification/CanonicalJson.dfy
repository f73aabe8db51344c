/** The canonical JSON stream behind a key thumbprint (section 3 of RFC 7638): no white space,
    object members in the order of their names. Texts are sequences of code points; a number is
    the token it prints as. */
module CanonicalJson {
  import opened Ordering
  import Text

  predicate NumberChar(c: char)
  {
    '0' <= c <= '9' || c == '-' || c == '+' || c == '.' || c == 'e' || c == 'E'
  }

  predicate IsNumber(t: string)
  {
    t != [] && ('0' <= t[0] <= '9' || t[0] == '-') && forall i :: 0 <= i < |t| ==> NumberChar(t[i])
  }

  type NumberToken = t: string | IsNumber(t) witness "0"

  datatype Value =
    | Null
    | Bool(b: bool)
    | Number(token: NumberToken)
    | String(s: string)
    | Array(items: seq<Value>)
    | Object(members: map<string, Value>)

  // ---------------------------------------------------------------- the stream

  function HexDigit(n: nat): char
    requires n < 16
  {
    if n < 10 then '0' + n as char else 'a' + (n - 10) as char
  }

  /** One character inside a JSON string. */
  function Escape(c: char): string
  {
    if c == '"' then "\\\"" else if c == '\\' then "\\\\"
    else if c == '\n' then "\\n" else if c == '\r' then "\\r" else if c == '\t' then "\\t"
    else if c as int == 8 then "\\b" else if c as int == 12 then "\\f"
    else if c as int < 32 then "\\u00" + [HexDigit(c as int / 16), HexDigit(c as int % 16)]
    else [c]
  }

  /** The rest of a JSON string, up to and including the closing quote. */
  function QuotedTail(s: string): string
  {
    if s == [] then "\"" else Escape(s[0]) + QuotedTail(s[1..])
  }

  function Quoted(s: string): string
  {
    "\"" + QuotedTail(s)
  }

  ghost function Canonical(v: Value): string
    decreases v, 2, 0
  {
    match v
    case Null => "null"
    case Bool(b) => if b then "true" else "false"
    case Number(t) => t
    case String(s) => Quoted(s)
    case Array(items) => "[" + (if items == [] then "]" else Canonical(items[0]) + ItemsTail(v, 1))
    case Object(m) => "{" + Members(v, Sorted(m.Keys))
  }

  /** The items from `i` on, each after a comma, and the closing bracket. */
  ghost function ItemsTail(v: Value, i: nat): string
    requires v.Array? && i <= |v.items|
    decreases v, 1, |v.items| - i
  {
    if i == |v.items| then "]" else "," + Canonical(v.items[i]) + ItemsTail(v, i + 1)
  }

  ghost function Member(v: Value, key: string): string
    requires v.Object? && key in v.members
    decreases v, 0, 0
  {
    Quoted(key) + ":" + Canonical(v.members[key])
  }

  ghost predicate Names(v: Value, keys: seq<string>)
  {
    v.Object? && forall i :: 0 <= i < |keys| ==> keys[i] in v.members
  }

  /** The members named by `keys` from `i` on, each after a comma, and the closing brace. */
  ghost function MembersTail(v: Value, keys: seq<string>, i: nat): string
    requires Names(v, keys) && i <= |keys|
    decreases v, 1, |keys| - i
  {
    if i == |keys| then "}" else "," + Member(v, keys[i]) + MembersTail(v, keys, i + 1)
  }

  /** The members named by `keys`, separated by commas, and the closing brace. */
  ghost function Members(v: Value, keys: seq<string>): string
    requires Names(v, keys)
    decreases v, 1, |keys| + 1
  {
    if keys == [] then "}" else Member(v, keys[0]) + MembersTail(v, keys, 1)
  }

  // ---------------------------------------------------------------- hashing

  class Hasher {
    var data: string

    constructor ()
      ensures data == ""
    {
      data := "";
    }

    method Update(s: string)
      modifies this
      ensures data == old(data) + s
    {
      data := data + s;
    }
  }

  /** The keys of an object, in whatever order the map yields them. */
  method Keys(m: map<string, Value>) returns (keys: seq<string>)
    ensures Elements(keys) == m.Keys
  {
    var rest := m.Keys;
    keys := [];
    while rest != {}
      invariant rest <= m.Keys && Elements(keys) == m.Keys - rest
      decreases rest
    {
      var k :| k in rest;
      rest := rest - {k};
      assert Elements(keys + [k]) == Elements(keys) + {k};
      keys := keys + [k];
    }
  }

  /** Feeds a value to the hasher. The stream does not depend on the order of `Keys`. */
  method ToHashCanonical(v: Value, output: Hasher)
    modifies output
    ensures output.data == old(output.data) + Canonical(v)
    decreases v, 2
  {
    match v
    case Null => output.Update("null");
    case Bool(b) => output.Update(if b then "true" else "false");
    case Number(t) => output.Update(t);
    case String(s) => output.Update(Quoted(s));
    case Array(_) => HashArray(v, output);
    case Object(_) => HashObject(v, output);
  }

  method HashArray(v: Value, output: Hasher)
    requires v.Array?
    modifies output
    ensures output.data == old(output.data) + Canonical(v)
    decreases v, 1
  {
    output.Update("[");
    if |v.items| > 0 {
      ToHashCanonical(v.items[0], output);
      ghost var start := output.data;
      var i := 1;
      while i < |v.items|
        invariant 1 <= i <= |v.items|
        invariant output.data + ItemsTail(v, i) == start + ItemsTail(v, 1)
      {
        ghost var before := output.data;
        output.Update(",");
        ToHashCanonical(v.items[i], output);
        Step(before, ",", Canonical(v.items[i]), ItemsTail(v, i + 1));
        i := i + 1;
      }
      output.Update("]");
      Text.Regroup(old(output.data), "[", Canonical(v.items[0]), ItemsTail(v, 1));
    } else {
      output.Update("]");
    }
    Text.AppendAssoc(old(output.data), "[", Canonical(v)[1..]);
    assert Canonical(v) == "[" + Canonical(v)[1..];
  }

  lemma Step(a: string, b: string, c: string, d: string)
    ensures a + (b + c + d) == a + b + c + d
  {
  }

  method HashMember(v: Value, key: string, output: Hasher)
    requires v.Object? && key in v.members
    modifies output
    ensures output.data == old(output.data) + Member(v, key)
    decreases v, 0
  {
    output.Update(Quoted(key));
    output.Update(":");
    ToHashCanonical(v.members[key], output);
    Step(old(output.data), Quoted(key), ":", Canonical(v.members[key]));
  }

  method HashMembers(v: Value, keys: seq<string>, output: Hasher)
    requires Names(v, keys)
    modifies output
    ensures output.data == old(output.data) + Members(v, keys)
    decreases v, 1, 0
  {
    if |keys| > 0 {
      HashMember(v, keys[0], output);
      ghost var start := output.data;
      var i := 1;
      while i < |keys|
        invariant 1 <= i <= |keys|
        invariant output.data + MembersTail(v, keys, i) == start + MembersTail(v, keys, 1)
      {
        ghost var before := output.data;
        output.Update(",");
        HashMember(v, keys[i], output);
        Step(before, ",", Member(v, keys[i]), MembersTail(v, keys, i + 1));
        i := i + 1;
      }
      Text.AppendAssoc(old(output.data), Member(v, keys[0]), MembersTail(v, keys, 1));
    }
    output.Update("}");
  }

  method HashObject(v: Value, output: Hasher)
    requires v.Object?
    modifies output
    ensures output.data == old(output.data) + Canonical(v)
    decreases v, 1, 1
  {
    output.Update("{");
    var found := Keys(v.members);
    var keys := Sort(found);
    assert forall i :: 0 <= i < |keys| ==> keys[i] in keys;
    HashMembers(v, keys, output);
    Text.AppendAssoc(old(output.data), "{", Members(v, keys));
  }
}
