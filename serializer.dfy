/** `LightStruct::serialize`: a compact rendering of a tree with no
    whitespace, built by the `Visitor` overloads and `escapeString`. */
module Serializer {
  import opened Wrappers
  import opened Values
  import opened Lexical

  /** The order in which a `std::unordered_map` hands out its entries. The
      C++ standard leaves it unspecified, so the serializer is parameterised
      by it. */
  type KeyOrder = map<string, Value> -> seq<string>

  /** `ks` lists every key of `m` exactly once. */
  ghost predicate Enumerates(ks: seq<string>, m: map<string, Value>) {
    (forall i, j | 0 <= i < j < |ks| :: ks[i] != ks[j]) &&
    (forall k :: k in m <==> k in ks)
  }

  /** What the serializer delegates to the standard library: the key
      iteration order of an object, and `ostream << double` at precision 15. */
  datatype Format = Format(order: KeyOrder, formatDouble: Float -> string) {
    ghost predicate Valid() {
      forall m :: Enumerates(order(m), m)
    }
  }

  // ---------------------------------------------------------------------
  // escapeString
  // ---------------------------------------------------------------------

  /** One character of `escapeString`'s loop. */
  function EscapeChar(c: char): string {
    if c == '"' then ['\\', '"']
    else if c == '\\' then ['\\', '\\']
    else [c]
  }

  /** `escapeString(s)`: a backslash in front of every `"` and `\`, every
      other character copied unchanged. */
  function Escape(s: string): string {
    if s == [] then [] else EscapeChar(s[0]) + Escape(s[1..])
  }

  /** Escaping works character by character, so it distributes over
      concatenation. */
  lemma {:induction false} EscapeAppend(a: string, b: string)
    ensures Escape(a + b) == Escape(a) + Escape(b)
  {
    if a == [] {
      assert a + b == b;
    } else {
      assert (a + b)[1..] == a[1..] + b;
      EscapeAppend(a[1..], b);
    }
  }

  /** Escaping adds at most one backslash per character. */
  lemma {:induction false} EscapeLength(s: string)
    ensures |s| <= |Escape(s)| <= 2 * |s|
  {
    if s != [] {
      EscapeLength(s[1..]);
    }
  }

  /** A string holding neither '"' nor '\\' is written unchanged. */
  lemma {:induction false} EscapePlain(s: string)
    requires '"' !in s && '\\' !in s
    ensures Escape(s) == s
  {
    if s != [] {
      assert s[0] in s;
      assert forall c | c in s[1..] :: c in s;
      EscapePlain(s[1..]);
    }
  }

  /** The loop of `escapeString` (lines 161-167), appending to a buffer. */
  method EscapeString(s: string) returns (r: string)
    ensures r == Escape(s)
  {
    r := [];
    for i := 0 to |s|
      invariant r == Escape(s[..i])
    {
      assert s[..i + 1] == s[..i] + [s[i]];
      EscapeAppend(s[..i], [s[i]]);
      r := r + EscapeChar(s[i]);
    }
    assert s[..|s|] == s;
  }

  /** A string renders between double quotes, escaped. */
  function Quote(s: string): string {
    ['"'] + Escape(s) + ['"']
  }

  /** A quoted string opens and closes with a double quote, with at most
      twice the string's length between them. */
  lemma QuoteDelimits(s: string)
    ensures var q := Quote(s); 2 <= |q| && q[0] == '"' && q[|q| - 1] == '"' && |q| <= 2 * |s| + 2
  {
    EscapeLength(s);
  }

  // ---------------------------------------------------------------------
  // The visitor
  // ---------------------------------------------------------------------

  /** `serialize()`: `std::visit(Visitor{}, value_)`. */
  function Serialize(v: Value, fmt: Format): string
    requires fmt.Valid()
    decreases v, 1, 0
  {
    match v
    case Object(fields) => "{" + SerializeMembers(fields, fmt.order(fields), 0, fmt) + "}"
    case Array(elems) => "[" + SerializeElements(elems, 0, fmt) + "]"
    case Str(s) => Quote(s)
    case Bool(b) => if b then "true" else "false"
    case Int(i) => ToString(i)
    case Double(d) => fmt.formatDouble(d)
  }

  /** The array loop from element `i` on: a comma in front of every element
      but the first (`i > 0` stands for `!first`). */
  function SerializeElements(elems: seq<Value>, i: nat, fmt: Format): string
    requires fmt.Valid() && i <= |elems|
    decreases Array(elems), 0, |elems| - i
  {
    if i == |elems| then ""
    else (if i == 0 then "" else ",") + Serialize(elems[i], fmt) + SerializeElements(elems, i + 1, fmt)
  }

  /** The object loop from the `i`-th key of the iteration order on, each
      entry rendered as `"key":value`. */
  function SerializeMembers(fields: map<string, Value>, keys: seq<string>, i: nat, fmt: Format): string
    requires fmt.Valid() && i <= |keys| && forall k | k in keys :: k in fields
    decreases Object(fields), 0, |keys| - i
  {
    if i == |keys| then ""
    else
      (if i == 0 then "" else ",") + Member(keys[i], fields[keys[i]], fmt)
      + SerializeMembers(fields, keys, i + 1, fmt)
  }

  function Member(key: string, value: Value, fmt: Format): string
    requires fmt.Valid()
    decreases value, 1, 1
  {
    Quote(key) + ":" + Serialize(value, fmt)
  }

  // ---------------------------------------------------------------------
  // Comma-joined containers
  // ---------------------------------------------------------------------

  /** The parts separated by single commas, with no trailing comma. */
  function Join(parts: seq<string>): string {
    if |parts| == 0 then ""
    else if |parts| == 1 then parts[0]
    else parts[0] + "," + Join(parts[1..])
  }

  /** The renderings of `elems`, in order. */
  function Renderings(elems: seq<Value>, fmt: Format): (parts: seq<string>)
    requires fmt.Valid()
    ensures |parts| == |elems|
  {
    if elems == [] then [] else [Serialize(elems[0], fmt)] + Renderings(elems[1..], fmt)
  }

  /** The `"key":value` renderings of the entries `keys` lists, in order. */
  function MemberRenderings(fields: map<string, Value>, keys: seq<string>, fmt: Format): (parts: seq<string>)
    requires fmt.Valid() && forall k | k in keys :: k in fields
    ensures |parts| == |keys|
  {
    if keys == [] then [] else [Member(keys[0], fields[keys[0]], fmt)] + MemberRenderings(fields, keys[1..], fmt)
  }

  /** The `k`-th part is the rendering of the `k`-th element. */
  lemma {:induction false} RenderingsAt(elems: seq<Value>, fmt: Format)
    requires fmt.Valid()
    ensures forall k | 0 <= k < |elems| :: Renderings(elems, fmt)[k] == Serialize(elems[k], fmt)
  {
    if elems != [] {
      RenderingsAt(elems[1..], fmt);
      assert forall k | 1 <= k < |elems| :: elems[1..][k - 1] == elems[k];
    }
  }

  /** The `k`-th part is the entry of the `k`-th key. */
  lemma {:induction false} MemberRenderingsAt(fields: map<string, Value>, keys: seq<string>, fmt: Format)
    requires fmt.Valid() && forall k | k in keys :: k in fields
    ensures forall k | 0 <= k < |keys| :: MemberRenderings(fields, keys, fmt)[k] == Member(keys[k], fields[keys[k]], fmt)
  {
    if keys != [] {
      MemberRenderingsAt(fields, keys[1..], fmt);
      assert forall k | 1 <= k < |keys| :: keys[1..][k - 1] == keys[k];
    }
  }

  /** A rendered object, array or string opens and closes with its own
      delimiters. */
  predicate Delimited(v: Value, r: string) {
    match v
    case Object(_) => 2 <= |r| && r[0] == '{' && r[|r| - 1] == '}'
    case Array(_) => 2 <= |r| && r[0] == '[' && r[|r| - 1] == ']'
    case Str(_) => 2 <= |r| && r[0] == '"' && r[|r| - 1] == '"'
    case _ => true
  }

  /** What `serialize()` writes for each alternative: objects, arrays and
      strings between their own delimiters, and an `int` as text that
      `std::stoi` reads back as the same number. */
  lemma SerializeDelimits(v: Value, fmt: Format)
    requires fmt.Valid()
    ensures Delimited(v, Serialize(v, fmt))
    ensures v.Int? ==> Stoi(Serialize(v, fmt)) == Some(v.i)
  {
    match v
    case Object(fields) => ObjectIsJoined(fields, fmt);
    case Array(elems) => ArrayIsJoined(elems, fmt);
    case Int(i) => StoiToString(i);
    case _ =>
  }

  /** An entry renders as its quoted key, a ':' and its value. */
  lemma MemberShape(key: string, value: Value, fmt: Format)
    requires fmt.Valid()
    ensures Member(key, value, fmt) == Quote(key) + (":" + Serialize(value, fmt))
  {
  }

  /** An array renders as `[ + its elements' renderings joined by commas +
      `]`, in order. */
  lemma ArrayIsJoined(elems: seq<Value>, fmt: Format)
    requires fmt.Valid()
    ensures Serialize(Array(elems), fmt) == "[" + Join(Renderings(elems, fmt)) + "]"
  {
    ElementsAreJoined(elems, 0, fmt);
    assert elems[0..] == elems;
  }

  lemma {:induction false} ElementsAreJoined(elems: seq<Value>, i: nat, fmt: Format)
    requires fmt.Valid() && i <= |elems|
    ensures SerializeElements(elems, i, fmt) == (if 0 < i < |elems| then "," else "") + Join(Renderings(elems[i..], fmt))
    decreases |elems| - i
  {
    if i < |elems| {
      ElementsAreJoined(elems, i + 1, fmt);
      var head := Serialize(elems[i], fmt);
      var tail := Renderings(elems[i + 1..], fmt);
      assert Renderings(elems[i..], fmt) == [head] + tail by {
        assert elems[i..][1..] == elems[i + 1..];
      }
      JoinCons(head, tail);
      var sep := if i == 0 then "" else ",";
      assert SerializeElements(elems, i, fmt) == sep + head + SerializeElements(elems, i + 1, fmt);
      SeparatedStep(sep, head, SerializeElements(elems, i + 1, fmt), Join(tail), i + 1 < |elems|);
    }
  }

  /** One step of a loop that writes a separator before every part but the
      first. */
  lemma SeparatedStep(sep: string, head: string, rest: string, joined: string, more: bool)
    requires rest == (if more then "," else "") + joined
    requires !more ==> joined == ""
    ensures sep + head + rest == sep + (if more then head + "," + joined else head)
  {
    if more {
      assert sep + head + ("," + joined) == sep + (head + "," + joined);
    } else {
      assert rest == "";
    }
  }

  /** Joining a first part onto the rest. */
  lemma JoinCons(head: string, tail: seq<string>)
    ensures Join([head] + tail) == if tail == [] then head else head + "," + Join(tail)
  {
    assert ([head] + tail)[1..] == tail;
  }

  /** An object renders as `{` + its `"key":value` entries, in the map's
      iteration order, joined by commas + `}`. */
  lemma ObjectIsJoined(fields: map<string, Value>, fmt: Format)
    requires fmt.Valid()
    ensures Enumerates(fmt.order(fields), fields)
    ensures Serialize(Object(fields), fmt) == "{" + Join(MemberRenderings(fields, fmt.order(fields), fmt)) + "}"
  {
    var keys := fmt.order(fields);
    assert Enumerates(keys, fields);
    MembersAreJoined(fields, keys, 0, fmt);
    assert keys[0..] == keys;
  }

  lemma {:induction false} MembersAreJoined(fields: map<string, Value>, keys: seq<string>, i: nat, fmt: Format)
    requires fmt.Valid() && i <= |keys| && forall k | k in keys :: k in fields
    ensures SerializeMembers(fields, keys, i, fmt) == (if 0 < i < |keys| then "," else "") + Join(MemberRenderings(fields, keys[i..], fmt))
    decreases |keys| - i
  {
    if i < |keys| {
      MembersAreJoined(fields, keys, i + 1, fmt);
      var head := Member(keys[i], fields[keys[i]], fmt);
      var tail := MemberRenderings(fields, keys[i + 1..], fmt);
      assert MemberRenderings(fields, keys[i..], fmt) == [head] + tail by {
        assert keys[i..][0] == keys[i] && keys[i..][1..] == keys[i + 1..];
      }
      JoinCons(head, tail);
      var sep := if i == 0 then "" else ",";
      assert SerializeMembers(fields, keys, i, fmt) == sep + head + SerializeMembers(fields, keys, i + 1, fmt);
      SeparatedStep(sep, head, SerializeMembers(fields, keys, i + 1, fmt), Join(tail), i + 1 < |keys|);
    }
  }
}
