/** What `serialize()` writes, `Parser::parse()` reads back: for every
    object tree without `double`s (whose text form belongs to the platform),
    parsing the serialization gives the tree again. The proof follows the
    grammar: each lemma states that a routine, started where a rendering
    stands in the text, returns the rendered value and stops right after it. */
module RoundTrip {
  import opened Wrappers
  import opened Values
  import opened Lexical
  import opened Serializer
  import opened Grammar

  /** `s` stands in `text` from position `pos` on, character by character. */
  predicate IsAt(text: string, pos: nat, s: string)
    decreases |s|
  {
    if s == [] then pos <= |text|
    else pos < |text| && text[pos] == s[0] && IsAt(text, pos + 1, s[1..])
  }

  /** A literal token ending at `end` is not extended by what follows. */
  predicate TokenEndsAt(text: string, end: nat) {
    end >= |text| || !IsLiteralChar(text[end])
  }

  lemma {:induction false} IsAtSplit(text: string, pos: nat, a: string, b: string)
    requires IsAt(text, pos, a + b)
    ensures IsAt(text, pos, a) && IsAt(text, pos + |a|, b)
    decreases |a|
  {
    if a == [] {
      assert a + b == b;
    } else {
      assert (a + b)[1..] == a[1..] + b;
      IsAtSplit(text, pos + 1, a[1..], b);
    }
  }

  lemma {:induction false} IsAtChar(text: string, pos: nat, s: string, i: nat)
    requires IsAt(text, pos, s) && i < |s|
    ensures pos + i < |text| && text[pos + i] == s[i]
    decreases i
  {
    if 0 < i {
      IsAtChar(text, pos + 1, s[1..], i - 1);
    }
  }

  lemma {:induction false} IsAtSlice(text: string, pos: nat, s: string)
    requires IsAt(text, pos, s)
    ensures pos + |s| <= |text| && text[pos..pos + |s|] == s
    decreases |s|
  {
    if s != [] {
      IsAtSlice(text, pos + 1, s[1..]);
      assert text[pos..pos + |s|] == [text[pos]] + text[pos + 1..pos + |s|];
    }
  }

  lemma {:induction false} IsAtSuffix(text: string, pos: nat)
    requires pos <= |text|
    ensures IsAt(text, pos, text[pos..])
    decreases |text| - pos
  {
    if pos < |text| {
      assert text[pos..][1..] == text[pos + 1..];
      IsAtSuffix(text, pos + 1);
    }
  }

  // ---------------------------------------------------------------------
  // Strings
  // ---------------------------------------------------------------------

  /** The string loop reads an escaped rendering back to the characters it
      came from and stops after the closing quote. */
  lemma {:induction false} CharsRoundTrip(text: string, pos: nat, acc: string, s: string)
    requires IsAt(text, pos, Escape(s) + ['"'])
    ensures ParseChars(text, pos, acc) == Success(Parsed(acc + s, pos + |Escape(s)| + 1))
    decreases |s|
  {
    if s == [] {
      IsAtChar(text, pos, Escape(s) + ['"'], 0);
      assert acc + s == acc;
    } else {
      var c := s[0];
      assert Escape(s) + ['"'] == EscapeChar(c) + (Escape(s[1..]) + ['"']);
      IsAtSplit(text, pos, EscapeChar(c), Escape(s[1..]) + ['"']);
      IsAtChar(text, pos, EscapeChar(c), 0);
      if c == '"' || c == '\\' {
        IsAtChar(text, pos, EscapeChar(c), 1);
      }
      CharsRoundTrip(text, pos + |EscapeChar(c)|, acc + [c], s[1..]);
      assert acc + [c] + s[1..] == acc + s;
    }
  }

  /** `parseString` reads back `Quote(s)`. */
  lemma StringRoundTrip(text: string, pos: nat, s: string)
    requires IsAt(text, pos, Quote(s))
    ensures ParseString(text, pos) == Success(Parsed(s, pos + |Quote(s)|))
  {
    assert Quote(s) == ['"'] + (Escape(s) + ['"']);
    IsAtSplit(text, pos, ['"'], Escape(s) + ['"']);
    IsAtChar(text, pos, ['"'], 0);
    CharsRoundTrip(text, pos + 1, [], s);
    assert [] + s == s;
  }

  // ---------------------------------------------------------------------
  // Literals
  // ---------------------------------------------------------------------

  /** `to_string` writes a '-' or a digit first, and only characters that
      `parseLiteral` takes into its token, none of them a '.'. */
  lemma ToStringChars(i: Int32)
    ensures 0 < |ToString(i)|
    ensures IsDigit(ToString(i)[0]) || ToString(i)[0] == '-'
    ensures forall j | 0 <= j < |ToString(i)| :: IsLiteralChar(ToString(i)[j]) && ToString(i)[j] != '.'
  {
    ToStringSign(i);
  }

  lemma LiteralEndAt(text: string, pos: nat, end: nat)
    requires pos <= end <= |text|
    requires forall j | pos <= j < end :: IsLiteralChar(text[j])
    requires TokenEndsAt(text, end)
    ensures LiteralEnd(text, pos) == end
    decreases end - pos
  {
    if pos < end {
      LiteralEndAt(text, pos + 1, end);
    }
  }

  /** `parseLiteral` reads back a rendered boolean or integer. */
  lemma LiteralRoundTrip(v: Value, fmt: Format, stod: Stod, text: string, pos: nat)
    requires fmt.Valid() && (v.Bool? || v.Int?)
    requires IsAt(text, pos, Serialize(v, fmt)) && TokenEndsAt(text, pos + |Serialize(v, fmt)|)
    ensures ParseLiteral(text, pos, stod) == Success(Parsed(v, pos + |Serialize(v, fmt)|))
  {
    match v
    case Bool(b) =>
      assert Serialize(v, fmt) == if b then "true" else "false";
      BoolRoundTrip(b, stod, text, pos);
    case Int(i) =>
      assert Serialize(v, fmt) == ToString(i);
      IntRoundTrip(i, stod, text, pos);
  }

  lemma BoolRoundTrip(b: bool, stod: Stod, text: string, pos: nat)
    requires var s := if b then "true" else "false";
             IsAt(text, pos, s) && TokenEndsAt(text, pos + |s|)
    ensures var s := if b then "true" else "false";
            ParseLiteral(text, pos, stod) == Success(Parsed(Bool(b), pos + |s|))
  {
    var s := if b then "true" else "false";
    TokenAt(text, pos, s);
  }

  lemma IntRoundTrip(i: Int32, stod: Stod, text: string, pos: nat)
    requires IsAt(text, pos, ToString(i)) && TokenEndsAt(text, pos + |ToString(i)|)
    ensures ParseLiteral(text, pos, stod) == Success(Parsed(Int(i), pos + |ToString(i)|))
  {
    var s := ToString(i);
    ToStringChars(i);
    TokenAt(text, pos, s);
    assert s[0] != 't' && s[0] != 'f';
    assert '.' !in s;
    StoiToString(i);
  }

  /** A token of literal characters, not followed by one, is what the
      literal scan takes. */
  lemma TokenAt(text: string, pos: nat, s: string)
    requires IsAt(text, pos, s) && TokenEndsAt(text, pos + |s|)
    requires forall j | 0 <= j < |s| :: IsLiteralChar(s[j])
    ensures LiteralEnd(text, pos) == pos + |s| && text[pos..pos + |s|] == s
  {
    IsAtSlice(text, pos, s);
    forall j | pos <= j < pos + |s|
      ensures IsLiteralChar(text[j])
    {
      IsAtChar(text, pos, s, j - pos);
    }
    LiteralEndAt(text, pos, pos + |s|);
  }

  // ---------------------------------------------------------------------
  // Values, arrays and objects
  // ---------------------------------------------------------------------

  /** A rendering without `double`s starts with a character that neither
      `skipIgnored` skips nor a loop takes for a closing bracket or brace. */
  lemma RenderingStart(v: Value, fmt: Format)
    requires fmt.Valid() && !v.Double?
    ensures 0 < |Serialize(v, fmt)|
    ensures var c := Serialize(v, fmt)[0];
            && !IsSpace(c) && c != '/' && c != ']' && c != '}'
            && (c == '"' <==> v.Str?) && (c == '{' <==> v.Object?) && (c == '[' <==> v.Array?)
  {
    if v.Int? {
      ToStringChars(v.i);
    }
  }

  /** The entries of `fields` under the keys `ks`. */
  function Entries(fields: map<string, Value>, ks: seq<string>): (m: map<string, Value>)
    ensures forall k | k in m :: k in ks && k in fields && m[k] == fields[k]
  {
    map k | k in ks && k in fields :: fields[k]
  }

  // ---------------------------------------------------------------------
  // Single steps of the grammar
  // ---------------------------------------------------------------------

  lemma ValueOfString(text: string, pos: nat, stod: Stod, s: string, next: nat)
    requires pos < |text| && text[pos] == '"'
    requires ParseString(text, pos) == Success(Parsed(s, next))
    ensures ParseValue(text, pos, stod) == Success(Parsed(Str(s), next))
  {
  }

  lemma ValueOfObject(text: string, pos: nat, stod: Stod, fields: map<string, Value>, next: nat)
    requires pos < |text| && text[pos] == '{'
    requires ParseObject(text, pos, stod) == Success(Parsed(fields, next))
    ensures ParseValue(text, pos, stod) == Success(Parsed(Object(fields), next))
  {
  }

  lemma ValueOfArray(text: string, pos: nat, stod: Stod, elems: seq<Value>, next: nat)
    requires pos < |text| && text[pos] == '['
    requires ParseArray(text, pos, stod) == Success(Parsed(elems, next))
    ensures ParseValue(text, pos, stod) == Success(Parsed(Array(elems), next))
  {
  }

  lemma ValueOfLiteral(text: string, pos: nat, stod: Stod)
    requires pos < |text| && text[pos] != '"' && text[pos] != '{' && text[pos] != '['
    ensures ParseValue(text, pos, stod) == ParseLiteral(text, pos, stod)
  {
  }

  // ---------------------------------------------------------------------
  // Layout of comma-joined parts
  // ---------------------------------------------------------------------

  /** A rendering that `skipIgnored` leaves where it starts. */
  predicate Unskippable(s: string) {
    0 < |s| && !IsSpace(s[0]) && s[0] != '/'
  }

  /** `parts[i..]` joined: the first part, then a ',' before the rest. */
  lemma JoinStep(parts: seq<string>, i: nat)
    requires i < |parts|
    ensures i + 1 < |parts| ==> Join(parts[i..]) == parts[i] + ("," + Join(parts[i + 1..]))
    ensures i + 1 == |parts| ==> Join(parts[i..]) == parts[i]
  {
    assert parts[i..][0] == parts[i];
    assert parts[i..][1..] == parts[i + 1..];
  }

  /** A rendering between an opening and a closing character. */
  lemma Bracketed(text: string, pos: nat, open: char, body: string, close: char)
    requires IsAt(text, pos, [open] + body + [close])
    ensures pos < |text| && text[pos] == open && IsAt(text, pos + 1, body)
    ensures pos + 1 + |body| < |text| && text[pos + 1 + |body|] == close
  {
    assert [open] + body + [close] == [open] + (body + [close]);
    IsAtSplit(text, pos, [open], body + [close]);
    IsAtChar(text, pos, [open], 0);
    IsAtSplit(text, pos + 1, body, [close]);
    IsAtChar(text, pos + 1 + |body|, [close], 0);
  }

  /** A ',' followed by something `skipIgnored` does not move over. */
  lemma CommaThen(text: string, at: nat, rest: string)
    requires IsAt(text, at, "," + rest) && Unskippable(rest)
    ensures at < |text| && text[at] == ','
    ensures SkipIgnored(text, at + 1) == at + 1
    ensures IsAt(text, at + 1, rest)
  {
    IsAtSplit(text, at, ",", rest);
    IsAtChar(text, at, ",", 0);
    IsAtChar(text, at + 1, rest, 0);
    SkipNothing(text, at + 1);
  }

  /** `parseValue` reads `rendering` back as `v` wherever it stands in
      `text` with no literal character right after it. */
  ghost predicate Reads(text: string, stod: Stod, rendering: string, v: Value) {
    forall p: nat {:trigger IsAt(text, p, rendering)} | IsAt(text, p, rendering) && TokenEndsAt(text, p + |rendering|) ::
      ParseValue(text, p, stod) == Success(Parsed(v, p + |rendering|))
  }

  /** `Reads` at one position. */
  lemma ReadAt(text: string, stod: Stod, rendering: string, v: Value, p: nat)
    requires Reads(text, stod, rendering, v)
    requires IsAt(text, p, rendering) && TokenEndsAt(text, p + |rendering|)
    ensures ParseValue(text, p, stod) == Success(Parsed(v, p + |rendering|))
  {
  }

  /** Each of `parts` is read back as the value at its index. */
  ghost predicate ReadsBack(text: string, stod: Stod, parts: seq<string>, values: seq<Value>) {
    |parts| == |values| && forall k | 0 <= k < |parts| :: Reads(text, stod, parts[k], values[k])
  }

  // ---------------------------------------------------------------------
  // The array and object loops over comma-joined parts
  // ---------------------------------------------------------------------

  /** The array loop, entered on `parts[i]` (after the '[' or a ','), with
      every part read back as the element at its index, appends the
      elements from `i` on and stops after the ']' at `end`. */
  lemma {:induction false} ElementsLoop(text: string, stod: Stod, elems: seq<Value>, parts: seq<string>, i: nat, pos: nat, end: nat)
    requires |parts| == |elems| && i < |parts|
    requires forall k | 0 <= k < |parts| :: Unskippable(parts[k]) && parts[k][0] != ']'
    requires ReadsBack(text, stod, parts, elems)
    requires IsAt(text, pos, Join(parts[i..])) && end == pos + |Join(parts[i..])|
    requires end < |text| && text[end] == ']'
    ensures ParseElements(text, pos, elems[..i], stod) == Success(Parsed(elems, end + 1))
    decreases |parts| - i
  {
    if i + 1 < |parts| {
      var next := ElementThenComma(text, stod, elems, parts, i, pos, end);
      ElementsLoop(text, stod, elems, parts, i + 1, next, end);
    } else {
      LastElement(text, stod, elems, parts, i, pos, end);
    }
  }

  /** An element of the array loop followed by a ',': the loop goes on at
      `next`, on the following part, with the element appended. */
  lemma ElementThenComma(text: string, stod: Stod, elems: seq<Value>, parts: seq<string>, i: nat, pos: nat, end: nat)
    returns (next: nat)
    requires |parts| == |elems| && i + 1 < |parts|
    requires Unskippable(parts[i]) && parts[i][0] != ']' && Unskippable(parts[i + 1])
    requires Reads(text, stod, parts[i], elems[i])
    requires IsAt(text, pos, Join(parts[i..])) && end == pos + |Join(parts[i..])|
    ensures next == pos + |parts[i]| + 1
    ensures IsAt(text, next, Join(parts[i + 1..])) && end == next + |Join(parts[i + 1..])|
    ensures ParseElements(text, pos, elems[..i], stod) == ParseElements(text, next, elems[..i + 1], stod)
  {
    next := pos + |parts[i]| + 1;
    CommaLayout(text, parts, i, pos, end);
    ElementAt(text, stod, parts[i], elems[i], pos, elems[..i]);
    AfterElement(text, pos + |parts[i]|, elems[..i] + [elems[i]], stod);
    assert elems[..i] + [elems[i]] == elems[..i + 1];
  }

  /** A part that is not the last one stands at `pos`, followed by a ','
      and the rest, joined, where `skipIgnored` does not move. */
  lemma CommaLayout(text: string, parts: seq<string>, i: nat, pos: nat, end: nat)
    requires i + 1 < |parts| && Unskippable(parts[i + 1])
    requires IsAt(text, pos, Join(parts[i..])) && end == pos + |Join(parts[i..])|
    ensures IsAt(text, pos, parts[i])
    ensures pos + |parts[i]| < |text| && text[pos + |parts[i]|] == ','
    ensures SkipIgnored(text, pos + |parts[i]| + 1) == pos + |parts[i]| + 1
    ensures IsAt(text, pos + |parts[i]| + 1, Join(parts[i + 1..]))
    ensures end == pos + |parts[i]| + 1 + |Join(parts[i + 1..])|
  {
    var rest := Join(parts[i + 1..]);
    JoinStep(parts, i);
    JoinStep(parts, i + 1);
    IsAtSplit(text, pos, parts[i], "," + rest);
    CommaThen(text, pos + |parts[i]|, rest);
  }

  /** The last element of the array loop, followed by the closing ']'. */
  lemma LastElement(text: string, stod: Stod, elems: seq<Value>, parts: seq<string>, i: nat, pos: nat, end: nat)
    requires |parts| == |elems| && i + 1 == |parts|
    requires Unskippable(parts[i]) && parts[i][0] != ']'
    requires Reads(text, stod, parts[i], elems[i])
    requires IsAt(text, pos, Join(parts[i..])) && end == pos + |Join(parts[i..])|
    requires end < |text| && text[end] == ']'
    ensures ParseElements(text, pos, elems[..i], stod) == Success(Parsed(elems, end + 1))
  {
    JoinStep(parts, i);
    ElementAt(text, stod, parts[i], elems[i], pos, elems[..i]);
    AfterElement(text, end, elems[..i] + [elems[i]], stod);
    assert elems[..i] + [elems[i]] == elems;
  }

  /** One iteration of the array loop over a rendering that is read back,
      followed by a ',' or the closing ']'. */
  lemma ElementAt(text: string, stod: Stod, part: string, v: Value, pos: nat, acc: seq<Value>)
    requires Reads(text, stod, part, v) && Unskippable(part) && part[0] != ']'
    requires IsAt(text, pos, part)
    requires pos + |part| < |text| && (text[pos + |part|] == ',' || text[pos + |part|] == ']')
    ensures ParseElements(text, pos, acc, stod) == ElementsAfterValue(text, pos + |part|, acc + [v], stod)
  {
    IsAtChar(text, pos, part, 0);
    ReadAt(text, stod, part, v, pos);
    ElementStep(text, pos, acc, stod, v, pos + |part|);
  }

  /** `acc` after storing `values[k]` under `keys[k]` for `k` from `i` on,
      in order, as `obj[key] = value` does. */
  function StoreFrom(acc: map<string, Value>, keys: seq<string>, values: seq<Value>, i: nat): map<string, Value>
    requires |keys| == |values| && i <= |keys|
    decreases |keys| - i
  {
    if i == |keys| then acc else StoreFrom(acc[keys[i] := values[i]], keys, values, i + 1)
  }

  /** The object loop, entered on `parts[i]` (after the '{' or a ','),
      where each part is a quoted key, a ':' and a value rendering read back
      as the value at its index, stores the entries from `i` on and stops
      after the '}' at `end`. */
  lemma {:induction false} MembersLoop(text: string, stod: Stod, keys: seq<string>, values: seq<Value>, parts: seq<string>, renderings: seq<string>,
                                       i: nat, pos: nat, end: nat, acc: map<string, Value>)
    requires |keys| == |values| == |parts| == |renderings| && i < |parts|
    requires forall k | 0 <= k < |parts| :: parts[k] == Quote(keys[k]) + (":" + renderings[k]) && Unskippable(renderings[k])
    requires ReadsBack(text, stod, renderings, values)
    requires IsAt(text, pos, Join(parts[i..])) && end == pos + |Join(parts[i..])|
    requires end < |text| && text[end] == '}'
    ensures ParseMembers(text, pos, acc, stod) == Success(Parsed(StoreFrom(acc, keys, values, i), end + 1))
    decreases |parts| - i
  {
    var stored := acc[keys[i] := values[i]];
    assert StoreFrom(acc, keys, values, i) == StoreFrom(stored, keys, values, i + 1);
    if i + 1 < |parts| {
      var next := MemberThenComma(text, stod, keys, values, parts, renderings, i, pos, end, acc);
      MembersLoop(text, stod, keys, values, parts, renderings, i + 1, next, end, stored);
    } else {
      LastMember(text, stod, keys, values, parts, renderings, i, pos, end, acc);
    }
  }

  /** An entry of the object loop followed by a ',': the loop goes on at
      `next`, on the following part, with the entry stored. */
  lemma MemberThenComma(text: string, stod: Stod, keys: seq<string>, values: seq<Value>, parts: seq<string>, renderings: seq<string>,
                        i: nat, pos: nat, end: nat, acc: map<string, Value>)
    returns (next: nat)
    requires |keys| == |values| == |parts| == |renderings| && i + 1 < |parts|
    requires parts[i] == Quote(keys[i]) + (":" + renderings[i]) && Unskippable(renderings[i])
    requires parts[i + 1] == Quote(keys[i + 1]) + (":" + renderings[i + 1])
    requires Reads(text, stod, renderings[i], values[i])
    requires IsAt(text, pos, Join(parts[i..])) && end == pos + |Join(parts[i..])|
    ensures IsAt(text, next, Join(parts[i + 1..])) && end == next + |Join(parts[i + 1..])|
    ensures ParseMembers(text, pos, acc, stod) == ParseMembers(text, next, acc[keys[i] := values[i]], stod)
  {
    next := pos + |parts[i]| + 1;
    assert Unskippable(parts[i + 1]) by {
      assert parts[i + 1][0] == Quote(keys[i + 1])[0] == '"';
    }
    CommaLayout(text, parts, i, pos, end);
    EntryParts(text, stod, keys[i], renderings[i], values[i], parts[i], pos);
    EntryStep(text, pos, acc, stod, keys[i], pos + |Quote(keys[i])|, values[i], pos + |parts[i]|);
    AfterEntry(text, pos + |parts[i]|, acc[keys[i] := values[i]], stod);
  }

  /** The last entry of the object loop, followed by the closing '}'. */
  lemma LastMember(text: string, stod: Stod, keys: seq<string>, values: seq<Value>, parts: seq<string>, renderings: seq<string>,
                   i: nat, pos: nat, end: nat, acc: map<string, Value>)
    requires |keys| == |values| == |parts| == |renderings| && i + 1 == |parts|
    requires parts[i] == Quote(keys[i]) + (":" + renderings[i]) && Unskippable(renderings[i])
    requires Reads(text, stod, renderings[i], values[i])
    requires IsAt(text, pos, Join(parts[i..])) && end == pos + |Join(parts[i..])|
    requires end < |text| && text[end] == '}'
    ensures ParseMembers(text, pos, acc, stod) == Success(Parsed(acc[keys[i] := values[i]], end + 1))
  {
    JoinStep(parts, i);
    EntryParts(text, stod, keys[i], renderings[i], values[i], parts[i], pos);
    EntryStep(text, pos, acc, stod, keys[i], pos + |Quote(keys[i])|, values[i], pos + |parts[i]|);
    AfterEntry(text, end, acc[keys[i] := values[i]], stod);
  }

  /** What the object loop reads from a rendered entry: the key, the ':'
      right after it, and the value, which ends where the entry ends. */
  lemma EntryParts(text: string, stod: Stod, key: string, rendering: string, value: Value, part: string, pos: nat)
    requires part == Quote(key) + (":" + rendering) && Unskippable(rendering)
    requires IsAt(text, pos, part) && Reads(text, stod, rendering, value)
    requires pos + |part| < |text| && (text[pos + |part|] == ',' || text[pos + |part|] == '}')
    ensures var colon := pos + |Quote(key)|;
            && pos < |text| && text[pos] == '"'
            && ParseString(text, pos) == Success(Parsed(key, colon))
            && colon < |text| && text[colon] == ':'
            && ParseValue(text, SkipIgnored(text, colon + 1), stod) == Success(Parsed(value, pos + |part|))
  {
    var colon := pos + |Quote(key)|;
    EntryLayout(text, key, rendering, part, pos);
    StringRoundTrip(text, pos, key);
    assert TokenEndsAt(text, colon + 1 + |rendering|);
    ReadAt(text, stod, rendering, value, colon + 1);
  }

  /** A quoted key, a ':' and a rendering, with nothing to skip before the
      rendering. */
  lemma EntryLayout(text: string, key: string, rendering: string, part: string, pos: nat)
    requires part == Quote(key) + (":" + rendering) && Unskippable(rendering)
    requires IsAt(text, pos, part)
    ensures pos < |text| && text[pos] == '"' && IsAt(text, pos, Quote(key))
    ensures pos + |Quote(key)| < |text| && text[pos + |Quote(key)|] == ':'
    ensures SkipIgnored(text, pos + |Quote(key)| + 1) == pos + |Quote(key)| + 1
    ensures IsAt(text, pos + |Quote(key)| + 1, rendering)
    ensures pos + |part| == pos + |Quote(key)| + 1 + |rendering|
  {
    var quoted := Quote(key);
    var colon := pos + |quoted|;
    IsAtSplit(text, pos, quoted, ":" + rendering);
    IsAtChar(text, pos, quoted, 0);
    IsAtSplit(text, colon, ":", rendering);
    IsAtChar(text, colon, ":", 0);
    IsAtChar(text, colon + 1, rendering, 0);
    SkipNothing(text, colon + 1);
  }

  /** Storing the values of distinct keys, in order, over the entries of
      the keys before them gives back the whole map. */
  lemma {:induction false} StoreAll(fields: map<string, Value>, keys: seq<string>, values: seq<Value>, i: nat)
    requires Enumerates(keys, fields) && |keys| == |values| && i <= |keys|
    requires forall k | 0 <= k < |keys| :: values[k] == fields[keys[k]]
    ensures StoreFrom(Entries(fields, keys[..i]), keys, values, i) == fields
    decreases |keys| - i
  {
    if i == |keys| {
      EntriesAll(fields, keys);
    } else {
      EntriesExtend(fields, keys, i);
      StoreAll(fields, keys, values, i + 1);
    }
  }

  /** One more key read: the entries under `keys[..i + 1]`. */
  lemma EntriesExtend(fields: map<string, Value>, keys: seq<string>, i: nat)
    requires i < |keys| && keys[i] in fields
    ensures Entries(fields, keys[..i])[keys[i] := fields[keys[i]]] == Entries(fields, keys[..i + 1])
  {
    assert keys[..i + 1] == keys[..i] + [keys[i]];
  }

  /** The entries under every key of `fields` are `fields` itself. */
  lemma EntriesAll(fields: map<string, Value>, keys: seq<string>)
    requires forall k :: k in fields <==> k in keys
    ensures Entries(fields, keys[..|keys|]) == fields
  {
    assert keys[..|keys|] == keys;
  }

  // ---------------------------------------------------------------------
  // Values, arrays and objects
  // ---------------------------------------------------------------------

  /** `parseValue`, started on a rendering without `double`s, returns the
      rendered value and stops right after the rendering. */
  lemma {:induction false} ValueRoundTrip(v: Value, fmt: Format, stod: Stod, text: string, pos: nat)
    requires fmt.Valid() && NoDoubles(v)
    requires IsAt(text, pos, Serialize(v, fmt)) && TokenEndsAt(text, pos + |Serialize(v, fmt)|)
    ensures ParseValue(text, pos, stod) == Success(Parsed(v, pos + |Serialize(v, fmt)|))
    decreases v, 3
  {
    match v
    case Bool(_) =>
      LiteralValue(v, fmt, stod, text, pos);
    case Int(_) =>
      LiteralValue(v, fmt, stod, text, pos);
    case Str(str) =>
      StrValue(str, fmt, stod, text, pos);
    case Array(elems) =>
      ArrayRoundTrip(elems, fmt, stod, text, pos);
      ArrayValue(elems, fmt, stod, text, pos);
    case Object(fields) =>
      ObjectRoundTrip(fields, fmt, stod, text, pos);
      ObjectValue(fields, fmt, stod, text, pos);
  }

  /** The first character of a rendering, where it stands in `text`. */
  lemma FirstChar(v: Value, fmt: Format, text: string, pos: nat)
    requires fmt.Valid() && !v.Double?
    requires IsAt(text, pos, Serialize(v, fmt))
    ensures pos < |text|
    ensures var c := text[pos];
            && (c == '"' <==> v.Str?) && (c == '{' <==> v.Object?) && (c == '[' <==> v.Array?)
  {
    RenderingStart(v, fmt);
    IsAtChar(text, pos, Serialize(v, fmt), 0);
  }

  /** `parseValue` hands a rendered literal to `parseLiteral`. */
  lemma LiteralValue(v: Value, fmt: Format, stod: Stod, text: string, pos: nat)
    requires fmt.Valid() && (v.Bool? || v.Int?)
    requires IsAt(text, pos, Serialize(v, fmt)) && TokenEndsAt(text, pos + |Serialize(v, fmt)|)
    ensures ParseValue(text, pos, stod) == Success(Parsed(v, pos + |Serialize(v, fmt)|))
  {
    FirstChar(v, fmt, text, pos);
    ValueOfLiteral(text, pos, stod);
    LiteralRoundTrip(v, fmt, stod, text, pos);
  }

  /** `parseValue` reads back a rendered string. */
  lemma StrValue(str: string, fmt: Format, stod: Stod, text: string, pos: nat)
    requires fmt.Valid()
    requires IsAt(text, pos, Serialize(Str(str), fmt))
    ensures ParseValue(text, pos, stod) == Success(Parsed(Str(str), pos + |Serialize(Str(str), fmt)|))
  {
    FirstChar(Str(str), fmt, text, pos);
    assert Serialize(Str(str), fmt) == Quote(str);
    StringRoundTrip(text, pos, str);
    ValueOfString(text, pos, stod, str, pos + |Quote(str)|);
  }

  /** `parseValue` passes on what `parseArray` reads from a rendered array. */
  lemma ArrayValue(elems: seq<Value>, fmt: Format, stod: Stod, text: string, pos: nat)
    requires fmt.Valid() && IsAt(text, pos, Serialize(Array(elems), fmt))
    requires ParseArray(text, pos, stod) == Success(Parsed(elems, pos + |Serialize(Array(elems), fmt)|))
    ensures ParseValue(text, pos, stod) == Success(Parsed(Array(elems), pos + |Serialize(Array(elems), fmt)|))
  {
    FirstChar(Array(elems), fmt, text, pos);
    ValueOfArray(text, pos, stod, elems, pos + |Serialize(Array(elems), fmt)|);
  }

  /** `parseValue` passes on what `parseObject` reads from a rendered object. */
  lemma ObjectValue(fields: map<string, Value>, fmt: Format, stod: Stod, text: string, pos: nat)
    requires fmt.Valid() && IsAt(text, pos, Serialize(Object(fields), fmt))
    requires ParseObject(text, pos, stod) == Success(Parsed(fields, pos + |Serialize(Object(fields), fmt)|))
    ensures ParseValue(text, pos, stod) == Success(Parsed(Object(fields), pos + |Serialize(Object(fields), fmt)|))
  {
    FirstChar(Object(fields), fmt, text, pos);
    ValueOfObject(text, pos, stod, fields, pos + |Serialize(Object(fields), fmt)|);
  }

  /** `parseArray` reads back a rendered array. */
  lemma {:induction false} ArrayRoundTrip(elems: seq<Value>, fmt: Format, stod: Stod, text: string, pos: nat)
    requires fmt.Valid() && NoDoubles(Array(elems))
    requires IsAt(text, pos, Serialize(Array(elems), fmt))
    ensures ParseArray(text, pos, stod) == Success(Parsed(elems, pos + |Serialize(Array(elems), fmt)|))
    decreases Array(elems), 2
  {
    var end := pos + 1 + |Join(Renderings(elems, fmt))|;
    ArrayLayout(elems, fmt, text, pos);
    assert pos + |Serialize(Array(elems), fmt)| == end + 1;
    assert ParseArray(text, pos, stod) == ParseElements(text, pos + 1, [], stod);
    if elems == [] {
      assert ParseElements(text, pos + 1, [], stod) == Success(Parsed([], end + 1));
    } else {
      ElementsRoundTrip(elems, fmt, stod, text, pos + 1);
    }
  }

  /** The array loop, entered on the first of the joined renderings of a
      non-empty array, reads them all and stops after the ']'. */
  lemma {:induction false} ElementsRoundTrip(elems: seq<Value>, fmt: Format, stod: Stod, text: string, pos: nat)
    requires fmt.Valid() && NoDoubles(Array(elems)) && elems != []
    requires IsAt(text, pos, Join(Renderings(elems, fmt)))
    requires var end := pos + |Join(Renderings(elems, fmt))|;
             end < |text| && text[end] == ']'
    ensures var end := pos + |Join(Renderings(elems, fmt))|;
            ParseElements(text, pos, [], stod) == Success(Parsed(elems, end + 1))
    decreases Array(elems), 1
  {
    ElementsReadBack(elems, fmt, stod, text);
    ElementsFromStart(elems, fmt, stod, text, pos);
  }

  /** The array loop over the joined renderings, once each of them is known
      to be read back. */
  lemma ElementsFromStart(elems: seq<Value>, fmt: Format, stod: Stod, text: string, pos: nat)
    requires fmt.Valid() && NoDoubles(Array(elems)) && elems != []
    requires ReadsBack(text, stod, Renderings(elems, fmt), elems)
    requires IsAt(text, pos, Join(Renderings(elems, fmt)))
    requires var end := pos + |Join(Renderings(elems, fmt))|;
             end < |text| && text[end] == ']'
    ensures var end := pos + |Join(Renderings(elems, fmt))|;
            ParseElements(text, pos, [], stod) == Success(Parsed(elems, end + 1))
  {
    var parts := Renderings(elems, fmt);
    ElementParts(elems, fmt);
    assert parts[0..] == parts;
    assert elems[..0] == [];
    ElementsLoop(text, stod, elems, parts, 0, pos, pos + |Join(parts)|);
  }

  /** Where a rendered array's pieces stand: the '[', the joined element
      renderings and the ']'. */
  lemma ArrayLayout(elems: seq<Value>, fmt: Format, text: string, pos: nat)
    requires fmt.Valid() && NoDoubles(Array(elems))
    requires IsAt(text, pos, Serialize(Array(elems), fmt))
    ensures var body := Join(Renderings(elems, fmt));
            && |Serialize(Array(elems), fmt)| == |body| + 2
            && pos < |text| && text[pos] == '['
            && IsAt(text, pos + 1, body)
            && pos + 1 + |body| < |text| && text[pos + 1 + |body|] == ']'
            && SkipIgnored(text, pos + 1) == pos + 1
            && (elems == [] ==> body == "")
  {
    var parts := Renderings(elems, fmt);
    var body := Join(parts);
    ArrayIsJoined(elems, fmt);
    Bracketed(text, pos, '[', body, ']');
    if elems != [] {
      ElementParts(elems, fmt);
      assert parts[0..] == parts;
      JoinStep(parts, 0);
      IsAtChar(text, pos + 1, body, 0);
    }
    SkipNothing(text, pos + 1);
  }

  /** Every element renders with a character in front that neither
      `skipIgnored` skips nor the array loop takes for its end. */
  lemma ElementParts(elems: seq<Value>, fmt: Format)
    requires fmt.Valid() && NoDoubles(Array(elems))
    ensures forall k | 0 <= k < |elems| :: Unskippable(Renderings(elems, fmt)[k]) && Renderings(elems, fmt)[k][0] != ']'
  {
    RenderingsAt(elems, fmt);
    forall k | 0 <= k < |elems|
      ensures Unskippable(Renderings(elems, fmt)[k]) && Renderings(elems, fmt)[k][0] != ']'
    {
      RenderingStart(elems[k], fmt);
    }
  }

  /** `parseValue` reads each element's rendering back. */
  lemma {:induction false} ElementsReadBack(elems: seq<Value>, fmt: Format, stod: Stod, text: string)
    requires fmt.Valid() && NoDoubles(Array(elems))
    ensures ReadsBack(text, stod, Renderings(elems, fmt), elems)
    decreases Array(elems), 0
  {
    var parts := Renderings(elems, fmt);
    RenderingsAt(elems, fmt);
    forall k | 0 <= k < |parts|
      ensures Reads(text, stod, parts[k], elems[k])
    {
      assert parts[k] == Serialize(elems[k], fmt) && NoDoubles(elems[k]);
      forall p: nat | IsAt(text, p, parts[k]) && TokenEndsAt(text, p + |parts[k]|)
        ensures ParseValue(text, p, stod) == Success(Parsed(elems[k], p + |parts[k]|))
      {
        ValueRoundTrip(elems[k], fmt, stod, text, p);
      }
    }
  }

  /** The values of `fields` under `keys`, in order. */
  function ValuesOf(fields: map<string, Value>, keys: seq<string>): (values: seq<Value>)
    requires forall k | k in keys :: k in fields
    ensures |values| == |keys| && forall k | 0 <= k < |keys| :: values[k] == fields[keys[k]]
  {
    seq(|keys|, k requires 0 <= k < |keys| => fields[keys[k]])
  }

  /** `parseObject` reads back a rendered object, whatever order the keys
      were written in. */
  lemma {:induction false} ObjectRoundTrip(fields: map<string, Value>, fmt: Format, stod: Stod, text: string, pos: nat)
    requires fmt.Valid() && NoDoubles(Object(fields))
    requires IsAt(text, pos, Serialize(Object(fields), fmt))
    ensures ParseObject(text, pos, stod) == Success(Parsed(fields, pos + |Serialize(Object(fields), fmt)|))
    decreases Object(fields), 2
  {
    ObjectLayout(fields, fmt, text, pos);
    assert ParseObject(text, pos, stod) == ParseMembers(text, pos + 1, map[], stod);
    if fields != map[] {
      EntriesRoundTrip(fields, fmt, stod, text, pos + 1);
    }
  }

  /** The object loop, entered on the first of the joined entries of a
      non-empty object, reads them all and stops after the '}'. */
  lemma {:induction false} EntriesRoundTrip(fields: map<string, Value>, fmt: Format, stod: Stod, text: string, pos: nat)
    requires fmt.Valid() && NoDoubles(Object(fields)) && fields != map[]
    requires IsAt(text, pos, Join(MemberRenderings(fields, fmt.order(fields), fmt)))
    requires var end := pos + |Join(MemberRenderings(fields, fmt.order(fields), fmt))|;
             end < |text| && text[end] == '}'
    ensures var end := pos + |Join(MemberRenderings(fields, fmt.order(fields), fmt))|;
            ParseMembers(text, pos, map[], stod) == Success(Parsed(fields, end + 1))
    decreases Object(fields), 1
  {
    MembersReadBack(fields, fmt.order(fields), fmt, stod, text);
    EntriesFromStart(fields, fmt, stod, text, pos);
  }

  /** The object loop over the joined entries, once every value's
      rendering is known to be read back. */
  lemma EntriesFromStart(fields: map<string, Value>, fmt: Format, stod: Stod, text: string, pos: nat)
    requires fmt.Valid() && NoDoubles(Object(fields)) && fields != map[]
    requires var keys := fmt.order(fields);
             ReadsBack(text, stod, Renderings(ValuesOf(fields, keys), fmt), ValuesOf(fields, keys))
    requires IsAt(text, pos, Join(MemberRenderings(fields, fmt.order(fields), fmt)))
    requires var end := pos + |Join(MemberRenderings(fields, fmt.order(fields), fmt))|;
             end < |text| && text[end] == '}'
    ensures var end := pos + |Join(MemberRenderings(fields, fmt.order(fields), fmt))|;
            ParseMembers(text, pos, map[], stod) == Success(Parsed(fields, end + 1))
  {
    var keys := fmt.order(fields);
    assert Enumerates(keys, fields);
    MemberParts(fields, keys, fmt);
    MembersFromStart(text, stod, fields, keys, ValuesOf(fields, keys), MemberRenderings(fields, keys, fmt),
                     Renderings(ValuesOf(fields, keys), fmt), pos);
  }

  /** The object loop run from its first entry over the entries of a
      non-empty map, each key listed once, stores the whole map. */
  lemma MembersFromStart(text: string, stod: Stod, fields: map<string, Value>, keys: seq<string>, values: seq<Value>,
                         parts: seq<string>, renderings: seq<string>, pos: nat)
    requires Enumerates(keys, fields) && fields != map[]
    requires |keys| == |values| == |parts| == |renderings|
    requires forall k | 0 <= k < |keys| :: values[k] == fields[keys[k]]
    requires forall k | 0 <= k < |parts| :: parts[k] == Quote(keys[k]) + (":" + renderings[k]) && Unskippable(renderings[k])
    requires ReadsBack(text, stod, renderings, values)
    requires IsAt(text, pos, Join(parts)) && pos + |Join(parts)| < |text| && text[pos + |Join(parts)|] == '}'
    ensures ParseMembers(text, pos, map[], stod) == Success(Parsed(fields, pos + |Join(parts)| + 1))
  {
    assert keys != [] by {
      var k :| k in fields;
      assert k in keys;
    }
    assert parts[0..] == parts;
    MembersLoop(text, stod, keys, values, parts, renderings, 0, pos, pos + |Join(parts)|, map[]);
    assert Entries(fields, keys[..0]) == map[];
    StoreAll(fields, keys, values, 0);
  }

  /** Where a rendered object's pieces stand: the '{', the joined entries,
      each opening with a quoted key, and the '}'. */
  lemma ObjectLayout(fields: map<string, Value>, fmt: Format, text: string, pos: nat)
    requires fmt.Valid()
    requires IsAt(text, pos, Serialize(Object(fields), fmt))
    ensures var keys := fmt.order(fields);
            var body := Join(MemberRenderings(fields, keys, fmt));
            && Enumerates(keys, fields)
            && |Serialize(Object(fields), fmt)| == |body| + 2
            && pos < |text| && text[pos] == '{'
            && IsAt(text, pos + 1, body)
            && pos + 1 + |body| < |text| && text[pos + 1 + |body|] == '}'
            && SkipIgnored(text, pos + 1) == pos + 1
            && (fields == map[] ==> body == "")
  {
    var keys := fmt.order(fields);
    var parts := MemberRenderings(fields, keys, fmt);
    var body := Join(parts);
    ObjectIsJoined(fields, fmt);
    Bracketed(text, pos, '{', body, '}');
    if keys != [] {
      assert parts[0..] == parts;
      JoinStep(parts, 0);
      assert body[0] == '"' by {
        MemberRenderingsAt(fields, keys, fmt);
        MemberShape(keys[0], fields[keys[0]], fmt);
        assert Quote(keys[0])[0] == '"';
      }
      IsAtChar(text, pos + 1, body, 0);
      assert keys[0] in fields;
    }
    SkipNothing(text, pos + 1);
  }

  /** Every entry renders as its quoted key, a ':' and its value's
      rendering, which `skipIgnored` does not move over. */
  lemma MemberParts(fields: map<string, Value>, keys: seq<string>, fmt: Format)
    requires fmt.Valid() && NoDoubles(Object(fields)) && forall k | k in keys :: k in fields
    ensures var parts, renderings := MemberRenderings(fields, keys, fmt), Renderings(ValuesOf(fields, keys), fmt);
            forall k | 0 <= k < |keys| :: parts[k] == Quote(keys[k]) + (":" + renderings[k]) && Unskippable(renderings[k])
  {
    var values := ValuesOf(fields, keys);
    MemberRenderingsAt(fields, keys, fmt);
    RenderingsAt(values, fmt);
    forall k | 0 <= k < |keys|
      ensures MemberRenderings(fields, keys, fmt)[k] == Quote(keys[k]) + (":" + Renderings(values, fmt)[k])
      ensures Unskippable(Renderings(values, fmt)[k])
    {
      MemberShape(keys[k], values[k], fmt);
      RenderingStart(values[k], fmt);
    }
  }

  /** `parseValue` reads the rendering of each value back. */
  lemma {:induction false} MembersReadBack(fields: map<string, Value>, keys: seq<string>, fmt: Format, stod: Stod, text: string)
    requires fmt.Valid() && NoDoubles(Object(fields)) && forall k | k in keys :: k in fields
    ensures ReadsBack(text, stod, Renderings(ValuesOf(fields, keys), fmt), ValuesOf(fields, keys))
    decreases Object(fields), 0
  {
    var values := ValuesOf(fields, keys);
    var renderings := Renderings(values, fmt);
    RenderingsAt(values, fmt);
    forall k | 0 <= k < |renderings|
      ensures Reads(text, stod, renderings[k], values[k])
    {
      var key := keys[k];
      assert key in fields && values[k] == fields[key];
      assert renderings[k] == Serialize(fields[key], fmt);
      assert NoDoubles(fields[key]);
      forall p: nat | IsAt(text, p, renderings[k]) && TokenEndsAt(text, p + |renderings[k]|)
        ensures ParseValue(text, p, stod) == Success(Parsed(values[k], p + |renderings[k]|))
      {
        ValueRoundTrip(fields[key], fmt, stod, text, p);
      }
    }
  }

  // ---------------------------------------------------------------------
  // The document
  // ---------------------------------------------------------------------

  /** `Parser::parse` undoes `serialize()`: parsing the text `serialize()`
      writes for an object tree without `double`s gives the same tree. */
  lemma SerializeThenParse(v: Value, fmt: Format, stod: Stod)
    requires v.Object? && NoDoubles(v) && fmt.Valid()
    ensures Parse(Serialize(v, fmt), stod) == Success(v)
  {
    var text := Serialize(v, fmt);
    IsAtSuffix(text, 0);
    assert text[0..] == text;
    RenderingStart(v, fmt);
    ObjectRoundTrip(v.fields, fmt, stod, text, 0);
  }
}
