/** The grammar of `LightStruct::Parser`, as functions that thread the
    cursor `pos_` through the text. Each loop of the original becomes a
    tail-recursive function whose arguments are the loop's variables at the
    head of an iteration; the class `Parser` is proved to compute exactly
    these functions.

    Reading `text_[pos_]` is `Peek`, which yields NUL at the end of the text
    as `std::string::operator[]` does at `size()`. */
module Grammar {
  import opened Wrappers
  import opened Values
  import opened Lexical

  /** The failures of a parse: each exception the parser can raise. */
  datatype SyntaxError =
    | ExpectedObject                  // parseObject() saw no '{' and `.value()` threw
    | ExpectedArray                   // parseArray() saw no '[' and `.value()` threw
    | ExpectedString                  // parseString() saw no '"' (a key) and `.value()` threw
    | ExpectedValue                   // parseValue() at the end of the text and `.value()` threw
    | ExpectedColon                   // "Expected ':' after key"
    | ExpectedCommaOrBrace            // "Expected ',' or '}' in object"
    | ExpectedCommaOrBracket          // "Expected ',' or ']' in array"
    | UnsupportedEscape               // "Unsupported escape sequence"
    | InvalidLiteral(token: string)   // "Invalid literal: " + token

  /** What a grammar routine produced and where the cursor stands after it. */
  datatype Parsed<T> = Parsed(value: T, next: nat)

  type ParseResult<T> = Result<Parsed<T>, SyntaxError>

  /** `std::stod`, left to the platform: the double a token denotes, if any. */
  type Stod = string -> Option<Float>

  /** `text_[pos_]`: the character under the cursor, and the terminating
      NUL at `size()` and beyond. */
  function Peek(text: string, pos: nat): char {
    if pos < |text| then text[pos] else NUL
  }

  /** Inside the text the cursor reads the text's own character; a
      character other than NUL is read only inside the text. */
  lemma PeekReads(text: string, pos: nat)
    ensures pos < |text| ==> Peek(text, pos) == text[pos]
    ensures Peek(text, pos) != NUL ==> pos < |text|
  {
  }

  // ---------------------------------------------------------------------
  // skipIgnored
  // ---------------------------------------------------------------------

  // Whitespace, or the start of a line comment or a block comment.
  predicate IgnoredAt(text: string, pos: nat)
    requires pos < |text|
  {
    IsSpace(text[pos]) ||
    (text[pos] == '/' && pos + 1 < |text| && (text[pos + 1] == '/' || text[pos + 1] == '*'))
  }

  predicate CloserAt(text: string, j: nat) {
    j + 1 < |text| && text[j] == '*' && text[j + 1] == '/'
  }

  /** The `//` scan (lines 193-194), bounded by the end of the text: the
      cursor stops on the first newline, or at the end when there is none. */
  function SkipLine(text: string, pos: nat): (r: nat)
    requires pos <= |text|
    ensures pos <= r <= |text|
    ensures r == |text| || text[r] == '\n'
    decreases |text| - pos
  {
    if pos < |text| && text[pos] != '\n' then SkipLine(text, pos + 1) else pos
  }

  /** The `//` scan passes over no newline. */
  lemma {:induction false} SkipLineScan(text: string, pos: nat)
    requires pos <= |text|
    ensures forall j | pos <= j < SkipLine(text, pos) :: text[j] != '\n'
    decreases |text| - pos
  {
    if pos < |text| && text[pos] != '\n' {
      SkipLineScan(text, pos + 1);
    }
  }

  // The block-comment scan (lines 197-203), which starts on the opening
  // '/': the cursor stops just after the first star-slash, or on the last
  // character of the text when there is none.
  function SkipBlock(text: string, pos: nat): (r: nat)
    requires pos <= |text|
    ensures pos <= r <= |text|
    ensures pos + 1 >= |text| ==> r == pos
    decreases |text| - pos
  {
    if pos + 1 < |text| then
      if text[pos] == '*' && text[pos + 1] == '/' then pos + 2 else SkipBlock(text, pos + 1)
    else pos
  }

  /** The block-comment scan ends just after the first star-slash at or
      after `pos`, or, when there is none, on the last character. */
  lemma {:induction false} SkipBlockScan(text: string, pos: nat)
    requires pos + 1 < |text|
    ensures var r := SkipBlock(text, pos);
            || (pos + 2 <= r && CloserAt(text, r - 2) && forall j | pos <= j < r - 2 :: !CloserAt(text, j))
            || (r == |text| - 1 && forall j | pos <= j < r :: !CloserAt(text, j))
    decreases |text| - pos
  {
    if !(text[pos] == '*' && text[pos + 1] == '/') && pos + 2 < |text| {
      SkipBlockScan(text, pos + 1);
    }
  }

  /** `skipIgnored()`: the cursor moves forward over whitespace and comments
      and stops at the end of the text or on a character that starts
      neither. */
  function SkipIgnored(text: string, pos: nat): (r: nat)
    requires pos <= |text|
    ensures pos <= r <= |text|
    ensures r == |text| || !IgnoredAt(text, r)
    decreases |text| - pos
  {
    if pos >= |text| then pos
    else if IsSpace(text[pos]) then SkipIgnored(text, pos + 1)
    else if text[pos] == '/' && pos + 1 < |text| && text[pos + 1] == '/' then SkipIgnored(text, SkipLine(text, pos))
    else if text[pos] == '/' && pos + 1 < |text| && text[pos + 1] == '*' then SkipIgnored(text, SkipBlock(text, pos))
    else pos
  }

  /** One step of `skipIgnored`'s loop from a position that starts
      whitespace or a comment: past the whitespace character, or to where
      the comment's scan stops. */
  function SkipStep(text: string, pos: nat): (r: nat)
    requires pos < |text| && IgnoredAt(text, pos)
    ensures pos < r <= |text|
  {
    if IsSpace(text[pos]) then pos + 1
    else if text[pos + 1] == '/' then SkipLine(text, pos)
    else SkipBlock(text, pos)
  }

  /** `skipIgnored`, started at `pos`, stands at `k` at the head of some
      iteration of its loop: `k` is reached from `pos` by whole steps, each
      taken from a position that starts whitespace or a comment. */
  predicate ScanStop(text: string, pos: nat, k: nat)
    requires pos <= |text|
    decreases |text| - pos
  {
    && pos <= k <= |text|
    && (k == pos || (pos < |text| && IgnoredAt(text, pos) && ScanStop(text, SkipStep(text, pos), k)))
  }

  /** The character at `j` is passed over by a step that the scan started
      at `from` takes: it is the whitespace character, or lies in the comment,
      that begins at one of the scan's own stops. */
  ghost predicate Ignorable(text: string, from: nat, j: nat)
    requires from <= |text|
  {
    exists k | from <= k <= j :: k < |text| && ScanStop(text, from, k) && IgnoredAt(text, k) && j < SkipStep(text, k)
  }

  /** `skipIgnored` stops at the head of an iteration of its own loop, never
      in the middle of a comment that is closed; a block comment that is
      never closed leaves its last character unskipped. */
  lemma {:induction false} SkipIgnoredStopsOnScan(text: string, pos: nat)
    requires pos <= |text|
    ensures ScanStop(text, pos, SkipIgnored(text, pos))
    decreases |text| - pos
  {
    if pos < |text| && IgnoredAt(text, pos) {
      var e := SkipStep(text, pos);
      assert SkipIgnored(text, pos) == SkipIgnored(text, e);
      SkipIgnoredStopsOnScan(text, e);
    }
  }

  /** `skipIgnored` stops at the FIRST stop of its loop that starts neither
      whitespace nor a comment: any such stop is the one it returns. */
  lemma {:induction false} ScanStopUnique(text: string, pos: nat, r: nat)
    requires pos <= |text| && ScanStop(text, pos, r)
    requires r == |text| || !IgnoredAt(text, r)
    ensures r == SkipIgnored(text, pos)
    decreases |text| - pos
  {
    if r != pos {
      var e := SkipStep(text, pos);
      assert SkipIgnored(text, pos) == SkipIgnored(text, e);
      ScanStopUnique(text, e, r);
    }
  }

  /** `skipIgnored` passes over nothing but whitespace and comments that
      begin where its own loop stands, so it never skips a '{', a '"' or any
      other character outside a comment, nor a comment opener that itself
      lies inside an earlier comment. */
  lemma {:induction false} SkipIgnoredSkipsOnlyIgnored(text: string, pos: nat)
    requires pos <= |text|
    ensures forall j | pos <= j < SkipIgnored(text, pos) :: Ignorable(text, pos, j)
    decreases |text| - pos
  {
    if pos < |text| && IgnoredAt(text, pos) {
      var e := SkipStep(text, pos);
      assert SkipIgnored(text, pos) == SkipIgnored(text, e);
      SkipIgnoredSkipsOnlyIgnored(text, e);
      IgnorableFrom(text, pos, SkipIgnored(text, pos));
    }
  }

  /** What the scan started one step later passes over, the scan started at
      `pos` passes over too, and so does the first step itself. */
  lemma IgnorableFrom(text: string, pos: nat, r: nat)
    requires pos < |text| && IgnoredAt(text, pos) && SkipStep(text, pos) <= r <= |text|
    requires forall j | SkipStep(text, pos) <= j < r :: Ignorable(text, SkipStep(text, pos), j)
    ensures forall j | pos <= j < r :: Ignorable(text, pos, j)
  {
    var e := SkipStep(text, pos);
    forall j | pos <= j < r
      ensures Ignorable(text, pos, j)
    {
      if j < e {
        assert ScanStop(text, pos, pos);
      } else {
        assert Ignorable(text, e, j);
        var k :| e <= k <= j && k < |text| && ScanStop(text, e, k) && IgnoredAt(text, k) && j < SkipStep(text, k);
        assert ScanStop(text, pos, k);
      }
    }
  }

  /** Over plain whitespace, `skipIgnored` stops exactly at the first
      character that neither is whitespace nor opens a comment. */
  lemma {:induction false} SkipIgnoredOverSpaces(text: string, pos: nat, e: nat)
    requires pos <= e <= |text|
    requires forall j | pos <= j < e :: IsSpace(text[j])
    requires e == |text| || !IgnoredAt(text, e)
    ensures SkipIgnored(text, pos) == e
    decreases e - pos
  {
    if pos < e {
      SkipIgnoredOverSpaces(text, pos + 1, e);
    }
  }

  // ---------------------------------------------------------------------
  // parseString
  // ---------------------------------------------------------------------

  /** `parseString()`: an opening quote, then characters up to the closing
      quote, where only `\"` and `\\` are escapes. The scan is bounded by
      the end of the text: an unterminated string yields what was read. */
  function ParseString(text: string, pos: nat): (r: ParseResult<string>)
    requires pos <= |text|
    ensures r.Success? ==> pos < r.value.next <= |text|
    ensures r.Success? ==> Peek(text, pos) == '"'
    ensures r.Failure? ==> r.error == ExpectedString || r.error == UnsupportedEscape
  {
    if Peek(text, pos) != '"' then Failure(ExpectedString)
    else ParseChars(text, pos + 1, [])
  }

  /** The loop of `parseString` (lines 252-266), with `acc` the characters
      accumulated so far. */
  function ParseChars(text: string, pos: nat, acc: string): (r: ParseResult<string>)
    requires pos <= |text|
    ensures r.Success? ==> pos <= r.value.next <= |text|
    ensures r.Failure? ==> r.error == UnsupportedEscape
    decreases |text| - pos
  {
    if pos >= |text| then Success(Parsed(acc, pos))
    else if text[pos] == '"' then Success(Parsed(acc, pos + 1))
    else if text[pos] == '\\' then
      if pos + 1 < |text| then
        if text[pos + 1] == '"' then ParseChars(text, pos + 2, acc + ['"'])
        else if text[pos + 1] == '\\' then ParseChars(text, pos + 2, acc + ['\\'])
        else Failure(UnsupportedEscape)
      else ParseChars(text, pos + 1, acc)
    else ParseChars(text, pos + 1, acc + [text[pos]])
  }

  // ---------------------------------------------------------------------
  // parseLiteral
  // ---------------------------------------------------------------------

  /** The scan of `parseLiteral` (lines 319-320): the end of the maximal run
      of alphanumerics, '.' and '-' starting at `pos`. */
  function LiteralEnd(text: string, pos: nat): (r: nat)
    requires pos <= |text|
    ensures pos <= r <= |text|
    ensures r == |text| || !IsLiteralChar(text[r])
    decreases |text| - pos
  {
    if pos < |text| && IsLiteralChar(text[pos]) then LiteralEnd(text, pos + 1) else pos
  }

  /** The token scan takes only literal characters. */
  lemma {:induction false} LiteralEndScan(text: string, pos: nat)
    requires pos <= |text|
    ensures forall j | pos <= j < LiteralEnd(text, pos) :: IsLiteralChar(text[j])
    decreases |text| - pos
  {
    if pos < |text| && IsLiteralChar(text[pos]) {
      LiteralEndScan(text, pos + 1);
    }
  }

  /** `parseLiteral()`: the tokens `true` and `false` are booleans, a token
      holding a '.' goes to `std::stod`, any other to `std::stoi`; whatever
      they reject is an invalid literal. */
  function ParseLiteral(text: string, pos: nat, stod: Stod): (r: ParseResult<Value>)
    requires pos <= |text|
    ensures r.Success? ==> pos < r.value.next <= |text|
  {
    var end := LiteralEnd(text, pos);
    var token := text[pos..end];
    if token == "true" then Success(Parsed(Bool(true), end))
    else if token == "false" then Success(Parsed(Bool(false), end))
    else if '.' in token then
      (match stod(token)
       case Some(d) => Success(Parsed(Double(d), end))
       case None => Failure(InvalidLiteral(token)))
    else
      (match Stoi(token)
       case Some(i) => Success(Parsed(Int(i), end))
       case None => Failure(InvalidLiteral(token)))
  }

  /** What `parseLiteral` makes of the token under the cursor. */
  lemma ParseLiteralCases(text: string, pos: nat, stod: Stod)
    requires pos <= |text|
    ensures var r, token := ParseLiteral(text, pos, stod), text[pos..LiteralEnd(text, pos)];
            && (r.Success? ==> r.value.next == LiteralEnd(text, pos))
            && (r.Success? ==> r.value.value.Bool? || r.value.value.Int? || r.value.value.Double?)
            && (r.Success? && r.value.value.Bool? ==> token == if r.value.value.b then "true" else "false")
            && (r.Success? && r.value.value.Int? ==> '.' !in token && Stoi(token) == Some(r.value.value.i))
            && (r.Success? && r.value.value.Double? ==> '.' in token && stod(token) == Some(r.value.value.d))
            && (r.Failure? ==> r.error == InvalidLiteral(token))
    ensures var r, end := ParseLiteral(text, pos, stod), LiteralEnd(text, pos);
            var token := text[pos..end];
            && (token == "true" ==> r == Success(Parsed(Bool(true), end)))
            && (token == "false" ==> r == Success(Parsed(Bool(false), end)))
            && ('.' in token && stod(token).Some? ==> r == Success(Parsed(Double(stod(token).value), end)))
            && (token != "true" && token != "false" && '.' !in token && Stoi(token).Some? ==>
                  r == Success(Parsed(Int(Stoi(token).value), end)))
  {
  }

  // ---------------------------------------------------------------------
  // parseValue, parseObject, parseArray
  // ---------------------------------------------------------------------

  /** `parseValue()`: dispatch on the character under the cursor. */
  function ParseValue(text: string, pos: nat, stod: Stod): (r: ParseResult<Value>)
    requires pos <= |text|
    ensures r.Success? ==> pos < r.value.next <= |text|
    ensures pos == |text| ==> r == Failure(ExpectedValue)
    decreases |text| - pos, 2
  {
    if pos >= |text| then Failure(ExpectedValue)
    else if text[pos] == '"' then
      var s :- ParseString(text, pos);
      Success(Parsed(Str(s.value), s.next))
    else if text[pos] == '{' then
      var obj :- ParseObject(text, pos, stod);
      Success(Parsed(Object(obj.value), obj.next))
    else if text[pos] == '[' then
      var arr :- ParseArray(text, pos, stod);
      Success(Parsed(Array(arr.value), arr.next))
    else
      ParseLiteral(text, pos, stod)
  }

  /** `parseObject()`: a '{', then the loop of lines 216-243 from an empty
      map. */
  function ParseObject(text: string, pos: nat, stod: Stod): (r: ParseResult<map<string, Value>>)
    requires pos <= |text|
    ensures r.Success? ==> pos < r.value.next <= |text|
    ensures Peek(text, pos) != '{' ==> r == Failure(ExpectedObject)
    decreases |text| - pos, 1
  {
    if Peek(text, pos) != '{' then Failure(ExpectedObject)
    else ParseMembers(text, SkipIgnored(text, pos + 1), map[], stod)
  }

  /** One iteration of the object loop and all that follow it, with `acc`
      the entries read so far: reaching the end of the text ends the loop
      without error; otherwise skip, then read an entry or the closing '}'. */
  function ParseMembers(text: string, pos: nat, acc: map<string, Value>, stod: Stod): (r: ParseResult<map<string, Value>>)
    requires pos <= |text|
    ensures r.Success? ==> pos <= r.value.next <= |text|
    decreases |text| - pos, 5
  {
    if pos >= |text| then Success(Parsed(acc, pos))
    else MemberAt(text, SkipIgnored(text, pos), acc, stod)
  }

  /** The body of the object loop once ignored material is skipped: a '}'
      ends the loop; otherwise a key. */
  function MemberAt(text: string, pos: nat, acc: map<string, Value>, stod: Stod): (r: ParseResult<map<string, Value>>)
    requires pos <= |text|
    ensures r.Success? ==> pos < r.value.next <= |text|
    decreases |text| - pos, 4
  {
    if Peek(text, pos) == '}' then Success(Parsed(acc, pos + 1))
    else
      var key :- ParseString(text, pos);
      MemberValue(text, key.next, key.value, acc, stod)
  }

  /** The body of the object loop after the key: a ':' right after it, and
      a value, stored under the key so that a later entry for the same key
      replaces an earlier one. */
  function MemberValue(text: string, pos: nat, key: string, acc: map<string, Value>, stod: Stod): (r: ParseResult<map<string, Value>>)
    requires pos <= |text|
    ensures r.Success? ==> pos < r.value.next <= |text|
    decreases |text| - pos, 3
  {
    if Peek(text, pos) != ':' then Failure(ExpectedColon)
    else
      var value :- ParseValue(text, SkipIgnored(text, pos + 1), stod);
      MembersAfterValue(text, value.next, acc[key := value.value], stod)
  }

  /** The rest of an iteration of the object loop, once an entry has been
      stored: a ',' continues the loop, a '}' ends it, anything else fails. */
  function MembersAfterValue(text: string, pos: nat, obj: map<string, Value>, stod: Stod): (r: ParseResult<map<string, Value>>)
    requires pos <= |text|
    ensures r.Success? ==> pos < r.value.next <= |text|
    decreases |text| - pos, 6
  {
    var q := SkipIgnored(text, pos);
    if Peek(text, q) == ',' then ParseMembers(text, SkipIgnored(text, q + 1), obj, stod)
    else if Peek(text, q) == '}' then Success(Parsed(obj, q + 1))
    else Failure(ExpectedCommaOrBrace)
  }

  /** `parseArray()`: a '[', then the loop of lines 297-313 from an empty
      sequence. */
  function ParseArray(text: string, pos: nat, stod: Stod): (r: ParseResult<seq<Value>>)
    requires pos <= |text|
    ensures r.Success? ==> pos < r.value.next <= |text|
    ensures Peek(text, pos) != '[' ==> r == Failure(ExpectedArray)
    decreases |text| - pos, 1
  {
    if Peek(text, pos) != '[' then Failure(ExpectedArray)
    else ParseElements(text, SkipIgnored(text, pos + 1), [], stod)
  }

  /** One iteration of the array loop and all that follow it, with `acc`
      the elements read so far: the end of the text or a ']' ends the loop,
      anything else is an element, appended. */
  function ParseElements(text: string, pos: nat, acc: seq<Value>, stod: Stod): (r: ParseResult<seq<Value>>)
    requires pos <= |text|
    ensures r.Success? ==> pos <= r.value.next <= |text|
    decreases |text| - pos, 3
  {
    if pos >= |text| then Success(Parsed(acc, pos))
    else if text[pos] == ']' then Success(Parsed(acc, pos + 1))
    else
      var value :- ParseValue(text, pos, stod);
      ElementsAfterValue(text, value.next, acc + [value.value], stod)
  }

  /** The rest of an iteration of the array loop, once an element has been
      appended: a ',' continues the loop, a ']' ends it, anything else
      fails. */
  function ElementsAfterValue(text: string, pos: nat, arr: seq<Value>, stod: Stod): (r: ParseResult<seq<Value>>)
    requires pos <= |text|
    ensures r.Success? ==> pos < r.value.next <= |text|
    decreases |text| - pos, 4
  {
    var q := SkipIgnored(text, pos);
    if Peek(text, q) == ',' then ParseElements(text, SkipIgnored(text, q + 1), arr, stod)
    else if Peek(text, q) == ']' then Success(Parsed(arr, q + 1))
    else Failure(ExpectedCommaOrBracket)
  }

  // ---------------------------------------------------------------------
  // Single steps of the object and array loops
  // ---------------------------------------------------------------------

  /** A character that is neither whitespace nor a '/' is not skipped. */
  lemma SkipNothing(text: string, pos: nat)
    requires pos < |text| && !IsSpace(text[pos]) && text[pos] != '/'
    ensures SkipIgnored(text, pos) == pos
  {
  }

  /** An array loop iteration that reads a value goes on right after it. */
  lemma ElementStep(text: string, pos: nat, acc: seq<Value>, stod: Stod, v: Value, after: nat)
    requires pos < |text| && text[pos] != ']'
    requires ParseValue(text, pos, stod) == Success(Parsed(v, after))
    ensures ParseElements(text, pos, acc, stod) == ElementsAfterValue(text, after, acc + [v], stod)
  {
  }

  /** A ',' or ']' right after an element's value. */
  lemma AfterElement(text: string, after: nat, arr: seq<Value>, stod: Stod)
    requires after < |text| && (text[after] == ',' || text[after] == ']')
    ensures text[after] == ']' ==> ElementsAfterValue(text, after, arr, stod) == Success(Parsed(arr, after + 1))
    ensures text[after] == ',' ==>
              ElementsAfterValue(text, after, arr, stod) == ParseElements(text, SkipIgnored(text, after + 1), arr, stod)
  {
    SkipNothing(text, after);
  }

  /** An object loop iteration that reads a key, a ':' and a value goes on
      right after the value, with the entry stored. */
  lemma EntryStep(text: string, pos: nat, acc: map<string, Value>, stod: Stod, key: string, colon: nat, v: Value, after: nat)
    requires pos < |text| && text[pos] == '"'
    requires ParseString(text, pos) == Success(Parsed(key, colon))
    requires colon < |text| && text[colon] == ':'
    requires ParseValue(text, SkipIgnored(text, colon + 1), stod) == Success(Parsed(v, after))
    ensures ParseMembers(text, pos, acc, stod) == MembersAfterValue(text, after, acc[key := v], stod)
  {
    SkipNothing(text, pos);
    assert ParseMembers(text, pos, acc, stod) == MemberAt(text, pos, acc, stod);
    assert MemberAt(text, pos, acc, stod) == MemberValue(text, colon, key, acc, stod);
  }

  /** A ',' or '}' right after an entry's value. */
  lemma AfterEntry(text: string, after: nat, obj: map<string, Value>, stod: Stod)
    requires after < |text| && (text[after] == ',' || text[after] == '}')
    ensures text[after] == '}' ==> MembersAfterValue(text, after, obj, stod) == Success(Parsed(obj, after + 1))
    ensures text[after] == ',' ==>
              MembersAfterValue(text, after, obj, stod) == ParseMembers(text, SkipIgnored(text, after + 1), obj, stod)
  {
    SkipNothing(text, after);
  }

  // ---------------------------------------------------------------------
  // parse
  // ---------------------------------------------------------------------

  /** `parse()`: skip what is ignored, then one object. Whatever follows the
      object is not looked at. */
  function Parse(text: string, stod: Stod): (r: Result<Value, SyntaxError>)
    ensures r.Success? ==> r.value.Object?
    ensures r.Success? ==> Peek(text, SkipIgnored(text, 0)) == '{'
    ensures Peek(text, SkipIgnored(text, 0)) != '{' ==> r == Failure(ExpectedObject)
  {
    var obj :- ParseObject(text, SkipIgnored(text, 0), stod);
    Success(Object(obj.value))
  }
}
