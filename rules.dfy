/** The rules of `Parser` that hold for every text: how the object and
    array loops treat repeated keys, trailing commas, text that stops early
    and a missing separator; where the ':' must stand; which escapes and
    literals fail; and how a string or a block comment ends. Each is stated
    on the grammar functions, which the class `Parser` is proved to follow. */
module ParseRules {
  import opened Wrappers
  import opened Values
  import opened Lexical
  import opened Grammar

  /** At `pos` stands one entry of an object: a key string whose closing
      quote is followed by the ':' at `colon`, then a value that, after what
      is skipped, ends at `after`. */
  predicate EntryReads(text: string, pos: nat, stod: Stod, key: string, colon: nat, v: Value, after: nat) {
    && pos < |text| && text[pos] == '"'
    && ParseString(text, pos) == Success(Parsed(key, colon))
    && colon < |text| && text[colon] == ':'
    && ParseValue(text, SkipIgnored(text, colon + 1), stod) == Success(Parsed(v, after))
  }

  // ---------------------------------------------------------------------
  // The object loop
  // ---------------------------------------------------------------------

  /** `obj[key] = value` overwrites: of two entries with the same key, one
      after the other, only the second one's value is kept. */
  lemma DuplicateKeyLastWins(text: string, pos: nat, acc: map<string, Value>, stod: Stod, key: string,
                             colon1: nat, v1: Value, after1: nat, next: nat, colon2: nat, v2: Value, after2: nat)
    requires EntryReads(text, pos, stod, key, colon1, v1, after1)
    requires Peek(text, SkipIgnored(text, after1)) == ','
    requires next == SkipIgnored(text, SkipIgnored(text, after1) + 1)
    requires EntryReads(text, next, stod, key, colon2, v2, after2)
    ensures ParseMembers(text, pos, acc, stod) == MembersAfterValue(text, after2, acc[key := v2], stod)
  {
    EntryThenComma(text, pos, acc, stod, key, colon1, v1, after1, next);
    EntryStep(text, next, acc[key := v1], stod, key, colon2, v2, after2);
    assert acc[key := v1][key := v2] == acc[key := v2];
  }

  /** An entry followed by a ',': the loop goes on at `next` with the entry
      stored. */
  lemma EntryThenComma(text: string, pos: nat, acc: map<string, Value>, stod: Stod, key: string,
                       colon: nat, v: Value, after: nat, next: nat)
    requires EntryReads(text, pos, stod, key, colon, v, after)
    requires Peek(text, SkipIgnored(text, after)) == ','
    requires next == SkipIgnored(text, SkipIgnored(text, after) + 1)
    ensures ParseMembers(text, pos, acc, stod) == ParseMembers(text, next, acc[key := v], stod)
  {
    EntryStep(text, pos, acc, stod, key, colon, v, after);
  }

  /** A ',' right before the closing '}' is accepted. */
  lemma TrailingCommaInObject(text: string, pos: nat, obj: map<string, Value>, stod: Stod)
    requires pos <= |text|
    requires var q := SkipIgnored(text, pos);
             Peek(text, q) == ',' && Peek(text, SkipIgnored(text, q + 1)) == '}'
    ensures var close := SkipIgnored(text, SkipIgnored(text, pos) + 1);
            MembersAfterValue(text, pos, obj, stod) == Success(Parsed(obj, close + 1))
  {
    var q := SkipIgnored(text, pos);
    var close := SkipIgnored(text, q + 1);
    SkipNothing(text, close);
    assert MembersAfterValue(text, pos, obj, stod) == ParseMembers(text, close, obj, stod);
    assert ParseMembers(text, close, obj, stod) == MemberAt(text, close, obj, stod);
  }

  /** An object whose text stops right after its '{', with only what is
      skipped in between, is read as the empty object. */
  lemma ObjectCutShort(text: string, pos: nat, stod: Stod)
    requires pos < |text| && text[pos] == '{' && SkipIgnored(text, pos + 1) == |text|
    ensures ParseObject(text, pos, stod) == Success(Parsed(map[], |text|))
  {
  }

  /** An object whose text stops after a ',' keeps the entries read so far
      and reports no error. */
  lemma ObjectCutShortAfterComma(text: string, pos: nat, obj: map<string, Value>, stod: Stod)
    requires pos <= |text|
    requires var q := SkipIgnored(text, pos);
             Peek(text, q) == ',' && SkipIgnored(text, q + 1) == |text|
    ensures MembersAfterValue(text, pos, obj, stod) == Success(Parsed(obj, |text|))
  {
  }

  /** An entry followed by anything but a ',' or a '}' is an error. */
  lemma EntryWithoutSeparator(text: string, pos: nat, acc: map<string, Value>, stod: Stod, key: string,
                              colon: nat, v: Value, after: nat)
    requires EntryReads(text, pos, stod, key, colon, v, after)
    requires var q := SkipIgnored(text, after); Peek(text, q) != ',' && Peek(text, q) != '}'
    ensures ParseMembers(text, pos, acc, stod) == Failure(ExpectedCommaOrBrace)
  {
    EntryStep(text, pos, acc, stod, key, colon, v, after);
  }

  /** The ':' must come right after the key's closing quote: nothing is
      skipped there, so even a space before it is an error. */
  lemma ColonRightAfterKey(text: string, pos: nat, acc: map<string, Value>, stod: Stod, key: string, end: nat)
    requires pos <= |text|
    requires ParseString(text, SkipIgnored(text, pos)) == Success(Parsed(key, end))
    requires Peek(text, end) != ':'
    ensures ParseMembers(text, pos, acc, stod) == Failure(ExpectedColon)
  {
    var q := SkipIgnored(text, pos);
    assert ParseMembers(text, pos, acc, stod) == MemberAt(text, q, acc, stod);
    assert MemberAt(text, q, acc, stod) == MemberValue(text, end, key, acc, stod);
  }

  // ---------------------------------------------------------------------
  // The array loop
  // ---------------------------------------------------------------------

  /** A ',' right before the closing ']' is accepted. */
  lemma TrailingCommaInArray(text: string, pos: nat, arr: seq<Value>, stod: Stod)
    requires pos <= |text|
    requires var q := SkipIgnored(text, pos);
             Peek(text, q) == ',' && Peek(text, SkipIgnored(text, q + 1)) == ']'
    ensures var close := SkipIgnored(text, SkipIgnored(text, pos) + 1);
            ElementsAfterValue(text, pos, arr, stod) == Success(Parsed(arr, close + 1))
  {
  }

  /** An array whose text stops right after its '[' is read as the empty
      array. */
  lemma ArrayCutShort(text: string, pos: nat, stod: Stod)
    requires pos < |text| && text[pos] == '[' && SkipIgnored(text, pos + 1) == |text|
    ensures ParseArray(text, pos, stod) == Success(Parsed([], |text|))
  {
  }

  /** An array whose text stops after a ',' keeps the elements read so far
      and reports no error. */
  lemma ArrayCutShortAfterComma(text: string, pos: nat, arr: seq<Value>, stod: Stod)
    requires pos <= |text|
    requires var q := SkipIgnored(text, pos);
             Peek(text, q) == ',' && SkipIgnored(text, q + 1) == |text|
    ensures ElementsAfterValue(text, pos, arr, stod) == Success(Parsed(arr, |text|))
  {
  }

  /** An element followed by anything but a ',' or a ']' is an error. */
  lemma ElementWithoutSeparator(text: string, pos: nat, acc: seq<Value>, stod: Stod, v: Value, after: nat)
    requires pos < |text| && text[pos] != ']'
    requires ParseValue(text, pos, stod) == Success(Parsed(v, after))
    requires var q := SkipIgnored(text, after); Peek(text, q) != ',' && Peek(text, q) != ']'
    ensures ParseElements(text, pos, acc, stod) == Failure(ExpectedCommaOrBracket)
  {
    ElementStep(text, pos, acc, stod, v, after);
  }

  // ---------------------------------------------------------------------
  // Strings, literals and comments
  // ---------------------------------------------------------------------

  /** A backslash followed by anything but '"' or '\\' fails the string,
      whatever was read before it. */
  lemma {:induction false} UnsupportedEscapeFails(text: string, pos: nat, acc: string, i: nat)
    requires pos <= i && i + 1 < |text| && text[i] == '\\' && text[i + 1] != '"' && text[i + 1] != '\\'
    requires forall j | pos <= j < i :: text[j] != '"' && text[j] != '\\'
    ensures ParseChars(text, pos, acc) == Failure(UnsupportedEscape)
    decreases i - pos
  {
    if pos < i {
      UnsupportedEscapeFails(text, pos + 1, acc + [text[pos]], i);
    }
  }

  /** A string that is never closed is not an error: the scan stops at the
      end of the text with every character read. */
  lemma {:induction false} UnterminatedString(text: string, pos: nat, acc: string)
    requires pos <= |text|
    requires forall j | pos <= j < |text| :: text[j] != '"' && text[j] != '\\'
    ensures ParseChars(text, pos, acc) == Success(Parsed(acc + text[pos..], |text|))
    decreases |text| - pos
  {
    if pos < |text| {
      UnterminatedString(text, pos + 1, acc + [text[pos]]);
      assert acc + [text[pos]] + text[pos + 1..] == acc + text[pos..];
    } else {
      assert acc + text[pos..] == acc;
    }
  }

  /** An empty token (the cursor on neither an alphanumeric, a '.' nor a
      '-') is an invalid literal. */
  lemma EmptyTokenFails(text: string, pos: nat, stod: Stod)
    requires pos <= |text| && (pos == |text| || !IsLiteralChar(text[pos]))
    ensures ParseLiteral(text, pos, stod) == Failure(InvalidLiteral(""))
  {
    assert LiteralEnd(text, pos) == pos;
    assert text[pos..pos] == "";
    assert Stoi("") == None;
  }

  /** A token without '.' that is neither `true` nor `false` and starts
      with a letter has no numeric prefix: an invalid literal. */
  lemma NoNumericPrefixFails(text: string, pos: nat, stod: Stod)
    requires pos < |text| && IsAlnum(text[pos]) && !IsDigit(text[pos])
    requires var token := text[pos..LiteralEnd(text, pos)];
             token != "true" && token != "false" && '.' !in token
    ensures ParseLiteral(text, pos, stod) == Failure(InvalidLiteral(text[pos..LiteralEnd(text, pos)]))
  {
    var token := text[pos..LiteralEnd(text, pos)];
    assert token[0] == text[pos];
    assert SpaceRunEnd(token, 0) == 0;
    assert DigitRunEnd(token, 0) == 0;
    assert Stoi(token) == SignedDigits(token, 0, false);
  }

  /** A `//` inside a block comment is part of that comment: it does not
      open a line comment, so the skip stops on the first character after
      the block comment and its whitespace. */
  lemma LineOpenerInsideBlockComment()
    ensures SkipIgnored("/* // */ x\n", 0) == 9
  {
    var text := "/* // */ x\n";
    assert SkipBlock(text, 0) == 8 by {
      assert SkipBlock(text, 6) == 8;
      assert SkipBlock(text, 3) == SkipBlock(text, 6);
    }
    assert SkipIgnored(text, 8) == 9;
  }

  /** In a block comment opened by slash-star-slash, that star and the
      second slash already close it: the closing scan starts on the opening
      '/', not after the '*'. */
  lemma SlashStarSlashCloses(text: string, pos: nat)
    requires pos + 2 < |text| && text[pos] == '/' && text[pos + 1] == '*' && text[pos + 2] == '/'
    ensures SkipBlock(text, pos) == pos + 3
  {
    assert SkipBlock(text, pos) == SkipBlock(text, pos + 1);
  }

  /** A block comment that is never closed: its scan gives up on the last
      character of the text, which is left unskipped. */
  lemma {:induction false} UnclosedBlockComment(text: string, pos: nat)
    requires pos + 1 < |text| && text[pos] == '/' && text[pos + 1] == '*'
    requires forall j | pos <= j < |text| - 1 :: !CloserAt(text, j)
    ensures SkipBlock(text, pos) == |text| - 1
  {
    SkipBlockScan(text, pos);
  }

  /** So a text that opens a block comment, never closes it and ends in a
      '{' parses as the empty object: the brace that ends the comment's text
      is read as the opening of the object, and the end of the text ends it. */
  lemma UnclosedCommentBeforeBrace(text: string, stod: Stod)
    requires |text| >= 3 && text[0] == '/' && text[1] == '*' && text[|text| - 1] == '{'
    requires forall j | 0 <= j < |text| - 1 :: !CloserAt(text, j)
    ensures Parse(text, stod) == Success(Object(map[]))
  {
    var last := |text| - 1;
    UnclosedBlockComment(text, 0);
    SkipNothing(text, last);
    assert SkipIgnored(text, 0) == last;
    assert ParseObject(text, last, stod) == ParseMembers(text, |text|, map[], stod);
  }
}
