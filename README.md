# LightStruct in Dafny

`LightStruct` (one header, `LightStruct.h`) is a JSON-like document type. A
value holds one of six alternatives: `bool`, `int`, `double`, `std::string`,
an `Array` (a vector of values) or an `Object` (an unordered map from strings
to values). Keyed accessors (`getValue<T>` and `getBool` … `getObject`),
variant accessors (`asBool` … `asObject`) and `operator[]` read the tree.
`serialize()` writes it as compact text. The nested class `Parser` reads such
text back with a recursive-descent parser: a buffer `text_` and a forward-only
cursor `pos_`. The parser skips whitespace, `//` comments and `/* */`
comments, reads objects, arrays, strings with the escapes `\"` and `\\`, and
literals (`true`, `false`, integers, and tokens with a `.` handed to
`std::stod`).

The project is made of the following modules:

- `Wrappers` (`wrappers.dfy`): `Option` and `Result`.
- `Values` (`values.dfy`): the value as the datatype `Value`, and every
  accessor as a total function returning a `Result`. Each failure names the
  exception it replaces.
- `Lexical` (`lexical.dfy`):
  - the character classes of `std::isspace` and `isalnum` in the "C" locale;
  - `std::to_string(int)` as `ToString`;
  - `std::stoi`, restricted to the `int` range, as `Stoi`.
- `Serializer` (`serializer.dfy`): `serialize()` and `escapeString`, with
  `escapeString`'s loop as a method.
- `Grammar` (`grammar.dfy`): each parser routine as a function that threads
  the cursor through the text. Each `while` loop of the original becomes a
  tail-recursive function over the loop's variables. `Peek` yields NUL at the
  end of the text, as `std::string::operator[]` does at `size()`.
- `Parsing` (`parser.dfy`): the class `Parser`, with a `pos` field advanced
  in place by methods with `while` loops. Each method is proved to return
  what the `Grammar` function returns and to leave the cursor where it says.
- `ParseRules` (`rules.dfy`): the parser's rules for any text, covering:
  - repeated keys;
  - trailing commas;
  - text that stops early;
  - the position of the ':';
  - a missing separator;
  - escapes;
  - literals;
  - comments.
- `RoundTrip` (`roundtrip.dfy`): parsing the serialization of an object tree
  without `double`s gives the tree back.

Parameters stand for what the C++ standard library decides:
- `Format.order` is the iteration order of an `unordered_map`, as a function
  of the map's contents. It is required to list every key once.
- `Format.formatDouble` is `ostream << double` at precision 15.
- `Stod` is `std::stod`.

## Model

| member | source | states |
|---|---|---|
| Values.Default | LightStruct.h:16-22 | a default-constructed value holds the first alternative, `bool` false |
| Values.GetValue | LightStruct.h:45-55 | succeeds exactly when the value is an object, the key is present and the child holds the asked alternative; the result is that child; every other case is the one "type mismatch or missing key" error |
| Values.GetBool | LightStruct.h:57-59 | succeeds exactly on an object whose child under the key is a bool, returning its payload; otherwise the `getValue` error |
| Values.GetInt | LightStruct.h:61-63 | as `GetBool`, for an `int` child |
| Values.GetDouble | LightStruct.h:65-67 | as `GetBool`, for a `double` child |
| Values.GetString | LightStruct.h:69-71 | as `GetBool`, for a string child |
| Values.GetArray | LightStruct.h:73-75 | as `GetBool`, for an array child |
| Values.GetObject | LightStruct.h:77-79 | as `GetBool`, for an object child |
| Values.AsBool | LightStruct.h:85-87 | succeeds exactly when the active alternative is `bool`, returning its payload; otherwise `bad_variant_access` |
| Values.AsInt | LightStruct.h:89-91 | as `AsBool`, for `int` |
| Values.AsDouble | LightStruct.h:93-95 | as `AsBool`, for `double` |
| Values.AsStr | LightStruct.h:97-99 | as `AsBool`, for the string |
| Values.AsArray | LightStruct.h:101-103 | as `AsBool`, for the array |
| Values.AsObject | LightStruct.h:105-107 | as `AsBool`, for the object |
| Values.Child | LightStruct.h:81-83 | reading through `operator[]` gives the stored child exactly when the value is an object holding the key; a non-object is `bad_variant_access`, an absent key `out_of_range` |
| Values.SetChild | LightStruct.h:81-83 | assigning through `operator[]` succeeds on the same condition and changes only that one entry: same keys, the new child under the key, every other entry unchanged |
| Values.GetValueIsChildThenKind | LightStruct.h:45-55 | `getValue<T>(key)` succeeds exactly when navigating to the key succeeds and the child holds `T`, and then returns that child |
| Values.GetAfterSetChild | LightStruct.h:81-83 | after an assignment through the handle, `getValue` of that key returns the new child and every other key reads as before |
| Lexical.SpaceChars | LightStruct.h:190 | `std::isspace` in the "C" locale holds only for the space and the control characters from tab to carriage return |
| Lexical.AlnumChars | LightStruct.h:319 | `isalnum` in the "C" locale holds only for the ASCII digits and letters, none of them whitespace |
| Lexical.Stoi | LightStruct.h:331 | `std::stoi` succeeds only on text that holds a digit |
| Lexical.DecimalDenotes | LightStruct.h:149-151 | the decimal digits of a number are non-empty, have no leading zero and denote the number |
| Lexical.ToStringSign | LightStruct.h:149-151 | `to_string` writes a '-' exactly for negative numbers, followed by the digits of the magnitude, and nothing but digits otherwise |
| Lexical.StoiToString | LightStruct.h:331 | `stoi` undoes `to_string` for every `int` |
| Lexical.StoiUnsigned | LightStruct.h:331 | a bare run of digits converts to the number it denotes, and fails when that is out of the `int` range |
| Lexical.StoiNegative | LightStruct.h:331 | a '-' followed by digits converts to the negated number, and fails below the `int` range |
| Lexical.StoiNumericPrefix | LightStruct.h:331 | `stoi` reads only the numeric prefix: digits followed by a non-digit convert as the digits alone (`12ab` gives 12) |
| Serializer.SerializeDelimits | LightStruct.h:109-172 | `serialize()` writes an object between '{' and '}', an array between '[' and ']', a string between double quotes, and an `int` as text that `std::stoi` reads back as the same number |
| Serializer.EscapeLength | LightStruct.h:160-168 | `escapeString` adds at most one backslash per character: the result is at least as long as the input and at most twice as long |
| Serializer.EscapePlain | LightStruct.h:160-168 | a string holding neither '"' nor '\\' is written unchanged |
| Serializer.QuoteDelimits | LightStruct.h:141-143 | a string renders between two double quotes, with at most twice its own length between them |
| Serializer.EscapeString | LightStruct.h:160-168 | the loop of `escapeString` computes `Escape`: a backslash before every '"' and '\\', every other character copied |
| Serializer.EscapeAppend | LightStruct.h:160-168 | escaping works character by character, so it distributes over concatenation |
| Serializer.ArrayIsJoined | LightStruct.h:126-139 | an array renders as '[', the element renderings in order joined by single commas with no trailing comma, and ']' |
| Serializer.ElementsAreJoined | LightStruct.h:131-135 | the array loop with its `first` flag writes the renderings from element `i` on, each preceded by a comma except the very first |
| Serializer.ObjectIsJoined | LightStruct.h:111-124 | an object renders as '{', its `"key":value` entries in the map's iteration order (which lists every key once) joined by single commas, and '}' |
| Serializer.MembersAreJoined | LightStruct.h:116-120 | the object loop with its `first` flag writes the entries from the `i`-th key on, each preceded by a comma except the very first |
| Grammar.PeekReads | LightStruct.h:190-198 | `text_[pos_]` is the character under the cursor inside the text; any character other than NUL is seen only inside the text |
| Grammar.SkipLine | LightStruct.h:193-194 | the `//` scan stops on the first newline, or at the end of the text, never moving back |
| Grammar.SkipLineScan | LightStruct.h:193-194 | the `//` scan passes over no newline |
| Grammar.SkipBlock | LightStruct.h:197-203 | the block-comment scan never moves back and does not move when fewer than two characters remain |
| Grammar.SkipBlockScan | LightStruct.h:197-203 | the block-comment scan ends just after the first star-slash at or after the opening '/', or on the last character when there is none |
| Grammar.SkipIgnored | LightStruct.h:187-207 | `skipIgnored` never moves the cursor back and stops at the end of the text or on a character that starts neither whitespace nor a comment |
| Grammar.SkipIgnoredStopsOnScan | LightStruct.h:187-207 | `skipIgnored` stops at the head of an iteration of its own loop, reached from the start by whole whitespace and comment steps, never in the middle of a comment that is closed; a block comment that is never closed leaves its last character unskipped |
| Grammar.ScanStopUnique | LightStruct.h:187-207 | any stop of that loop that starts neither whitespace nor a comment is the position `skipIgnored` returns: it stops at the first such stop |
| Grammar.SkipIgnoredSkipsOnlyIgnored | LightStruct.h:187-207 | every character `skipIgnored` passes over is the whitespace character, or lies in the comment, that begins at one of its loop's own stops; so nothing outside a comment is skipped, and an opener inside an earlier comment opens nothing |
| Grammar.SkipIgnoredOverSpaces | LightStruct.h:189-191 | over a run of whitespace, `skipIgnored` stops exactly at the first character that neither is whitespace nor opens a comment |
| Grammar.ParseString | LightStruct.h:247-268 | a string starts on a '"' and ends past the cursor; its only failures are "not on a quote" and an unsupported escape |
| Grammar.ParseChars | LightStruct.h:252-266 | the string loop never moves back and can fail only on an unsupported escape |
| Grammar.LiteralEnd | LightStruct.h:319-320 | the token scan stops at the end of the text or on a character that is neither alphanumeric, '.' nor '-' |
| Grammar.LiteralEndScan | LightStruct.h:319-320 | the token holds only alphanumerics, '.' and '-' |
| Grammar.ParseLiteral | LightStruct.h:317-336 | a literal that succeeds moves the cursor forward |
| Grammar.ParseLiteralCases | LightStruct.h:317-336 | both directions: `true`/`false` give the bool; a token with '.' that `stod` accepts gives that double; any other token that `stoi` accepts gives that `int` (so `007` and `12ab` are `int`s); conversely every success is one of these; anything they reject is `InvalidLiteral(token)`; the cursor ends after the maximal token |
| Grammar.ParseValue | LightStruct.h:270-288 | a value that succeeds moves the cursor forward; at the end of the text there is no value |
| Grammar.ParseObject | LightStruct.h:209-245 | an object that succeeds moves the cursor forward; anything but '{' under the cursor is a failure |
| Grammar.ParseMembers | LightStruct.h:216-219 | the object loop never moves the cursor back |
| Grammar.MemberAt | LightStruct.h:219-221 | an iteration that starts on the closing '}' or an entry moves the cursor forward |
| Grammar.MemberValue | LightStruct.h:223-228 | after a key, the ':' and a stored value move the cursor forward |
| Grammar.MembersAfterValue | LightStruct.h:230-242 | after a value, the separator or the closing '}' moves the cursor forward |
| Grammar.ParseArray | LightStruct.h:290-315 | an array that succeeds moves the cursor forward; anything but '[' under the cursor is a failure |
| Grammar.ParseElements | LightStruct.h:297-300 | the array loop never moves the cursor back |
| Grammar.ElementsAfterValue | LightStruct.h:301-312 | after an element, the separator or the closing ']' moves the cursor forward |
| Grammar.Parse | LightStruct.h:182-185 | parsing succeeds only with an object, and only when the first character not skipped is '{'; otherwise it fails as "no object" |
| Parsing.Parser.constructor | LightStruct.h:39-40 | a parser starts on the given text with its cursor at 0 |
| Parsing.Parser.SkipIgnored | LightStruct.h:187-207 | the loop leaves the cursor where `Grammar.SkipIgnored` says |
| Parsing.Parser.ParseString | LightStruct.h:247-268 | the loop returns the string and final cursor of `Grammar.ParseString`, or its error |
| Parsing.Parser.ParseLiteral | LightStruct.h:317-336 | the token scan and conversion return what `Grammar.ParseLiteral` returns, with the same final cursor |
| Parsing.Parser.ParseValue | LightStruct.h:270-288 | the dispatch returns what `Grammar.ParseValue` returns, with the same final cursor |
| Parsing.Parser.ParseObject | LightStruct.h:209-245 | the object loop, building the map in place, returns what `Grammar.ParseObject` returns, with the same final cursor |
| Parsing.Parser.ParseMember | LightStruct.h:216-242 | one iteration of the object loop either closes the object, or reads an entry and leaves the rest of the loop to compute the same map, or fails as the loop would |
| Parsing.Parser.ParseEntry | LightStruct.h:223-242 | after a key, the ':', the value stored with `obj[key] = value` and the separator continue or end the loop as `Grammar.MemberValue` does |
| Parsing.Parser.EndMember | LightStruct.h:230-242 | after a value, a ',' continues the loop, a '}' ends it and anything else fails, as `Grammar.MembersAfterValue` does |
| Parsing.Parser.ParseArray | LightStruct.h:290-315 | the array loop, appending in place, returns what `Grammar.ParseArray` returns, with the same final cursor |
| Parsing.Parser.EndElement | LightStruct.h:301-312 | after an element, a ',' continues the loop, a ']' ends it and anything else fails, as `Grammar.ElementsAfterValue` does |
| Parsing.Parser.Parse | LightStruct.h:182-185 | `parse()` skips what is ignored, then reads one object; from a fresh parser this is `Grammar.Parse` |
| Parsing.FromText | LightStruct.h:39-41 | a fresh parser over the text, then `parse()`, gives `Grammar.Parse` of the text |
| ParseRules.DuplicateKeyLastWins | LightStruct.h:228 | of two entries with the same key, one after the other, only the second one's value is kept |
| ParseRules.EntryThenComma | LightStruct.h:217-233 | an entry followed by a ',' is stored, and the loop goes on after what is skipped |
| ParseRules.TrailingCommaInObject | LightStruct.h:231-234 | a ',' right before the closing '}' is accepted and ends the object with the entries read |
| ParseRules.ObjectCutShort | LightStruct.h:209-216 | an object whose text stops after its '{' is read, without error, as the empty object |
| ParseRules.ObjectCutShortAfterComma | LightStruct.h:216 | an object whose text stops after a ',' keeps the entries read so far, without error |
| ParseRules.EntryWithoutSeparator | LightStruct.h:240-242 | an entry followed by anything but ',' or '}' fails with "Expected ',' or '}'" |
| ParseRules.ColonRightAfterKey | LightStruct.h:221-223 | the ':' must follow the key's closing quote directly: anything else there, even a space, fails with "Expected ':'" |
| ParseRules.TrailingCommaInArray | LightStruct.h:302-304 | a ',' right before the closing ']' is accepted and ends the array with the elements read |
| ParseRules.ArrayCutShort | LightStruct.h:290-297 | an array whose text stops after its '[' is read, without error, as the empty array |
| ParseRules.ArrayCutShortAfterComma | LightStruct.h:297 | an array whose text stops after a ',' keeps the elements read so far, without error |
| ParseRules.ElementWithoutSeparator | LightStruct.h:310-312 | an element followed by anything but ',' or ']' fails with "Expected ',' or ']'" |
| ParseRules.UnsupportedEscapeFails | LightStruct.h:255-260 | a backslash followed by anything but '"' or '\\' fails the string, whatever was read before it |
| ParseRules.UnterminatedString | LightStruct.h:252-267 | a string that is never closed and whose rest holds no backslash is no error: every character up to the end of the text is read |
| ParseRules.EmptyTokenFails | LightStruct.h:318-335 | an empty token is an invalid literal |
| ParseRules.NoNumericPrefixFails | LightStruct.h:324-335 | a token that starts with a letter and is neither `true`, `false` nor holds a '.' has no numeric prefix and is an invalid literal |
| ParseRules.LineOpenerInsideBlockComment | LightStruct.h:187-207 | a `//` inside a block comment opens nothing: on `/* // */ x` and a newline, the skip stops on the `x` |
| ParseRules.SlashStarSlashCloses | LightStruct.h:197-203 | in a block comment opened by slash-star-slash, that star and the second slash already close it |
| ParseRules.UnclosedBlockComment | LightStruct.h:196-203 | the scan of a block comment that has no star-slash after its opener stops on the last character of the text, which is not skipped |
| ParseRules.UnclosedCommentBeforeBrace | LightStruct.h:182-216 | a text that opens a block comment, never closes it and ends in '{' parses as the empty object |
| RoundTrip.CharsRoundTrip | LightStruct.h:252-266 | the string loop, run over `escapeString(s)` followed by a '"', reads back exactly `s` and stops after the quote |
| RoundTrip.StringRoundTrip | LightStruct.h:247-268 | `parseString` on `"` + `escapeString(s)` + `"` returns exactly `s` and leaves the cursor just after the closing quote |
| RoundTrip.RenderingStart | LightStruct.h:141-151 | every rendering without `double`s is non-empty, and its first character tells the alternative: '"' a string, '{' an object, '[' an array, and never whitespace, '/', ']' or '}' |
| RoundTrip.BoolRoundTrip | LightStruct.h:145-147 | `parseLiteral` on a rendered bool, followed by a non-token character, reads back the bool |
| RoundTrip.IntRoundTrip | LightStruct.h:149-151 | `parseLiteral` on a rendered `int`, followed by a non-token character, reads back the `int` |
| RoundTrip.LiteralRoundTrip | LightStruct.h:317-336 | `parseLiteral` reads back every rendered bool and `int` and stops right after it |
| Grammar.ElementStep | LightStruct.h:298-300 | an array-loop iteration that reads a value appends it and goes on right after it |
| Grammar.AfterElement | LightStruct.h:301-309 | right after an element, a ']' ends the array and a ',' continues the loop after what is skipped |
| Grammar.EntryStep | LightStruct.h:217-228 | an object-loop iteration that reads a key, a ':' and a value stores the entry and goes on right after the value |
| Grammar.AfterEntry | LightStruct.h:230-239 | right after an entry, a '}' ends the object and a ',' continues the loop after what is skipped |
| RoundTrip.ElementsLoop | LightStruct.h:297-313 | the array loop over comma-joined renderings appends every element in order and stops after the ']' |
| RoundTrip.MembersLoop | LightStruct.h:216-243 | the object loop over comma-joined entries stores every key's value in order and stops after the '}' |
| RoundTrip.ValueRoundTrip | LightStruct.h:270-288 | `parseValue` on a rendering without `double`s returns the rendered value and stops right after the rendering |
| RoundTrip.ArrayRoundTrip | LightStruct.h:290-315 | `parseArray` on a rendered array returns its elements and stops after the ']' |
| RoundTrip.ElementsRoundTrip | LightStruct.h:297-313 | the array loop, entered on the renderings of a non-empty array, returns all its elements |
| RoundTrip.ObjectRoundTrip | LightStruct.h:209-245 | `parseObject` on a rendered object returns the same map, whatever order the keys were written in |
| RoundTrip.EntriesRoundTrip | LightStruct.h:216-243 | the object loop, entered on the entries of a non-empty object, returns the whole map |
| RoundTrip.StoreAll | LightStruct.h:228 | storing the values of distinct keys one after another gives back the map they came from |
| RoundTrip.SerializeThenParse | LightStruct.h:109-172 | for every object tree without `double`s, parsing `serialize()`'s text gives the same tree, objects compared as maps |

## Left out

- `fromFile` (lines 32-43): the file is not read. `Parsing.FromText` takes
  the text that `fromFile` would have read.
- The demonstration program `usage.cpp` is not part of this model: it only
  prints.
- Floating-point conversion:
  - `ostream << double` at precision 15 is the parameter
    `Format.formatDouble`, and `std::stod` is the parameter `Stod`.
  - The payload of `Double` is an opaque 64-bit pattern.
  - The only modelled fact is that a token holding a '.' goes to `std::stod`.
- RoundTrip.SerializeThenParse: excludes trees holding a `double`, because
  the text of a double depends on the platform's formatting.
- The iteration order of `std::unordered_map` is the parameter
  `Format.order`, required to list every key once. Because it is a function
  of the map's contents, equal maps are always written in the same order.
  A real `std::unordered_map` may iterate two equal maps differently, since
  its order also depends on bucket count and insertion history; the model
  does not capture that. `RoundTrip.SerializeThenParse` holds for every
  valid order, so this restriction does not weaken it.
- Locales: `std::isspace` and `isalnum` are their "C" locale (ASCII)
  definitions.
- `std::stoi` is modelled on the tokens `parseLiteral` can hand it, with
  these rules:
  - leading whitespace is skipped;
  - one sign is allowed;
  - the longest digit run is read;
  - "no digits" and "out of the `int` range" both fail.
- Exceptions:
  - every exception (`runtime_error`, `bad_optional_access`,
    `bad_variant_access`, `out_of_range`) is a `Failure` carrying the
    reason;
  - after a failure the parser's cursor is not specified, since the
    exception abandons the parser.
- `operator[]` returns a mutable reference into the tree. The model splits it
  into a read (`Values.Child`) and an assignment through the handle
  (`Values.SetChild`), both on values. Aliasing of the reference is not
  captured.
- The loops of `parseObject` and `parseArray` are written as `while` loops in
  `Parser`, with their bodies factored into the methods `ParseMember`,
  `ParseEntry`, `EndMember` and `EndElement`. In `Grammar`, each loop
  iteration is split at the same points into `ParseMembers`, `MemberAt`,
  `MemberValue` and `MembersAfterValue`, and into `ParseElements` and
  `ElementsAfterValue`.
- Grammar.SkipLine: the `//` scan at lines 193-194 has no bound and, on a
  comment without a newline, reads past the end of the buffer. The model
  stops it at the end of the text. This divergence is deliberate.
- Two behaviours of the code that a reader might not expect, modelled as
  written:
  - an unterminated string holding no backslash returns what was read
    (`ParseRules.UnterminatedString`);
  - `getValue` raises one error for a non-object, a missing key and a wrong
    alternative (`Values.GetValue`).
  - a block comment that is never closed stops the skip on the last
    character of the text, so a text such as `/* {` parses as the empty
    object (`ParseRules.UnclosedBlockComment`,
    `ParseRules.UnclosedCommentBeforeBrace`).
- The copy constructor and the converting constructors (lines 23-30) are the
  constructors of the datatype `Value`.
