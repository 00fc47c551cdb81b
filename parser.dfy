/** `LightStruct::Parser`: a text buffer and a forward-only cursor `pos_`,
    advanced in place by the grammar routines. Every method is proved to
    compute what the corresponding function of `Grammar` computes: the same
    result and, on success, the same final cursor. */
module Parsing {
  import opened Wrappers
  import opened Values
  import opened Lexical
  import opened Grammar

  /** A method's result `r` and final cursor `pos` are those the grammar
      function produced. After a failure the cursor is of no interest: the
      exception abandons the parser. */
  predicate Agrees<T(==)>(r: Result<T, SyntaxError>, pos: nat, g: ParseResult<T>) {
    match g
    case Success(p) => r == Success(p.value) && pos == p.next
    case Failure(e) => r == Failure(e)
  }

  class Parser {
    const text: string
    const stod: Stod
    var pos: nat

    /** A parser over `text` with its cursor at the start. */
    constructor (text: string, stod: Stod)
      ensures this.text == text && this.stod == stod && pos == 0
    {
      this.text := text;
      this.stod := stod;
      pos := 0;
    }

    /** `text_[pos_]`. */
    function Current(): char
      reads this
    {
      Peek(text, pos)
    }

    /** `skipIgnored()` (lines 187-207). */
    method SkipIgnored()
      requires pos <= |text|
      modifies this
      ensures pos == Grammar.SkipIgnored(text, old(pos))
    {
      while pos < |text|
        invariant pos <= |text|
        invariant Grammar.SkipIgnored(text, pos) == Grammar.SkipIgnored(text, old(pos))
        decreases |text| - pos
      {
        if IsSpace(text[pos]) {
          pos := pos + 1;
        } else if text[pos] == '/' && pos + 1 < |text| && text[pos + 1] == '/' {
          ghost var start := pos;
          while pos < |text| && text[pos] != '\n'
            invariant start <= pos <= |text|
            invariant SkipLine(text, pos) == SkipLine(text, start)
            decreases |text| - pos
          {
            pos := pos + 1;
          }
        } else if text[pos] == '/' && pos + 1 < |text| && text[pos + 1] == '*' {
          ghost var start := pos;
          while pos + 1 < |text|
            invariant start <= pos <= |text|
            invariant SkipBlock(text, pos) == SkipBlock(text, start)
            decreases |text| - pos
          {
            if text[pos] == '*' && text[pos + 1] == '/' {
              pos := pos + 2;
              break;
            }
            pos := pos + 1;
          }
          assert pos == SkipBlock(text, start);
        } else {
          break;
        }
      }
    }

    /** `parseString()` (lines 247-268). */
    method ParseString() returns (r: Result<string, SyntaxError>)
      requires pos <= |text|
      modifies this
      ensures Agrees(r, pos, Grammar.ParseString(text, old(pos)))
    {
      if Current() != '"' {
        return Failure(ExpectedString);
      }
      pos := pos + 1;
      var acc := "";
      while pos < |text|
        invariant pos <= |text|
        invariant ParseChars(text, pos, acc) == Grammar.ParseString(text, old(pos))
        decreases |text| - pos
      {
        var c := text[pos];
        pos := pos + 1;
        if c == '"' {
          break;
        }
        if c == '\\' {
          if pos < |text| {
            var next := text[pos];
            pos := pos + 1;
            if next == '"' {
              acc := acc + ['"'];
            } else if next == '\\' {
              acc := acc + ['\\'];
            } else {
              return Failure(UnsupportedEscape);
            }
          }
        } else {
          acc := acc + [c];
        }
      }
      return Success(acc);
    }

    /** `parseLiteral()` (lines 317-336). */
    method ParseLiteral() returns (r: Result<Value, SyntaxError>)
      requires pos <= |text|
      modifies this
      ensures Agrees(r, pos, Grammar.ParseLiteral(text, old(pos), stod))
    {
      var start := pos;
      while pos < |text| && IsLiteralChar(text[pos])
        invariant start <= pos <= |text|
        invariant LiteralEnd(text, pos) == LiteralEnd(text, start)
        decreases |text| - pos
      {
        pos := pos + 1;
      }
      var token := text[start..pos];
      if token == "true" {
        return Success(Bool(true));
      }
      if token == "false" {
        return Success(Bool(false));
      }
      if '.' in token {
        match stod(token)
        case Some(d) => return Success(Double(d));
        case None => return Failure(InvalidLiteral(token));
      } else {
        match Stoi(token)
        case Some(i) => return Success(Int(i));
        case None => return Failure(InvalidLiteral(token));
      }
    }

    /** `parseValue()` (lines 270-288). */
    method ParseValue() returns (r: Result<Value, SyntaxError>)
      requires pos <= |text|
      modifies this
      ensures Agrees(r, pos, Grammar.ParseValue(text, old(pos), stod))
      decreases |text| - pos, 2
    {
      if pos >= |text| {
        return Failure(ExpectedValue);
      }
      if text[pos] == '"' {
        var s := ParseString();
        if s.Failure? {
          return Failure(s.error);
        }
        return Success(Str(s.value));
      } else if text[pos] == '{' {
        var obj := ParseObject();
        if obj.Failure? {
          return Failure(obj.error);
        }
        return Success(Object(obj.value));
      } else if text[pos] == '[' {
        var arr := ParseArray();
        if arr.Failure? {
          return Failure(arr.error);
        }
        return Success(Array(arr.value));
      } else {
        r := ParseLiteral();
      }
    }

    /** `parseObject()` (lines 209-245): each entry is stored with
        `obj[key] = value`, so a repeated key keeps its last value. */
    method ParseObject() returns (r: Result<map<string, Value>, SyntaxError>)
      requires pos <= |text|
      modifies this
      ensures Agrees(r, pos, Grammar.ParseObject(text, old(pos), stod))
      decreases |text| - pos, 1
    {
      if Current() != '{' {
        return Failure(ExpectedObject);
      }
      pos := pos + 1;
      SkipIgnored();
      var obj: map<string, Value> := map[];
      while pos < |text|
        invariant old(pos) < pos <= |text|
        invariant ParseMembers(text, pos, obj, stod) == Grammar.ParseObject(text, old(pos), stod)
        decreases |text| - pos
      {
        var entry, done := ParseMember(obj);
        if entry.Failure? {
          return Failure(entry.error);
        }
        obj := entry.value;
        if done {
          break;
        }
      }
      return Success(obj);
    }

    /** The body of the object loop (lines 217-242) on the entries `obj`
        read so far: skip, then either the closing '}' (`done`), or an entry
        and what follows it. */
    method ParseMember(obj: map<string, Value>) returns (r: Result<map<string, Value>, SyntaxError>, done: bool)
      requires pos < |text|
      modifies this
      ensures r.Success? ==> old(pos) < pos <= |text|
      ensures r.Success? && done ==> ParseMembers(text, old(pos), obj, stod) == Success(Parsed(r.value, pos))
      ensures r.Success? && !done ==> ParseMembers(text, old(pos), obj, stod) == ParseMembers(text, pos, r.value, stod)
      ensures r.Failure? ==> ParseMembers(text, old(pos), obj, stod) == Failure(r.error)
      decreases |text| - pos, 0
    {
      SkipIgnored();
      ghost var entryAt := pos;
      assert ParseMembers(text, old(pos), obj, stod) == MemberAt(text, entryAt, obj, stod);
      if Current() == '}' {
        pos := pos + 1;
        return Success(obj), true;
      }
      var key := ParseString();
      if key.Failure? {
        return Failure(key.error), false;
      }
      assert MemberAt(text, entryAt, obj, stod) == MemberValue(text, pos, key.value, obj, stod);
      r, done := ParseEntry(key.value, obj);
    }

    /** The body of the object loop after a key (lines 223-242): a ':', a
        value stored under `key`, and a ',' or a closing '}' (`done`). */
    method ParseEntry(key: string, obj: map<string, Value>) returns (r: Result<map<string, Value>, SyntaxError>, done: bool)
      requires pos <= |text|
      modifies this
      ensures r.Success? ==> old(pos) < pos <= |text|
      ensures r.Success? && done ==> MemberValue(text, old(pos), key, obj, stod) == Success(Parsed(r.value, pos))
      ensures r.Success? && !done ==> MemberValue(text, old(pos), key, obj, stod) == ParseMembers(text, pos, r.value, stod)
      ensures r.Failure? ==> MemberValue(text, old(pos), key, obj, stod) == Failure(r.error)
      decreases |text| - pos, 0
    {
      if Current() != ':' {
        return Failure(ExpectedColon), false;
      }
      pos := pos + 1;
      SkipIgnored();
      var value := ParseValue();
      if value.Failure? {
        return Failure(value.error), false;
      }
      var updated := obj[key := value.value];
      var closed := EndMember(updated);
      if closed.Failure? {
        return Failure(closed.error), false;
      }
      return Success(updated), closed.value;
    }

    /** The end of the body of the object loop (lines 230-242), after an
        entry: a ',' continues the loop, a '}' ends it (`closed`), anything
        else fails. */
    method EndMember(ghost obj: map<string, Value>) returns (closed: Result<bool, SyntaxError>)
      requires pos <= |text|
      modifies this
      ensures closed.Success? ==> old(pos) < pos <= |text|
      ensures closed == Success(true) ==> MembersAfterValue(text, old(pos), obj, stod) == Success(Parsed(obj, pos))
      ensures closed == Success(false) ==> MembersAfterValue(text, old(pos), obj, stod) == ParseMembers(text, pos, obj, stod)
      ensures closed.Failure? ==> MembersAfterValue(text, old(pos), obj, stod) == Failure(closed.error)
    {
      SkipIgnored();
      if Current() == ',' {
        pos := pos + 1;
        SkipIgnored();
        return Success(false);
      } else if Current() == '}' {
        pos := pos + 1;
        return Success(true);
      } else {
        return Failure(ExpectedCommaOrBrace);
      }
    }

    /** `parseArray()` (lines 290-315): elements are appended in order. */
    method ParseArray() returns (r: Result<seq<Value>, SyntaxError>)
      requires pos <= |text|
      modifies this
      ensures Agrees(r, pos, Grammar.ParseArray(text, old(pos), stod))
      decreases |text| - pos, 1
    {
      if Current() != '[' {
        return Failure(ExpectedArray);
      }
      pos := pos + 1;
      SkipIgnored();
      var arr: seq<Value> := [];
      while pos < |text|
        invariant old(pos) < pos <= |text|
        invariant ParseElements(text, pos, arr, stod) == Grammar.ParseArray(text, old(pos), stod)
        decreases |text| - pos
      {
        if text[pos] == ']' {
          pos := pos + 1;
          break;
        }
        var value := ParseValue();
        if value.Failure? {
          return Failure(value.error);
        }
        arr := arr + [value.value];
        var closed := EndElement(arr);
        if closed.Failure? {
          return Failure(closed.error);
        }
        if closed.value {
          break;
        }
      }
      return Success(arr);
    }

    /** The end of the body of the array loop (lines 301-312), after an
        element: a ',' continues the loop, a ']' ends it (`closed`),
        anything else fails. */
    method EndElement(ghost arr: seq<Value>) returns (closed: Result<bool, SyntaxError>)
      requires pos <= |text|
      modifies this
      ensures closed.Success? ==> old(pos) < pos <= |text|
      ensures closed == Success(true) ==> ElementsAfterValue(text, old(pos), arr, stod) == Success(Parsed(arr, pos))
      ensures closed == Success(false) ==> ElementsAfterValue(text, old(pos), arr, stod) == ParseElements(text, pos, arr, stod)
      ensures closed.Failure? ==> ElementsAfterValue(text, old(pos), arr, stod) == Failure(closed.error)
    {
      SkipIgnored();
      if Current() == ',' {
        pos := pos + 1;
        SkipIgnored();
        return Success(false);
      } else if Current() == ']' {
        pos := pos + 1;
        return Success(true);
      } else {
        return Failure(ExpectedCommaOrBracket);
      }
    }

    /** `parse()` (lines 182-185): ignored material, then one object read
        from the cursor on. */
    method Parse() returns (r: Result<Value, SyntaxError>)
      requires pos <= |text|
      modifies this
      ensures var g := Grammar.ParseObject(text, Grammar.SkipIgnored(text, old(pos)), stod);
              && (g.Success? ==> r == Success(Object(g.value.value)) && pos == g.value.next)
              && (g.Failure? ==> r == Failure(g.error))
      ensures old(pos) == 0 ==> r == Grammar.Parse(text, stod)
    {
      SkipIgnored();
      var obj := ParseObject();
      if obj.Failure? {
        return Failure(obj.error);
      }
      return Success(Object(obj.value));
    }
  }

  /** What `fromFile` does once the file's contents are in memory: a fresh
      parser over the text, then `parse()`. */
  method FromText(text: string, stod: Stod) returns (r: Result<Value, SyntaxError>)
    ensures r == Grammar.Parse(text, stod)
  {
    var parser := new Parser(text, stod);
    r := parser.Parse();
  }
}
