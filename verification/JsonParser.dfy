/** The parser of `json.rs` as it runs: an index into the input, a depth and a value count. */
module JsonParser {
  import opened Wrappers
  import opened JsonText
  import opened Json
  import J = JsonValue
  import Utf8

  class Parser {
    const input: string
    const nulls: bool
    var index: nat
    var depth: nat
    var values: nat

    constructor (input: string, nulls: bool)
      ensures this.input == input && this.nulls == nulls
      ensures Valid() && Left() == input && depth == 0 && values == 0
    {
      this.input, this.nulls := input, nulls;
      index, depth, values := 0, 0, 0;
    }

    ghost predicate Valid()
      reads this
    {
      index <= |input|
    }

    /** The text that has not been read. */
    ghost function Left(): string
      requires Valid()
      reads this
    {
      input[index..]
    }

    method Peek() returns (c: Option<char>)
      requires Valid()
      ensures c == if Left() == [] then None else Some(Left()[0])
    {
      return if index < |input| then Some(input[index]) else None;
    }

    method AtEnd() returns (end: bool)
      requires Valid()
      ensures end <==> Left() == []
    {
      return index == |input|;
    }

    /** `next_char`, and `self.index += 1` on a known character. */
    method NextChar() returns (r: Result<char, Error>)
      requires Valid()
      modifies this`index
      ensures Valid()
      ensures old(Left()) == [] ==> r == Err(UnexpectedEnd) && Left() == old(Left())
      ensures old(Left()) != [] ==> r == Ok(old(Left())[0]) && Left() == old(Left())[1..]
    {
      if index == |input| {
        return Err(UnexpectedEnd);
      }
      index := index + 1;
      return Ok(input[index - 1]);
    }

    method Advance()
      requires Valid() && Left() != []
      modifies this`index
      ensures Valid() && Left() == old(Left())[1..]
    {
      index := index + 1;
    }

    method SkipWs()
      requires Valid()
      modifies this`index
      ensures Valid() && Left() == SkipBlank(old(Left()))
    {
      while index < |input| && IsSpace(input[index])
        invariant Valid() && SkipBlank(Left()) == SkipBlank(old(Left()))
      {
        assert Left()[1..] == input[index + 1..];
        index := index + 1;
      }
    }

    // -------------------------------------------------------------- strings

    method ParseHex() returns (r: Result<nat, Error>)
      requires Valid()
      modifies this`index
      ensures Valid()
      ensures match ReadHex(old(Left()))
              case Ok((d, rest)) => r == Ok(d) && Left() == rest
              case Err(error) => r == Err(error)
    {
      var c :- NextChar();
      return match HexValue(c) case Some(d) => Ok(d) case None => Err(BadHex);
    }

    /** `parse_hex4`, its loop written out. */
    method ParseHex4() returns (r: Result<nat, Error>)
      requires Valid()
      modifies this`index
      ensures Valid()
      ensures match ReadHex4(old(Left()))
              case Ok((unit, rest)) => r == Ok(unit) && Left() == rest
              case Err(error) => r == Err(error)
    {
      hide ReadHex;
      var value := 0;
      var a :- ParseHex();
      value := value * 16 + a;
      var b :- ParseHex();
      value := value * 16 + b;
      var c :- ParseHex();
      value := value * 16 + c;
      var d :- ParseHex();
      value := value * 16 + d;
      return Ok(value);
    }

    method ParseUnicode() returns (r: Result<char, Error>)
      requires Valid()
      modifies this`index
      ensures Valid()
      ensures match ReadUnicode(old(Left()))
              case Ok((c, rest)) => r == Ok(c) && Left() == rest
              case Err(error) => r == Err(error)
    {
      hide ReadHex4;
      var unit :- ParseHex4();
      if HighSurrogate(unit) {
        var next := Peek();
        if next != Some('\\') {
          return Err(LoneSurrogate);
        }
        ghost var s := Left();
        Advance();
        var u :- NextChar();
        if u != 'u' {
          return Err(LoneSurrogate);
        }
        assert Left() == s[2..];
        var low :- ParseHex4();
        return if LowSurrogate(low) then Ok(Combine(unit, low)) else Err(LoneSurrogate);
      }
      return if LowSurrogate(unit) then Err(LoneSurrogate) else Ok(unit as char);
    }

    method ParseEscape() returns (r: Result<char, Error>)
      requires Valid()
      modifies this`index
      ensures Valid()
      ensures match ReadEscape(old(Left()))
              case Ok((c, rest)) => r == Ok(c) && Left() == rest
              case Err(error) => r == Err(error)
    {
      hide ReadUnicode;
      var c :- NextChar();
      if c == 'u' {
        r := ParseUnicode();
        return;
      }
      return match Short(c) case Some(e) => Ok(e) case None => Err(BadEscape);
    }

    /** `parse_string`, from the opening quote. */
    method ParseString() returns (r: Result<string, Error>)
      requires Valid() && StartsWith(Left(), '"')
      modifies this`index
      ensures Valid()
      ensures match ReadString(old(Left())[1..])
              case Ok((text, rest)) => r == Ok(text) && Left() == rest
              case Err(error) => r == Err(error)
    {
      hide ReadEscape, Utf8.Encode;
      Advance();
      ghost var start := Left();
      var out := "";
      NoChars(start);
      while true
        invariant Valid() && ReadChars(start) == PrependChars(out, ReadChars(Left()))
        decreases |Left()|
      {
        var next := Peek();
        if next.None? {
          return Err(Unterminated);
        }
        var ch := next.value;
        ghost var at := Left();
        CharsStep(at, out);
        Advance();
        if ch == '"' {
          if |Utf8.Encode(out)| > MAX_STRING {
            return Err(StringTooLong);
          }
          return Ok(out);
        } else if ch == '\\' {
          var c :- ParseEscape();
          out := out + [c];
        } else if ch < ' ' {
          return Err(ControlCharacter);
        } else {
          out := out + [ch];
        }
      }
    }

    // -------------------------------------------------------------- scalars

    method ParseNumber() returns (r: Result<nat, Error>)
      requires Valid() && Left() != [] && IsDigit(Left()[0])
      modifies this`index
      ensures Valid()
      ensures match ReadNumber(old(Left()))
              case Ok((n, rest)) => r == Ok(n) && Left() == rest
              case Err(error) => r == Err(error)
    {
      hide FromDecimal, DigitValue;
      ghost var s := Left();
      var start := index;
      if input[index] == '0' {
        index := index + 1;
        ZeroRun(s);
        if index < |input| && IsDigit(input[index]) {
          return Err(LeadingZero);
        }
      } else {
        while index < |input| && IsDigit(input[index])
          invariant start <= index <= |input|
          invariant DigitRun(s) == index - start + DigitRun(Left())
        {
          assert Left()[1..] == input[index + 1..];
          index := index + 1;
        }
      }
      assert index - start == DigitRun(s);
      SplitRun(start, index);
      if index < |input| && NumberTail(input[index]) {
        return Err(NotInteger);
      }
      var value := FromDecimal(input[start..index]);
      return if value >= TWO_64 then Err(IntegerTooLarge) else Ok(value);
    }

    lemma SplitRun(start: nat, end: nat)
      requires start <= end <= |input|
      ensures input[start..end] == input[start..][..end - start] && input[end..] == input[start..][end - start..]
    {
    }

    /** `consume`, then `reject_ident_tail`. */
    method ParseLiteral(literal: string) returns (r: Outcome<Error>)
      requires Valid()
      modifies this`index
      ensures Valid()
      ensures match ReadLiteral(old(Left()), literal)
              case Ok(rest) => r == Pass && Left() == rest
              case Err(error) => r == Fail(error)
    {
      if !(literal <= input[index..]) {
        return Fail(InvalidLiteral);
      }
      ghost var s := Left();
      index := index + |literal|;
      assert Left() == s[|literal|..];
      if index < |input| && IdentTail(input[index]) {
        return Fail(InvalidLiteral);
      }
      return Pass;
    }

    // -------------------------------------------------------------- values

    /** `parse_value`. */
    method ParseValue() returns (r: Result<J.Json, Error>)
      requires Valid() && depth <= MAX_DEPTH
      modifies this
      ensures Valid()
      ensures match ReadValue(old(Left()), old(depth), old(values), nulls)
              case Ok(p) => r == Ok(p.value) && Left() == p.rest && values == p.values && depth == old(depth)
              case Err(error) => r == Err(error)
      decreases |input| - index, 1
    {
      hide ReadNumber, ReadString, ReadLiteral, ReadArray, ReadObject;
      SkipWs();
      values := values + 1;
      if values > MAX_VALUES {
        return Err(TooManyValues);
      }
      var first := Peek();
      if first.None? {
        return Err(InvalidValue);
      }
      ghost var t := Left();
      var c := first.value;
      if c == 'n' {
        if !("null" <= input[index..]) {
          return Err(InvalidLiteral);
        }
        if !nulls {
          return Err(NullNotAllowed);
        }
        var literal := ParseLiteral("null");
        return match literal case Pass => Ok(J.Null) case Fail(error) => Err(error);
      } else if c == 't' {
        var literal := ParseLiteral("true");
        return match literal case Pass => Ok(J.Bool(true)) case Fail(error) => Err(error);
      } else if c == 'f' {
        var literal := ParseLiteral("false");
        return match literal case Pass => Ok(J.Bool(false)) case Fail(error) => Err(error);
      } else if c == '"' {
        var text :- ParseString();
        return Ok(J.String(text));
      } else if c == '[' {
        r := ParseArray();
      } else if c == '{' {
        r := ParseObject();
      } else if IsDigit(c) {
        var n :- ParseNumber();
        return Ok(J.Integer(n));
      } else {
        return if c == '-' then Err(NegativeNumber) else Err(InvalidValue);
      }
    }

    method ParseArray() returns (r: Result<J.Json, Error>)
      requires Valid() && StartsWith(Left(), '[') && depth <= MAX_DEPTH
      modifies this
      ensures Valid()
      ensures match ReadArray(old(Left())[1..], old(depth) + 1, old(values), nulls)
              case Ok(p) => r == Ok(p.value) && Left() == p.rest && values == p.values && depth == old(depth)
              case Err(error) => r == Err(error)
      decreases |input| - index, 0
    {
      hide ReadItems, SkipBlank;
      Advance();
      depth := depth + 1;
      if depth > MAX_DEPTH {
        return Err(TooDeep);
      }
      SkipWs();
      var first := Peek();
      if first == Some(']') {
        Advance();
        depth := depth - 1;
        return Ok(J.Array([]));
      }
      var items :- ParseItems();
      depth := depth - 1;
      return Ok(J.Array(items));
    }

    /** The loop of `parse_array`, to the closing bracket. */
    method ParseItems() returns (r: Result<seq<J.Json>, Error>)
      requires Valid() && depth <= MAX_DEPTH
      modifies this
      ensures Valid()
      ensures match ReadItems(old(Left()), old(depth), old(values), nulls)
              case Ok(p) => r == Ok(p.value) && Left() == p.rest && values == p.values && depth == old(depth)
              case Err(error) => r == Err(error)
      decreases |input| - index, 2
    {
      hide ReadValue, ReadItems, SkipBlank, PrependItems;
      r := Ok([]);
      var items: seq<J.Json> := [];
      NoItemsYet(ReadItems(Left(), depth, values, nulls));
      while true
        invariant Valid() && old(index) <= index && depth == old(depth)
        invariant ReadItems(old(Left()), depth, old(values), nulls) ==
                  PrependItems(items, ReadItems(Left(), depth, values, nulls))
        decreases |input| - index
      {
        ItemStep(Left(), depth, values, nulls, items);
        var item :- ParseValue();
        items := items + [item];
        SkipWs();
        var next := Peek();
        if next == Some(']') {
          Advance();
          return Ok(items);
        }
        if next != Some(',') {
          return Err(NotClosed);
        }
        Advance();
        SkipWs();
        var after := Peek();
        if after == Some(']') {
          return Err(TrailingComma);
        }
      }
    }

    method ParseKey(keys: set<string>) returns (r: Result<string, Error>)
      requires Valid()
      modifies this`index
      ensures Valid()
      ensures match ReadKey(old(Left()), keys)
              case Ok((key, rest)) => r == Ok(key) && Left() == rest
              case Err(error) => r == Err(error)
    {
      hide ReadString, Utf8.Encode;
      SkipWs();
      var first := Peek();
      if first != Some('"') {
        return Err(KeyNotString);
      }
      var key :- ParseString();
      if |Utf8.Encode(key)| > MAX_KEY {
        return Err(KeyTooLong);
      }
      if key in keys {
        return Err(DuplicateKey);
      }
      SkipWs();
      var colon := Peek();
      if colon != Some(':') {
        return Err(MissingColon);
      }
      Advance();
      return Ok(key);
    }

    method ParseObject() returns (r: Result<J.Json, Error>)
      requires Valid() && StartsWith(Left(), '{') && depth <= MAX_DEPTH
      modifies this
      ensures Valid()
      ensures match ReadObject(old(Left())[1..], old(depth) + 1, old(values), nulls)
              case Ok(p) => r == Ok(p.value) && Left() == p.rest && values == p.values && depth == old(depth)
              case Err(error) => r == Err(error)
      decreases |input| - index, 0
    {
      hide ReadMembers, SkipBlank;
      Advance();
      depth := depth + 1;
      if depth > MAX_DEPTH {
        return Err(TooDeep);
      }
      SkipWs();
      var first := Peek();
      if first == Some('}') {
        Advance();
        depth := depth - 1;
        return Ok(J.Object([]));
      }
      var members :- ParseMembers();
      depth := depth - 1;
      return Ok(J.Object(members));
    }

    /** The loop of `parse_object`, to the closing brace; a key that has been seen is refused. */
    method ParseMembers() returns (r: Result<seq<J.Member>, Error>)
      requires Valid() && depth <= MAX_DEPTH
      modifies this
      ensures Valid()
      ensures match ReadMembers(old(Left()), old(depth), old(values), nulls, {})
              case Ok(p) => r == Ok(p.value) && Left() == p.rest && values == p.values && depth == old(depth)
              case Err(error) => r == Err(error)
      decreases |input| - index, 2
    {
      hide ReadValue, ReadMembers, ReadKey, SkipBlank, PrependMembers;
      r := Ok([]);
      var members: seq<J.Member> := [];
      var keys: set<string> := {};
      NoMembersYet(ReadMembers(Left(), depth, values, nulls, {}));
      while true
        invariant Valid() && old(index) <= index && depth == old(depth)
        invariant ReadMembers(old(Left()), depth, old(values), nulls, {}) ==
                  PrependMembers(members, ReadMembers(Left(), depth, values, nulls, keys))
        decreases |input| - index
      {
        MemberStep(Left(), depth, values, nulls, keys, members);
        KeyConsumes(Left(), keys);
        var key :- ParseKey(keys);
        var value :- ParseValue();
        members := members + [J.Member(key, value)];
        keys := keys + {key};
        SkipWs();
        var next := Peek();
        if next == Some('}') {
          Advance();
          return Ok(members);
        }
        if next != Some(',') {
          return Err(NotClosed);
        }
        Advance();
        SkipWs();
        var after := Peek();
        if after == Some('}') {
          return Err(TrailingComma);
        }
      }
    }
  }

  /** `parse_json`. */
  method ParseJson(text: string, nulls: bool) returns (r: Result<J.Json, Error>)
    ensures r == Parse(text, nulls)
  {
    hide *;
    ParseIs(text, nulls);
    if |Utf8.Encode(text)| > MAX_BYTES {
      return Err(TooLarge);
    }
    if StartsWith(text, BOM) {
      return Err(ByteOrderMark);
    }
    var parser := new Parser(text, nulls);
    parser.SkipWs();
    r := parser.ParseValue();
    if r.Err? {
      return;
    }
    parser.SkipWs();
    var done := parser.AtEnd();
    return if !done then Err(TrailingData) else r;
  }

  lemma ParseIs(text: string, nulls: bool)
    ensures |Utf8.Encode(text)| > MAX_BYTES ==> Parse(text, nulls) == Err(TooLarge)
    ensures |Utf8.Encode(text)| <= MAX_BYTES && StartsWith(text, BOM) ==> Parse(text, nulls) == Err(ByteOrderMark)
    ensures |Utf8.Encode(text)| <= MAX_BYTES && !StartsWith(text, BOM) ==>
              var r := ReadValue(SkipBlank(text), 0, 0, nulls);
              && (r.Err? ==> Parse(text, nulls) == Err(r.error))
              && (r.Ok? ==>
                    Parse(text, nulls) ==
                    if SkipBlank(r.value.rest) != [] then Err(TrailingData) else Ok(r.value.value))
  {
    hide ReadValue, Utf8.Encode, SkipBlank, StartsWith;
  }

  // ---------------------------------------------------------------- the loops

  function PrependChars(done: string, rest: Read<string>): Read<string> {
    match rest
    case Ok((cs, left)) => Ok((done + cs, left))
    case Err(error) => Err(error)
  }

  lemma NoChars(s: string)
    ensures PrependChars([], ReadChars(s)) == ReadChars(s)
  {
    if ReadChars(s).Ok? {
      assert [] + ReadChars(s).value.0 == ReadChars(s).value.0;
    }
  }

  /** What one turn of the loop over a string leaves to read. */
  function AfterChar(s: string, done: string): Read<string>
    requires s != []
  {
    if s[0] == '"' then Ok((done, s[1..]))
    else if s[0] == '\\' then
      var (c, rest) :- ReadEscape(s[1..]);
      PrependChars(done + [c], ReadChars(rest))
    else if s[0] < ' ' then Err(ControlCharacter)
    else PrependChars(done + [s[0]], ReadChars(s[1..]))
  }

  lemma CharsStep(s: string, done: string)
    requires s != []
    ensures PrependChars(done, ReadChars(s)) == AfterChar(s, done)
  {
    hide ReadEscape;
    assert done + [] == done;
    if s[0] == '\\' && ReadEscape(s[1..]).Ok? {
      OneChar(done, ReadEscape(s[1..]).value.0, ReadChars(ReadEscape(s[1..]).value.1));
    } else if s[0] != '\\' {
      OneChar(done, s[0], ReadChars(s[1..]));
    }
  }

  lemma OneChar(done: string, c: char, rest: Read<string>)
    ensures rest.Ok? ==> done + ([c] + rest.value.0) == done + [c] + rest.value.0
  {
  }

  lemma ZeroRun(s: string)
    requires s != [] && s[0] == '0'
    ensures DigitRun(s) > 1 <==> |s| > 1 && IsDigit(s[1])
    ensures DigitRun(s) >= 1
  {
  }

  function PrependItems(done: seq<J.Json>, rest: Result<Parsed<seq<J.Json>>, Error>)
    : Result<Parsed<seq<J.Json>>, Error>
  {
    match rest
    case Ok(p) => Ok(Parsed(done + p.value, p.rest, p.values))
    case Err(error) => Err(error)
  }

  lemma NoItemsYet(rest: Result<Parsed<seq<J.Json>>, Error>)
    ensures PrependItems([], rest) == rest
  {
    if rest.Ok? {
      assert [] + rest.value.value == rest.value.value;
    }
  }

  /** What one turn of the loop over an array leaves to read. */
  function AfterItem(s: string, depth: nat, values: nat, nulls: bool, done: seq<J.Json>)
    : Result<Parsed<seq<J.Json>>, Error>
  {
    var p :- ReadValue(s, depth, values, nulls);
    var t := SkipBlank(p.rest);
    if StartsWith(t, ',') then
      var u := SkipBlank(t[1..]);
      if StartsWith(u, ']') then Err(TrailingComma)
      else PrependItems(done + [p.value], ReadItems(u, depth, p.values, nulls))
    else if StartsWith(t, ']') then Ok(Parsed(done + [p.value], t[1..], p.values))
    else Err(NotClosed)
  }

  lemma ItemStep(s: string, depth: nat, values: nat, nulls: bool, done: seq<J.Json>)
    ensures PrependItems(done, ReadItems(s, depth, values, nulls)) == AfterItem(s, depth, values, nulls, done)
  {
    hide ReadValue, SkipBlank;
    var v := ReadValue(s, depth, values, nulls);
    if v.Ok? {
      var t := SkipBlank(v.value.rest);
      if StartsWith(t, ',') {
        var q := ReadItems(SkipBlank(t[1..]), depth, v.value.values, nulls);
        if q.Ok? {
          assert done + ([v.value.value] + q.value.value) == done + [v.value.value] + q.value.value;
        }
      }
    }
  }

  function PrependMembers(done: seq<J.Member>, rest: Result<Parsed<seq<J.Member>>, Error>)
    : Result<Parsed<seq<J.Member>>, Error>
  {
    match rest
    case Ok(p) => Ok(Parsed(done + p.value, p.rest, p.values))
    case Err(error) => Err(error)
  }

  lemma NoMembersYet(rest: Result<Parsed<seq<J.Member>>, Error>)
    ensures PrependMembers([], rest) == rest
  {
    if rest.Ok? {
      assert [] + rest.value.value == rest.value.value;
    }
  }

  lemma KeyConsumes(s: string, keys: set<string>)
    ensures ReadKey(s, keys).Ok? ==> |ReadKey(s, keys).value.1| < |s|
  {
  }

  /** What one turn of the loop over an object leaves to read. */
  function AfterMember(s: string, depth: nat, values: nat, nulls: bool, keys: set<string>, done: seq<J.Member>)
    : Result<Parsed<seq<J.Member>>, Error>
  {
    var (key, s1) :- ReadKey(s, keys);
    var p :- ReadValue(s1, depth, values, nulls);
    var t := SkipBlank(p.rest);
    if StartsWith(t, ',') then
      var u := SkipBlank(t[1..]);
      if StartsWith(u, '}') then Err(TrailingComma)
      else PrependMembers(done + [J.Member(key, p.value)], ReadMembers(u, depth, p.values, nulls, keys + {key}))
    else if StartsWith(t, '}') then Ok(Parsed(done + [J.Member(key, p.value)], t[1..], p.values))
    else Err(NotClosed)
  }

  lemma MemberStep(s: string, depth: nat, values: nat, nulls: bool, keys: set<string>, done: seq<J.Member>)
    ensures PrependMembers(done, ReadMembers(s, depth, values, nulls, keys)) ==
            AfterMember(s, depth, values, nulls, keys, done)
  {
    hide ReadValue, ReadKey, SkipBlank;
    if ReadKey(s, keys).Ok? {
      var (key, s1) := ReadKey(s, keys).value;
      var v := ReadValue(s1, depth, values, nulls);
      if v.Ok? {
        var t := SkipBlank(v.value.rest);
        if StartsWith(t, ',') {
          var q := ReadMembers(SkipBlank(t[1..]), depth, v.value.values, nulls, keys + {key});
          if q.Ok? {
            var member := J.Member(key, v.value.value);
            assert done + ([member] + q.value.value) == done + [member] + q.value.value;
          }
        }
      }
    }
  }
}
