/** `yaml.rs` as it runs: the scanning loops, and a parser with a line index and a depth. */
module YamlParser {
  import opened Wrappers
  import opened YamlText
  import opened Yaml
  import J = JsonValue
  import Utf8

  // ---------------------------------------------------------------- scanning

  /** Whether a `#` at `index` starts a comment outside quotes. */
  predicate Spaced(text: string, index: nat)
    requires index <= |text|
  {
    index == 0 || text[index - 1] == ' '
  }

  /** The quote that is open after a character. */
  function NextQuote(c: char, quote: Option<char>): Option<char> {
    if quote.Some? then if c == quote.value then None else quote
    else if c == '"' || c == QUOTE then Some(c)
    else None
  }

  lemma UncommentedStep(s: string, spaced: bool, quote: Option<char>)
    requires s != []
    ensures Uncommented(s, spaced, quote) ==
            if quote.None? && s[0] == '#' && spaced then []
            else [s[0]] + Uncommented(s[1..], s[0] == ' ', NextQuote(s[0], quote))
  {
  }

  lemma Regroup(text: string, index: nat, tail: string)
    requires index < |text|
    ensures text[..index] + ([text[index]] + tail) == text[..index + 1] + tail
  {
  }

  lemma CommentStep(text: string, index: nat, quote: Option<char>)
    requires index < |text|
    ensures var c := text[index];
            text[..index] + Uncommented(text[index..], Spaced(text, index), quote) ==
            if quote.None? && c == '#' && Spaced(text, index) then text[..index]
            else text[..index + 1] + Uncommented(text[index + 1..], Spaced(text, index + 1), NextQuote(c, quote))
  {
    hide Uncommented, NextQuote;
    var s := text[index..];
    assert s[0] == text[index] && s[1..] == text[index + 1..];
    UncommentedStep(s, Spaced(text, index), quote);
    assert text[..index] + [] == text[..index];
    Regroup(text, index, Uncommented(text[index + 1..], text[index] == ' ', NextQuote(text[index], quote)));
  }

  /** `strip_comment`. */
  method ScanComment(text: string) returns (t: string)
    ensures t == StripComment(text)
  {
    hide TrimEnd, Uncommented;
    var quote: Option<char> := None;
    var index := 0;
    assert text[0..] == text && text[..0] + Uncommented(text, true, None) == Uncommented(text, true, None);
    while index < |text|
      invariant 0 <= index <= |text|
      invariant Uncommented(text, true, None) == text[..index] + Uncommented(text[index..], Spaced(text, index), quote)
    {
      CommentStep(text, index, quote);
      var c := text[index];
      if quote.Some? {
        if c == quote.value {
          quote := None;
        }
        index := index + 1;
      } else if c == '"' || c == QUOTE {
        quote := Some(c);
        index := index + 1;
      } else {
        if c == '#' && (index == 0 || text[index - 1] == ' ') {
          return TrimEnd(text[..index]);
        }
        index := index + 1;
      }
    }
    NothingToScan(text, quote);
    return TrimEnd(text);
  }

  lemma NothingToScan(text: string, quote: Option<char>)
    ensures text[..|text|] + Uncommented(text[|text|..], Spaced(text, |text|), quote) == text
  {
  }

  /** `match_key`. */
  method ScanKey(text: string) returns (r: Result<Option<(string, string)>, Error>)
    ensures r == MatchKey(text)
  {
    hide TrimStart;
    if text == [] || !KeyStart(text[0]) {
      return Ok(None);
    }
    var index := 1;
    while index < |text| && KeyChar(text[index])
      invariant 1 <= index <= |text|
      invariant KeyRun(text) == index + KeyRun(text[index..])
    {
      assert text[index..][1..] == text[index + 1..];
      index := index + 1;
    }
    assert KeyRun(text) == index;
    if index >= |text| || text[index] != ':' {
      return Ok(None);
    }
    var rest := text[index + 1..];
    if rest == [] {
      return Ok(Some((text[..index], [])));
    }
    if rest[0] != ' ' {
      return Err(ColonNotFollowed);
    }
    return Ok(Some((text[..index], TrimStart(rest))));
  }

  function PrependText(done: string, rest: Result<string, Error>): Result<string, Error> {
    match rest
    case Ok(text) => Ok(done + text)
    case Err(error) => Err(error)
  }

  lemma UnquoteStep(s: string, done: string)
    ensures s == [] ==> PrependText(done, Unquote(s)) == Ok(done)
    ensures s != [] && s[0] != QUOTE ==> PrependText(done, Unquote(s)) == PrependText(done + [s[0]], Unquote(s[1..]))
    ensures s != [] && s[0] == QUOTE ==>
              PrependText(done, Unquote(s)) ==
              if |s| > 1 && s[1] == QUOTE then PrependText(done + [QUOTE], Unquote(s[2..])) else Err(BadSingleQuote)
    ensures done == [] ==> PrependText(done, Unquote(s)) == Unquote(s)
  {
    if s == [] {
      assert done + [] == done;
    } else {
      var tail := if s[0] != QUOTE then Unquote(s[1..]) else if |s| > 1 then Unquote(s[2..]) else Err(BadSingleQuote);
      if tail.Ok? {
        assert done + ([s[0]] + tail.value) == done + [s[0]] + tail.value;
      }
    }
    if done == [] && Unquote(s).Ok? {
      assert [] + Unquote(s).value == Unquote(s).value;
    }
  }

  /** `parse_single`. */
  method ScanSingle(text: string) returns (r: Result<string, Error>)
    ensures r == ParseSingle(text)
  {
    hide Unquote;
    if |text| < 2 || text[0] != QUOTE || text[|text| - 1] != QUOTE {
      return Err(Unterminated);
    }
    var inner := text[1..|text| - 1];
    var out := "";
    var index := 0;
    assert inner[0..] == inner;
    UnquoteStep(inner, []);
    while index < |inner|
      invariant 0 <= index <= |inner|
      invariant Unquote(inner) == PrependText(out, Unquote(inner[index..]))
    {
      var ch := inner[index];
      ghost var left := inner[index..];
      UnquoteStep(left, out);
      assert left[0] == ch && left[1..] == inner[index + 1..];
      index := index + 1;
      if ch == QUOTE {
        if index >= |inner| || inner[index] != QUOTE {
          return Err(BadSingleQuote);
        }
        assert left[1] == inner[index] && left[2..] == inner[index + 1..];
        index := index + 1;
        out := out + [QUOTE];
      } else {
        out := out + [ch];
      }
    }
    assert inner[index..] == [];
    UnquoteStep([], out);
    return Ok(out);
  }

  function PrependLines(done: seq<Line>, rest: Result<seq<Line>, Error>): Result<seq<Line>, Error> {
    match rest
    case Ok(lines) => Ok(done + lines)
    case Err(error) => Err(error)
  }

  lemma LinesStep(raws: seq<string>, done: seq<Line>)
    ensures raws == [] ==> PrependLines(done, ReadLines(raws)) == Ok(done)
    ensures raws != [] && ReadLine(raws[0]).Err? ==> PrependLines(done, ReadLines(raws)) == Err(ReadLine(raws[0]).error)
    ensures raws != [] && ReadLine(raws[0]).Ok? ==>
              var first := ReadLine(raws[0]).value;
              PrependLines(done, ReadLines(raws)) ==
              PrependLines(if first.Some? then done + [first.value] else done, ReadLines(raws[1..]))
    ensures done == [] ==> PrependLines(done, ReadLines(raws)) == ReadLines(raws)
  {
    hide ReadLine;
    if raws == [] {
      assert done + [] == done;
    } else if ReadLine(raws[0]).Ok? && ReadLines(raws[1..]).Ok? {
      var first, rest := ReadLine(raws[0]).value, ReadLines(raws[1..]).value;
      if first.Some? {
        assert done + ([first.value] + rest) == done + [first.value] + rest;
      } else {
        assert [] + rest == rest;
      }
    }
    if done == [] && ReadLines(raws).Ok? {
      assert [] + ReadLines(raws).value == ReadLines(raws).value;
    }
  }

  /** `collect_lines`. */
  method ScanLines(input: string) returns (r: Result<seq<Line>, Error>)
    ensures r == CollectLines(input)
  {
    hide ReadLines, SplitLines, StripComment, Indent;
    if '\t' in input {
      return Err(Tab);
    }
    var raws := SplitLines(input);
    var lines: seq<Line> := [];
    assert raws[0..] == raws;
    LinesStep(raws, []);
    for i := 0 to |raws|
      invariant ReadLines(raws) == PrependLines(lines, ReadLines(raws[i..]))
    {
      var raw := raws[i];
      assert raws[i..][0] == raw && raws[i..][1..] == raws[i + 1..];
      LinesStep(raws[i..], lines);
      var indent := Indent(raw);
      var body := ScanComment(raw[indent..]);
      if body != [] {
        if body == "---" || body == "..." {
          return Err(DocumentMarker);
        }
        lines := lines + [Line(indent, body)];
      }
    }
    assert raws[|raws|..] == [];
    LinesStep([], lines);
    return Ok(lines);
  }

  // ---------------------------------------------------------------- the parser

  class Parser {
    const lines: seq<Line>
    var index: nat
    var depth: nat

    constructor (lines: seq<Line>)
      ensures this.lines == lines && Valid() && Left() == lines && depth == 0
    {
      this.lines, index, depth := lines, 0, 0;
    }

    ghost predicate Valid()
      reads this
    {
      index <= |lines|
    }

    /** The lines that have not been parsed. */
    ghost function Left(): seq<Line>
      requires Valid()
      reads this
    {
      lines[index..]
    }

    /** A method that follows a reader: its result, the lines it leaves, the depth as it was. */
    ghost predicate Follows<T(!new)>(r: Result<T, Error>, spec: Yaml.Read<T>, depthBefore: nat)
      reads this
    {
      && Valid()
      && match spec
         case Ok((value, rest)) => r == Ok(value) && Left() == rest && depth == depthBefore
         case Err(error) => r == Err(error)
    }

    method Advance()
      requires Valid() && Left() != []
      modifies this`index
      ensures Valid() && Left() == old(Left())[1..]
    {
      index := index + 1;
    }

    /** `parse_node`. */
    method ParseNode() returns (r: Result<J.Json, Error>)
      requires Valid() && depth <= MAX_DEPTH
      modifies this
      ensures Follows(r, Yaml.ParseNode(old(Left()), old(depth)), old(depth))
      decreases |lines| - index, 4
    {
      hide Yaml.ParseItems, Yaml.ParseEntries;
      depth := depth + 1;
      if depth > MAX_DEPTH {
        return Err(TooDeep);
      }
      if index >= |lines| {
        return Err(UnexpectedEnd);
      }
      var Line(indent, text) := lines[index];
      assert Left()[0] == lines[index];
      if text == "[]" {
        Advance();
        depth := depth - 1;
        return Ok(J.Array([]));
      }
      if text == "{}" {
        Advance();
        depth := depth - 1;
        return Ok(J.Object([]));
      }
      if Dashed(text) {
        var items :- ParseSequence(indent);
        depth := depth - 1;
        return if items == [] then Err(EmptySequence) else Ok(J.Array(items));
      }
      var members :- ParseMapping(indent, None);
      depth := depth - 1;
      return if members == [] then Err(EmptyMapping) else Ok(J.Object(members));
    }

    /** The loop of `parse_sequence`. */
    method ParseSequence(indent: nat) returns (r: Result<seq<J.Json>, Error>)
      requires Valid() && depth <= MAX_DEPTH
      modifies this
      ensures Follows(r, Yaml.ParseItems(old(Left()), indent, old(depth)), old(depth))
      decreases |lines| - index, 3
    {
      hide Yaml.ParseItem, Dashed;
      var items: seq<J.Json> := [];
      NoItemsYet(Yaml.ParseItems(Left(), indent, depth));
      while index < |lines| && lines[index].indent == indent && Dashed(lines[index].text)
        invariant Valid() && old(index) <= index && depth == old(depth)
        invariant Yaml.ParseItems(old(Left()), indent, depth) ==
                  PrependItems(items, Yaml.ParseItems(Left(), indent, depth))
        decreases |lines| - index
      {
        ghost var ls := Left();
        assert ls[0] == lines[index];
        ItemsStep(ls, indent, depth, items);
        var text := lines[index].text;
        Advance();
        ghost var after := index;
        var item :- ParseItem(text, indent);
        FewerLines(text, ls[1..], indent, depth);
        items := items + [item];
      }
      NoMoreItems(Left(), indent, depth, items);
      return Ok(items);
    }

    method ParseItem(text: string, indent: nat) returns (r: Result<J.Json, Error>)
      requires Valid() && depth <= MAX_DEPTH && Dashed(text)
      modifies this
      ensures Follows(r, Yaml.ParseItem(text, old(Left()), indent, old(depth)), old(depth))
      decreases |lines| - index, 8
    {
      hide Yaml.ParseNode, Yaml.ParseEntries, MatchKey, ParseScalar;
      if text == "-" {
        if index >= |lines| || lines[index].indent <= indent {
          return Err(EmptyItem);
        }
        assert Left()[0] == lines[index];
        r := ParseNode();
        return;
      }
      var rest := text[2..];
      if rest == [] {
        return Err(EmptyItem);
      }
      if rest == "[]" {
        return Ok(J.Array([]));
      }
      if rest == "{}" {
        return Ok(J.Object([]));
      }
      var pair :- ScanKey(rest);
      if pair.Some? {
        var members :- ParseMapping(indent + 2, pair);
        return Ok(J.Object(members));
      }
      r := ScanScalar(rest);
    }

    /** The loop of `parse_mapping`. */
    method ParseMapping(indent: nat, pending: Option<(string, string)>) returns (r: Result<seq<J.Member>, Error>)
      requires Valid() && depth <= MAX_DEPTH
      modifies this
      ensures Follows(r, Yaml.ParseEntries(old(Left()), indent, pending, {}, old(depth)), old(depth))
      decreases |lines| - index, if pending.Some? then 7 else 3
    {
      hide Yaml.ParseEntries, ValueAfterKey, MatchKey;
      var members: seq<J.Member> := [];
      var keys: set<string> := {};
      var next := pending;
      NoMembersYet(Yaml.ParseEntries(Left(), indent, pending, {}, depth));
      while true
        invariant Valid() && old(index) <= index && depth == old(depth)
        invariant next.Some? ==> next == pending && index == old(index)
        invariant Yaml.ParseEntries(old(Left()), indent, pending, {}, depth) ==
                  PrependMembers(members, Yaml.ParseEntries(Left(), indent, next, keys, depth))
        decreases |lines| - index, if next.Some? then 1 else 0
      {
        ghost var ls := Left();
        EntriesStep(ls, indent, next, keys, depth, members);
        var pair: (string, string);
        if next.Some? {
          pair := next.value;
          next := None;
        } else {
          if index >= |lines| || lines[index].indent != indent {
            return Ok(members);
          }
          var text := lines[index].text;
          assert ls[0] == lines[index];
          if text != [] && text[0] == '-' {
            return Err(KeyExpected);
          }
          var matched :- ScanKey(text);
          if matched.None? {
            return Err(KeyExpected);
          }
          Advance();
          pair := matched.value;
        }
        if pair.0 in keys {
          return Err(DuplicateKey);
        }
        FewerValueLines(Left(), indent, pair.1, depth);
        var value :- ParseValue(indent, pair.1);
        members := members + [J.Member(pair.0, value)];
        keys := keys + {pair.0};
      }
    }

    /** `value_after_key`. */
    method ParseValue(indent: nat, text: string) returns (r: Result<J.Json, Error>)
      requires Valid() && depth <= MAX_DEPTH
      modifies this
      ensures Follows(r, ValueAfterKey(old(Left()), indent, text, old(depth)), old(depth))
      decreases |lines| - index, 5
    {
      hide Yaml.ParseNode, ParseScalar;
      if text == [] {
        if index >= |lines| || lines[index].indent <= indent {
          return Err(MissingValue);
        }
        assert Left()[0] == lines[index];
        r := ParseNode();
        return;
      }
      if text == "[]" {
        return Ok(J.Array([]));
      }
      if text == "{}" {
        return Ok(J.Object([]));
      }
      r := ScanScalar(text);
    }
  }

  /** `parse_scalar`; the strict JSON parser and the plain classification are pure. */
  method ScanScalar(text: string) returns (r: Result<J.Json, Error>)
    ensures r == ParseScalar(text)
  {
    hide ParseSingle;
    if text != [] && text[0] == QUOTE {
      var single := ScanSingle(text);
      return match single case Ok(s) => Ok(J.String(s)) case Err(error) => Err(error);
    }
    return ParseScalar(text);
  }

  /** `parse_yaml_subset`. */
  method ParseDocument(input: string) returns (r: Result<J.Json, Error>)
    ensures r == ParseYaml(input)
  {
    hide Utf8.Encode, Yaml.ParseNode, CollectLines, Yaml.MAX_BYTES;
    if |Utf8.Encode(input)| > Yaml.MAX_BYTES {
      return Err(TooLarge);
    }
    if 0 as char in input {
      return Err(NullByte);
    }
    var lines :- ScanLines(input);
    if lines == [] {
      return Err(EmptyDocument);
    }
    var parser := new Parser(lines);
    var value :- parser.ParseNode();
    assert parser.Left() == [] <==> parser.index == |lines|;
    return if parser.index != |lines| then Err(TrailingLines) else Ok(value);
  }

  // ---------------------------------------------------------------- the loops

  function PrependItems(done: seq<J.Json>, rest: Yaml.Read<seq<J.Json>>): Yaml.Read<seq<J.Json>> {
    match rest
    case Ok((items, left)) => Ok((done + items, left))
    case Err(error) => Err(error)
  }

  lemma NoItemsYet(rest: Yaml.Read<seq<J.Json>>)
    ensures PrependItems([], rest) == rest
  {
    if rest.Ok? {
      assert [] + rest.value.0 == rest.value.0;
    }
  }

  lemma ItemsStep(ls: seq<Line>, indent: nat, depth: nat, done: seq<J.Json>)
    requires ls != [] && ls[0].indent == indent && Dashed(ls[0].text)
    ensures var item := Yaml.ParseItem(ls[0].text, ls[1..], indent, depth);
            var all := PrependItems(done, Yaml.ParseItems(ls, indent, depth));
            && (item.Err? ==> all == Err(item.error))
            && (item.Ok? ==> all == PrependItems(done + [item.value.0], Yaml.ParseItems(item.value.1, indent, depth)))
  {
    hide Yaml.ParseItem, Dashed;
    var item := Yaml.ParseItem(ls[0].text, ls[1..], indent, depth);
    if item.Ok? && Yaml.ParseItems(item.value.1, indent, depth).Ok? {
      var rest := Yaml.ParseItems(item.value.1, indent, depth).value.0;
      assert done + ([item.value.0] + rest) == done + [item.value.0] + rest;
    }
  }

  lemma NoMoreItems(ls: seq<Line>, indent: nat, depth: nat, done: seq<J.Json>)
    requires ls == [] || ls[0].indent != indent || !Dashed(ls[0].text)
    ensures PrependItems(done, Yaml.ParseItems(ls, indent, depth)) == Ok((done, ls))
  {
    assert done + [] == done;
  }

  lemma FewerLines(text: string, ls: seq<Line>, indent: nat, depth: nat)
    requires Dashed(text)
    ensures Yaml.ParseItem(text, ls, indent, depth).Ok? ==> |Yaml.ParseItem(text, ls, indent, depth).value.1| <= |ls|
  {
  }

  lemma FewerValueLines(ls: seq<Line>, indent: nat, text: string, depth: nat)
    ensures ValueAfterKey(ls, indent, text, depth).Ok? ==> |ValueAfterKey(ls, indent, text, depth).value.1| <= |ls|
  {
  }

  function PrependMembers(done: seq<J.Member>, rest: Yaml.Read<seq<J.Member>>): Yaml.Read<seq<J.Member>> {
    match rest
    case Ok((members, left)) => Ok((done + members, left))
    case Err(error) => Err(error)
  }

  lemma NoMembersYet(rest: Yaml.Read<seq<J.Member>>)
    ensures PrependMembers([], rest) == rest
  {
    if rest.Ok? {
      assert [] + rest.value.0 == rest.value.0;
    }
  }

  /** What one turn of the loop over a mapping leaves to parse, once the key is known. */
  function AfterKey(ls: seq<Line>, indent: nat, pair: (string, string), keys: set<string>, depth: nat,
                    done: seq<J.Member>)
    : Yaml.Read<seq<J.Member>>
  {
    if pair.0 in keys then Err(DuplicateKey)
    else
      var (value, rest) :- ValueAfterKey(ls, indent, pair.1, depth);
      PrependMembers(done + [J.Member(pair.0, value)], Yaml.ParseEntries(rest, indent, None, keys + {pair.0}, depth))
  }

  /** What one turn of that loop leaves to parse. */
  function AfterTurn(ls: seq<Line>, indent: nat, next: Option<(string, string)>, keys: set<string>, depth: nat,
                     done: seq<J.Member>)
    : Yaml.Read<seq<J.Member>>
  {
    if next.Some? then AfterKey(ls, indent, next.value, keys, depth, done)
    else if ls == [] || ls[0].indent != indent then Ok((done, ls))
    else if ls[0].text != [] && ls[0].text[0] == '-' then Err(KeyExpected)
    else
      var pair :- MatchKey(ls[0].text);
      if pair.None? then Err(KeyExpected) else AfterKey(ls[1..], indent, pair.value, keys, depth, done)
  }

  lemma EntryStep(ls: seq<Line>, indent: nat, pair: (string, string), keys: set<string>, depth: nat,
                  done: seq<J.Member>)
    ensures PrependMembers(done, ParseEntry(ls, indent, pair, keys, depth)) ==
            AfterKey(ls, indent, pair, keys, depth, done)
  {
    hide ValueAfterKey, Yaml.ParseEntries;
    var v := ValueAfterKey(ls, indent, pair.1, depth);
    if v.Ok? {
      var more := Yaml.ParseEntries(v.value.1, indent, None, keys + {pair.0}, depth);
      if more.Ok? {
        var member := J.Member(pair.0, v.value.0);
        assert done + ([member] + more.value.0) == done + [member] + more.value.0;
      }
    }
  }

  lemma EntriesStep(ls: seq<Line>, indent: nat, next: Option<(string, string)>, keys: set<string>, depth: nat,
                    done: seq<J.Member>)
    ensures PrependMembers(done, Yaml.ParseEntries(ls, indent, next, keys, depth)) ==
            AfterTurn(ls, indent, next, keys, depth, done)
  {
    hide ParseEntry, AfterKey, MatchKey;
    assert done + [] == done;
    if next.Some? {
      EntryStep(ls, indent, next.value, keys, depth, done);
    } else if ls != [] && MatchKey(ls[0].text).Ok? && MatchKey(ls[0].text).value.Some? {
      EntryStep(ls[1..], indent, MatchKey(ls[0].text).value.value, keys, depth, done);
    }
  }
}
