/** The strict JSON parser and its grammar. */
module Json {
  /*
   The strict JSON parser of `json.rs`: what it reads, the grammar it accepts, and the proof
   that the two agree within its limits on depth, values, strings and keys. A document is a tree
   together with the way each of its values is written: the whitespace around it and the pieces
   of its strings. Parsing the text of a document gives its tree and the text that follows, and
   whatever parses is the text of some document.
   */
  import opened Wrappers
  import opened JsonText
  import J = JsonValue
  import Utf8

  const MAX_BYTES: nat := 32 * 1024 * 1024
  const MAX_DEPTH: nat := 32
  const MAX_VALUES: nat := 1_048_576
  const MAX_STRING: nat := 1024 * 1024
  const MAX_KEY: nat := 1024
  const BOM: char := 0xFEFF as char

  /** A value, the text after it, and how many values have been read so far. */
  datatype Parsed<T> = Parsed(value: T, rest: string, values: nat)

  // ---------------------------------------------------------------- reading

  predicate IdentTail(c: char) {
    'a' <= c <= 'z' || 'A' <= c <= 'Z' || '0' <= c <= '9' || c == '_'
  }

  /** `consume`, then `reject_ident_tail`. */
  function ReadLiteral(s: string, literal: string): (r: Result<string, Error>)
    ensures r.Ok? ==> |r.value| <= |s|
  {
    if !(literal <= s) then Err(InvalidLiteral)
    else if s[|literal|..] != [] && IdentTail(s[|literal|]) then Err(InvalidLiteral)
    else Ok(s[|literal|..])
  }

  /** `parse_string`, after the opening quote. */
  function ReadString(s: string): (r: Read<string>)
    ensures r.Ok? ==> |r.value.1| < |s|
  {
    var (text, rest) :- ReadChars(s);
    if |Utf8.Encode(text)| > MAX_STRING then Err(StringTooLong) else Ok((text, rest))
  }

  function ReadValue(s: string, depth: nat, values: nat, nulls: bool): (r: Result<Parsed<J.Json>, Error>)
    ensures r.Ok? ==> |r.value.rest| < |s|
    decreases |s|, 1
  {
    var t := SkipBlank(s);
    if values + 1 > MAX_VALUES then Err(TooManyValues)
    else if t == [] then Err(InvalidValue)
    else ReadBody(t, depth, values + 1, nulls)
  }

  /** `parse_value` from its first character on. */
  function ReadBody(t: string, depth: nat, values: nat, nulls: bool): (r: Result<Parsed<J.Json>, Error>)
    requires t != []
    ensures r.Ok? ==> |r.value.rest| < |t|
    decreases |t|, 0
  {
    if t[0] == 'n' then
      if !("null" <= t) then Err(InvalidLiteral)
      else if !nulls then Err(NullNotAllowed)
      else
        var rest :- ReadLiteral(t, "null");
        Ok(Parsed(J.Null, rest, values))
    else if t[0] == 't' then
      var rest :- ReadLiteral(t, "true");
      Ok(Parsed(J.Bool(true), rest, values))
    else if t[0] == 'f' then
      var rest :- ReadLiteral(t, "false");
      Ok(Parsed(J.Bool(false), rest, values))
    else if t[0] == '"' then
      var (text, rest) :- ReadString(t[1..]);
      Ok(Parsed(J.String(text), rest, values))
    else if t[0] == '[' then ReadArray(t[1..], depth + 1, values, nulls)
    else if t[0] == '{' then ReadObject(t[1..], depth + 1, values, nulls)
    else if IsDigit(t[0]) then
      var (n, rest) :- ReadNumber(t);
      Ok(Parsed(J.Integer(n), rest, values))
    else if t[0] == '-' then Err(NegativeNumber)
    else Err(InvalidValue)
  }

  function ReadArray(s: string, depth: nat, values: nat, nulls: bool): (r: Result<Parsed<J.Json>, Error>)
    ensures r.Ok? ==> |r.value.rest| < |s|
    decreases |s|, 3
  {
    if depth > MAX_DEPTH then Err(TooDeep)
    else
      var t := SkipBlank(s);
      if StartsWith(t, ']') then Ok(Parsed(J.Array([]), t[1..], values))
      else
        var p :- ReadItems(t, depth, values, nulls);
        Ok(Parsed(J.Array(p.value), p.rest, p.values))
  }

  /** The items of an array from one of them on, with the closing bracket. */
  function ReadItems(s: string, depth: nat, values: nat, nulls: bool): (r: Result<Parsed<seq<J.Json>>, Error>)
    ensures r.Ok? ==> |r.value.rest| < |s|
    decreases |s|, 2
  {
    var p :- ReadValue(s, depth, values, nulls);
    var t := SkipBlank(p.rest);
    if StartsWith(t, ',') then
      var u := SkipBlank(t[1..]);
      if StartsWith(u, ']') then Err(TrailingComma)
      else
        var q :- ReadItems(u, depth, p.values, nulls);
        Ok(Parsed([p.value] + q.value, q.rest, q.values))
    else if StartsWith(t, ']') then Ok(Parsed([p.value], t[1..], p.values))
    else Err(NotClosed)
  }

  function ReadObject(s: string, depth: nat, values: nat, nulls: bool): (r: Result<Parsed<J.Json>, Error>)
    ensures r.Ok? ==> |r.value.rest| < |s|
    decreases |s|, 3
  {
    if depth > MAX_DEPTH then Err(TooDeep)
    else
      var t := SkipBlank(s);
      if StartsWith(t, '}') then Ok(Parsed(J.Object([]), t[1..], values))
      else
        var p :- ReadMembers(t, depth, values, nulls, {});
        Ok(Parsed(J.Object(p.value), p.rest, p.values))
  }

  /** A key, its colon, and the text after it; `keys` are the keys of the members before. */
  function ReadKey(s: string, keys: set<string>): (r: Read<string>)
    ensures r.Ok? ==> |r.value.1| < |s|
  {
    var t := SkipBlank(s);
    if !StartsWith(t, '"') then Err(KeyNotString)
    else
      var (key, rest) :- ReadString(t[1..]);
      if |Utf8.Encode(key)| > MAX_KEY then Err(KeyTooLong)
      else if key in keys then Err(DuplicateKey)
      else
        var u := SkipBlank(rest);
        if !StartsWith(u, ':') then Err(MissingColon) else Ok((key, u[1..]))
  }

  function ReadMembers(s: string, depth: nat, values: nat, nulls: bool, keys: set<string>)
    : (r: Result<Parsed<seq<J.Member>>, Error>)
    ensures r.Ok? ==> |r.value.rest| < |s|
    decreases |s|, 2
  {
    var (key, s1) :- ReadKey(s, keys);
    var p :- ReadValue(s1, depth, values, nulls);
    var member := J.Member(key, p.value);
    var t := SkipBlank(p.rest);
    if StartsWith(t, ',') then
      var u := SkipBlank(t[1..]);
      if StartsWith(u, '}') then Err(TrailingComma)
      else
        var q :- ReadMembers(u, depth, p.values, nulls, keys + {key});
        Ok(Parsed([member] + q.value, q.rest, q.values))
    else if StartsWith(t, '}') then Ok(Parsed([member], t[1..], p.values))
    else Err(NotClosed)
  }

  /** `parse_strict_json`, and with `nulls` `parse_strict_json_allowing_null`. */
  function Parse(text: string, nulls: bool): Result<J.Json, Error> {
    if |Utf8.Encode(text)| > MAX_BYTES then Err(TooLarge)
    else if StartsWith(text, BOM) then Err(ByteOrderMark)
    else
      var p :- ReadValue(SkipBlank(text), 0, 0, nulls);
      if SkipBlank(p.rest) != [] then Err(TrailingData) else Ok(p.value)
  }

  // ---------------------------------------------------------------- limits

  /** A tree that the parser may return from inside `depth` containers. */
  predicate Admissible(v: J.Json, depth: nat, nulls: bool)
    decreases v, 0
  {
    match v
    case Null => nulls
    case Bool(_) => true
    case Integer(n) => 0 <= n < TWO_64
    case Float => false
    case String(text) => |Utf8.Encode(text)| <= MAX_STRING
    case Array(items) => depth < MAX_DEPTH && ItemsAdmissible(items, depth + 1, nulls)
    case Object(members) => depth < MAX_DEPTH && MembersAdmissible(members, depth + 1, nulls, {})
  }

  predicate ItemsAdmissible(items: seq<J.Json>, depth: nat, nulls: bool)
    decreases items, 1
  {
    items != [] ==> Admissible(items[0], depth, nulls) && ItemsAdmissible(items[1..], depth, nulls)
  }

  predicate KeyAdmissible(key: string, keys: set<string>) {
    |Utf8.Encode(key)| <= MAX_KEY && key !in keys
  }

  predicate MembersAdmissible(members: seq<J.Member>, depth: nat, nulls: bool, keys: set<string>)
    decreases members, 1
  {
    members != [] ==>
      && KeyAdmissible(members[0].key, keys)
      && Admissible(members[0].value, depth, nulls)
      && MembersAdmissible(members[1..], depth, nulls, keys + {members[0].key})
  }

  /** The values of a tree, itself included. */
  function Count(v: J.Json): (n: nat)
    ensures n >= 1
    decreases v, 0
  {
    match v
    case Array(items) => 1 + CountItems(items)
    case Object(members) => 1 + CountMembers(members)
    case _ => 1
  }

  function CountItems(items: seq<J.Json>): nat
    decreases items, 1
  {
    if items == [] then 0 else Count(items[0]) + CountItems(items[1..])
  }

  function CountMembers(members: seq<J.Member>): nat
    decreases members, 1
  {
    if members == [] then 0 else Count(members[0].value) + CountMembers(members[1..])
  }

  // ---------------------------------------------------------------- the grammar

  /** A value as written: blanks, then its body. */
  datatype Doc = Doc(before: string, body: Body)

  datatype Body =
    | NullText
    | BoolText(b: bool)
    | NumberText(n: nat)
    | StringText(pieces: seq<Piece>)
    | ArrayText(inner: string, items: seq<Item>)
    | ObjectText(inner: string, members: seq<Entry>)

  /** An item and the blanks after it. */
  datatype Item = Item(doc: Doc, after: string)

  /** A member: blanks, key, blanks and colon, value, blanks. */
  datatype Entry = Entry(before: string, key: seq<Piece>, colon: string, doc: Doc, after: string)

  predicate WellWritten(d: Doc)
    decreases d, 0
  {
    && Blank(d.before)
    && match d.body
       case StringText(pieces) => ValidPieces(pieces)
       case ArrayText(inner, items) => Blank(inner) && ItemsWritten(items)
       case ObjectText(inner, members) => Blank(inner) && EntriesWritten(members)
       case _ => true
  }

  predicate ItemsWritten(items: seq<Item>)
    decreases items, 1
  {
    items != [] ==> WellWritten(items[0].doc) && Blank(items[0].after) && ItemsWritten(items[1..])
  }

  predicate EntriesWritten(es: seq<Entry>)
    decreases es, 1
  {
    es != [] ==>
      && Blank(es[0].before) && ValidPieces(es[0].key) && Blank(es[0].colon)
      && WellWritten(es[0].doc) && Blank(es[0].after)
      && EntriesWritten(es[1..])
  }

  /** The text of a value, followed by `rest`. */
  function Text(d: Doc, rest: string): string
    decreases d, 0
  {
    d.before + BodyText(d.body, rest)
  }

  function BodyText(b: Body, rest: string): string
    decreases b, 0
  {
    match b
    case NullText => "null" + rest
    case BoolText(b) => (if b then "true" else "false") + rest
    case NumberText(n) => Decimal(n) + rest
    case StringText(pieces) => ['"'] + PiecesText(pieces, rest)
    case ArrayText(inner, items) =>
      ['['] + if items == [] then inner + ([']'] + rest) else ItemsText(items, [']'] + rest)
    case ObjectText(inner, members) =>
      ['{'] + if members == [] then inner + (['}'] + rest) else EntriesText(members, ['}'] + rest)
  }

  function ItemsText(items: seq<Item>, rest: string): string
    requires items != []
    decreases items, 1
  {
    Text(items[0].doc, items[0].after + if |items| == 1 then rest else [','] + ItemsText(items[1..], rest))
  }

  function EntriesText(es: seq<Entry>, rest: string): string
    requires es != []
    decreases es, 1
  {
    es[0].before + (['"'] + PiecesText(es[0].key, es[0].colon + ([':'] +
      Text(es[0].doc, es[0].after + if |es| == 1 then rest else [','] + EntriesText(es[1..], rest)))))
  }

  /** The text that can follow a value. */
  predicate Stops(rest: string) {
    rest == [] || IsSpace(rest[0]) || rest[0] == ',' || rest[0] == ']' || rest[0] == '}'
  }

  /** The tree a text stands for. */
  function Tree(d: Doc): J.Json
    requires WellWritten(d)
    decreases d, 0
  {
    match d.body
    case NullText => J.Null
    case BoolText(b) => J.Bool(b)
    case NumberText(n) => J.Integer(n)
    case StringText(pieces) => J.String(Chars(pieces))
    case ArrayText(_, items) => J.Array(ItemTrees(items))
    case ObjectText(_, members) => J.Object(MemberTrees(members))
  }

  function ItemTrees(items: seq<Item>): (r: seq<J.Json>)
    requires ItemsWritten(items)
    ensures |r| == |items|
    decreases items, 1
  {
    if items == [] then [] else [Tree(items[0].doc)] + ItemTrees(items[1..])
  }

  function MemberTrees(es: seq<Entry>): (r: seq<J.Member>)
    requires EntriesWritten(es)
    ensures |r| == |es|
    decreases es, 1
  {
    if es == [] then [] else [J.Member(Chars(es[0].key), Tree(es[0].doc))] + MemberTrees(es[1..])
  }

  // ---------------------------------------------------------------- printed text reads back

  lemma BodyStart(b: Body, rest: string)
    ensures var t := BodyText(b, rest);
            t != [] && !IsSpace(t[0]) && t[0] != ']' && t[0] != '}' && t[0] != ','
  {
    hide Decimal, PiecesText, ItemsText, EntriesText;
  }

  lemma SkipToBody(d: Doc, rest: string)
    requires Blank(d.before)
    ensures SkipBlank(Text(d, rest)) == BodyText(d.body, rest)
  {
    hide BodyText;
    BodyStart(d.body, rest);
    SkipExactly(d.before, BodyText(d.body, rest));
  }

  lemma StopsAfter(blank: string, rest: string)
    requires Blank(blank) && Stops(rest)
    ensures Stops(blank + rest)
  {
  }

  lemma LiteralReads(literal: string, rest: string)
    requires Stops(rest)
    ensures ReadLiteral(literal + rest, literal) == Ok(rest)
  {
    assert (literal + rest)[..|literal|] == literal && (literal + rest)[|literal|..] == rest;
  }

  lemma ScalarReads(b: Body, rest: string, depth: nat, values: nat, nulls: bool)
    requires !b.ArrayText? && !b.ObjectText? && WellWritten(Doc([], b)) && Stops(rest)
    requires Admissible(Tree(Doc([], b)), depth, nulls)
    ensures BodyText(b, rest) != []
    ensures ReadBody(BodyText(b, rest), depth, values, nulls) == Ok(Parsed(Tree(Doc([], b)), rest, values))
  {
    hide ReadNumber, ReadChars, Utf8.Encode, ReadLiteral, PiecesText, Decimal, ReadArray, ReadObject;
    BodyStart(b, rest);
    var t := BodyText(b, rest);
    match b
    case NullText =>
      LiteralReads("null", rest);
    case BoolText(b) =>
      LiteralReads("true", rest);
      LiteralReads("false", rest);
    case NumberText(n) =>
      assert t[0] == Decimal(n)[0] && IsDigit(Decimal(n)[0]);
      ReadDecimal(n, rest);
    case StringText(pieces) =>
      assert t[1..] == PiecesText(pieces, rest);
      ReadPieces(pieces, rest);
  }

  lemma {:induction false} TextReads(d: Doc, rest: string, depth: nat, values: nat, nulls: bool)
    requires WellWritten(d) && Stops(rest) && Admissible(Tree(d), depth, nulls)
    requires values + Count(Tree(d)) <= MAX_VALUES
    ensures ReadValue(Text(d, rest), depth, values, nulls) == Ok(Parsed(Tree(d), rest, values + Count(Tree(d))))
    decreases d, 2
  {
    hide BodyText, ReadBody;
    SkipToBody(d, rest);
    BodyStart(d.body, rest);
    match d.body
    case ArrayText(inner, items) => ArrayReads(d, rest, depth, values + 1, nulls);
    case ObjectText(inner, members) => ObjectReads(d, rest, depth, values + 1, nulls);
    case _ => ScalarReads(d.body, rest, depth, values + 1, nulls);
  }

  lemma {:induction false} ArrayReads(d: Doc, rest: string, depth: nat, values: nat, nulls: bool)
    requires WellWritten(d) && Stops(rest) && Admissible(Tree(d), depth, nulls) && d.body.ArrayText?
    requires values + Count(Tree(d)) - 1 <= MAX_VALUES
    ensures BodyText(d.body, rest) != []
    ensures ReadBody(BodyText(d.body, rest), depth, values, nulls) ==
            Ok(Parsed(Tree(d), rest, values + Count(Tree(d)) - 1))
    decreases d, 1
  {
    hide ReadItems, ItemsText, Text, ItemTrees, CountItems;
    var ArrayText(inner, items) := d.body;
    var t := BodyText(d.body, rest);
    if items == [] {
      assert t[1..] == inner + ([']'] + rest);
      SkipExactly(inner, [']'] + rest);
      assert ([']'] + rest)[1..] == rest;
      NoItems(items);
    } else {
      var s := ItemsText(items, [']'] + rest);
      assert t[1..] == s;
      ItemsStart(items, [']'] + rest);
      ItemsRead(items, rest, depth + 1, values, nulls);
    }
  }

  lemma NoItems(items: seq<Item>)
    requires items == [] && ItemsWritten(items)
    ensures ItemTrees(items) == [] && CountItems([]) == 0
  {
  }

  lemma NoEntries(es: seq<Entry>)
    requires es == [] && EntriesWritten(es)
    ensures MemberTrees(es) == [] && CountMembers([]) == 0
  {
  }

  lemma ItemsStart(items: seq<Item>, rest: string)
    requires items != [] && ItemsWritten(items)
    ensures var t := SkipBlank(ItemsText(items, rest));
            t != [] && t[0] != ']'
  {
    hide BodyText, Text;
    var more := items[0].after + if |items| == 1 then rest else [','] + ItemsText(items[1..], rest);
    SkipToBody(items[0].doc, more);
    BodyStart(items[0].doc.body, more);
  }

  lemma SkippedItems(s: string, depth: nat, values: nat, nulls: bool)
    ensures ReadItems(SkipBlank(s), depth, values, nulls) == ReadItems(s, depth, values, nulls)
  {
    hide ReadBody;
    SkipTwice(s);
  }

  lemma LastItem(s: string, depth: nat, values: nat, nulls: bool, p: Parsed<J.Json>, rest: string)
    requires ReadValue(s, depth, values, nulls) == Ok(p) && SkipBlank(p.rest) == [']'] + rest
    ensures ReadItems(s, depth, values, nulls) == Ok(Parsed([p.value], rest, p.values))
  {
    hide ReadValue;
    assert ([']'] + rest)[1..] == rest;
  }

  lemma MoreItems(s: string, depth: nat, values: nat, nulls: bool, p: Parsed<J.Json>, more: string,
                  q: Parsed<seq<J.Json>>)
    requires ReadValue(s, depth, values, nulls) == Ok(p) && SkipBlank(p.rest) == [','] + more
    requires !StartsWith(SkipBlank(more), ']') && ReadItems(SkipBlank(more), depth, p.values, nulls) == Ok(q)
    ensures ReadItems(s, depth, values, nulls) == Ok(Parsed([p.value] + q.value, q.rest, q.values))
  {
    hide ReadValue;
    assert ([','] + more)[1..] == more;
  }

  lemma FirstTree(items: seq<Item>, depth: nat, nulls: bool)
    requires items != [] && ItemsWritten(items)
    ensures ItemTrees(items) == [Tree(items[0].doc)] + ItemTrees(items[1..])
    ensures CountItems(ItemTrees(items)) == Count(Tree(items[0].doc)) + CountItems(ItemTrees(items[1..]))
    ensures ItemsAdmissible(ItemTrees(items), depth, nulls) ==>
              Admissible(Tree(items[0].doc), depth, nulls) && ItemsAdmissible(ItemTrees(items[1..]), depth, nulls)
  {
    hide Tree, Count, Admissible;
    var trees := ItemTrees(items);
    assert trees[0] == Tree(items[0].doc) && trees[1..] == ItemTrees(items[1..]);
  }

  lemma {:induction false} ItemsRead(items: seq<Item>, rest: string, depth: nat, values: nat, nulls: bool)
    requires items != [] && ItemsWritten(items) && ItemsAdmissible(ItemTrees(items), depth, nulls)
    requires values + CountItems(ItemTrees(items)) <= MAX_VALUES
    ensures ReadItems(SkipBlank(ItemsText(items, [']'] + rest)), depth, values, nulls) ==
            Ok(Parsed(ItemTrees(items), rest, values + CountItems(ItemTrees(items))))
    decreases items, 3
  {
    hide Text, ReadValue, Tree, Count, Admissible, ReadItems, ItemTrees, CountItems, ItemsAdmissible;
    var close := [']'] + rest;
    var s := ItemsText(items, close);
    SkippedItems(s, depth, values, nulls);
    FirstTree(items, depth, nulls);
    var tail := if |items| == 1 then close else [','] + ItemsText(items[1..], close);
    StopsAfter(items[0].after, tail);
    TextReads(items[0].doc, items[0].after + tail, depth, values, nulls);
    SkipExactly(items[0].after, tail);
    var p := Parsed(Tree(items[0].doc), items[0].after + tail, values + Count(Tree(items[0].doc)));
    if |items| == 1 {
      LastItem(s, depth, values, nulls, p, rest);
      NoItems(items[1..]);
      assert [p.value] + ItemTrees(items[1..]) == [p.value];
    } else {
      ItemsStart(items[1..], close);
      ItemsRead(items[1..], rest, depth, p.values, nulls);
      MoreItems(s, depth, values, nulls, p, ItemsText(items[1..], close),
                Parsed(ItemTrees(items[1..]), rest, p.values + CountItems(ItemTrees(items[1..]))));
    }
  }

  lemma {:induction false} ObjectReads(d: Doc, rest: string, depth: nat, values: nat, nulls: bool)
    requires WellWritten(d) && Stops(rest) && Admissible(Tree(d), depth, nulls) && d.body.ObjectText?
    requires values + Count(Tree(d)) - 1 <= MAX_VALUES
    ensures BodyText(d.body, rest) != []
    ensures ReadBody(BodyText(d.body, rest), depth, values, nulls) ==
            Ok(Parsed(Tree(d), rest, values + Count(Tree(d)) - 1))
    decreases d, 1
  {
    hide ReadMembers, EntriesText, Text, MemberTrees, CountMembers;
    var ObjectText(inner, members) := d.body;
    var t := BodyText(d.body, rest);
    if members == [] {
      assert t[1..] == inner + (['}'] + rest);
      SkipExactly(inner, ['}'] + rest);
      assert (['}'] + rest)[1..] == rest;
      NoEntries(members);
    } else {
      var s := EntriesText(members, ['}'] + rest);
      assert t[1..] == s;
      EntriesStart(members, ['}'] + rest);
      EntriesRead(members, rest, depth + 1, values, nulls, {});
    }
  }

  lemma EntriesStart(es: seq<Entry>, rest: string)
    requires es != [] && EntriesWritten(es)
    ensures var t := SkipBlank(EntriesText(es, rest));
            StartsWith(t, '"') && t == EntriesText(es, rest)[|es[0].before|..]
  {
    hide PiecesText, Text;
    var s := EntriesText(es, rest);
    assert s[|es[0].before|..][0] == '"';
    assert s == es[0].before + s[|es[0].before|..];
    SkipExactly(es[0].before, s[|es[0].before|..]);
  }

  lemma SkippedMembers(s: string, depth: nat, values: nat, nulls: bool, keys: set<string>)
    ensures ReadMembers(SkipBlank(s), depth, values, nulls, keys) == ReadMembers(s, depth, values, nulls, keys)
  {
    hide ReadBody;
    SkipTwice(s);
  }

  /** A key as written reads up to the text of its value. */
  lemma KeyReads(e: Entry, value: string, keys: set<string>)
    requires Blank(e.before) && ValidPieces(e.key) && Blank(e.colon) && KeyAdmissible(Chars(e.key), keys)
    ensures ReadKey(e.before + (['"'] + PiecesText(e.key, e.colon + ([':'] + value))), keys) ==
              Ok((Chars(e.key), value))
  {
    hide PiecesText, ReadChars, Utf8.Encode;
    var after := e.colon + ([':'] + value);
    var t := ['"'] + PiecesText(e.key, after);
    SkipExactly(e.before, t);
    assert t[1..] == PiecesText(e.key, after);
    ReadPieces(e.key, after);
    SkipExactly(e.colon, [':'] + value);
    assert ([':'] + value)[1..] == value;
  }

  lemma LastMember(s: string, depth: nat, values: nat, nulls: bool, keys: set<string>,
                   key: string, value: string, p: Parsed<J.Json>, rest: string)
    requires ReadKey(s, keys) == Ok((key, value))
    requires ReadValue(value, depth, values, nulls) == Ok(p) && SkipBlank(p.rest) == ['}'] + rest
    ensures ReadMembers(s, depth, values, nulls, keys) == Ok(Parsed([J.Member(key, p.value)], rest, p.values))
  {
    hide ReadValue, ReadKey;
    assert (['}'] + rest)[1..] == rest;
  }

  lemma MoreMembers(s: string, depth: nat, values: nat, nulls: bool, keys: set<string>,
                    key: string, value: string, p: Parsed<J.Json>, more: string, q: Parsed<seq<J.Member>>)
    requires ReadKey(s, keys) == Ok((key, value))
    requires ReadValue(value, depth, values, nulls) == Ok(p) && SkipBlank(p.rest) == [','] + more
    requires !StartsWith(SkipBlank(more), '}')
    requires ReadMembers(SkipBlank(more), depth, p.values, nulls, keys + {key}) == Ok(q)
    ensures ReadMembers(s, depth, values, nulls, keys) ==
            Ok(Parsed([J.Member(key, p.value)] + q.value, q.rest, q.values))
  {
    hide ReadValue, ReadKey;
    assert ([','] + more)[1..] == more;
  }

  lemma FirstMember(es: seq<Entry>, depth: nat, nulls: bool, keys: set<string>)
    requires es != [] && EntriesWritten(es)
    ensures MemberTrees(es) == [J.Member(Chars(es[0].key), Tree(es[0].doc))] + MemberTrees(es[1..])
    ensures CountMembers(MemberTrees(es)) == Count(Tree(es[0].doc)) + CountMembers(MemberTrees(es[1..]))
    ensures MembersAdmissible(MemberTrees(es), depth, nulls, keys) ==>
              && KeyAdmissible(Chars(es[0].key), keys)
              && Admissible(Tree(es[0].doc), depth, nulls)
              && MembersAdmissible(MemberTrees(es[1..]), depth, nulls, keys + {Chars(es[0].key)})
  {
    hide Tree, Count, Admissible, KeyAdmissible, Chars;
    var trees := MemberTrees(es);
    assert trees[0] == J.Member(Chars(es[0].key), Tree(es[0].doc)) && trees[1..] == MemberTrees(es[1..]);
  }

  lemma {:induction false} EntriesRead(es: seq<Entry>, rest: string, depth: nat, values: nat, nulls: bool,
                                       keys: set<string>)
    requires es != [] && EntriesWritten(es) && MembersAdmissible(MemberTrees(es), depth, nulls, keys)
    requires values + CountMembers(MemberTrees(es)) <= MAX_VALUES
    ensures ReadMembers(SkipBlank(EntriesText(es, ['}'] + rest)), depth, values, nulls, keys) ==
            Ok(Parsed(MemberTrees(es), rest, values + CountMembers(MemberTrees(es))))
    decreases es, 3
  {
    hide Text, ReadValue, Tree, Count, Admissible, ReadKey, PiecesText, KeyAdmissible, Chars, ReadMembers, MemberTrees,
      CountMembers, MembersAdmissible;
    var close := ['}'] + rest;
    var s := EntriesText(es, close);
    SkippedMembers(s, depth, values, nulls, keys);
    FirstMember(es, depth, nulls, keys);
    var tail := if |es| == 1 then close else [','] + EntriesText(es[1..], close);
    var value := Text(es[0].doc, es[0].after + tail);
    StopsAfter(es[0].after, tail);
    KeyReads(es[0], value, keys);
    TextReads(es[0].doc, es[0].after + tail, depth, values, nulls);
    SkipExactly(es[0].after, tail);
    var key := Chars(es[0].key);
    var p := Parsed(Tree(es[0].doc), es[0].after + tail, values + Count(Tree(es[0].doc)));
    if |es| == 1 {
      LastMember(s, depth, values, nulls, keys, key, value, p, rest);
      NoEntries(es[1..]);
      assert [J.Member(key, p.value)] + MemberTrees(es[1..]) == [J.Member(key, p.value)];
    } else {
      EntriesStart(es[1..], close);
      EntriesRead(es[1..], rest, depth, p.values, nulls, keys + {key});
      MoreMembers(s, depth, values, nulls, keys, key, value, p, EntriesText(es[1..], close),
                  Parsed(MemberTrees(es[1..]), rest, p.values + CountMembers(MemberTrees(es[1..]))));
    }
  }

  // ---------------------------------------------------------------- accepted text was printed

  lemma LiteralText(s: string, literal: string)
    requires ReadLiteral(s, literal).Ok?
    ensures s == literal + ReadLiteral(s, literal).value
  {
  }

  lemma ScalarText(t: string, depth: nat, values: nat, nulls: bool) returns (b: Body)
    requires t != [] && t[0] != '[' && t[0] != '{' && ReadBody(t, depth, values, nulls).Ok?
    ensures var p := ReadBody(t, depth, values, nulls).value;
            && WellWritten(Doc([], b)) && Tree(Doc([], b)) == p.value && t == BodyText(b, p.rest)
            && Admissible(p.value, depth, nulls) && p.values == values && Count(p.value) == 1
  {
    hide ReadNumber, ReadChars, Utf8.Encode, ReadLiteral, PiecesText, Decimal, ReadArray, ReadObject;
    var p := ReadBody(t, depth, values, nulls).value;
    if t[0] == 'n' {
      b := NullText;
      LiteralText(t, "null");
    } else if t[0] == 't' || t[0] == 'f' {
      b := BoolText(t[0] == 't');
      LiteralText(t, if t[0] == 't' then "true" else "false");
    } else if t[0] == '"' {
      var pieces := PiecesOf(t[1..]);
      b := StringText(pieces);
      assert t == ['"'] + t[1..];
    } else {
      DecimalOf(t);
      b := NumberText(ReadNumber(t).value.0);
    }
  }

  lemma {:induction false} ValueText(s: string, depth: nat, values: nat, nulls: bool) returns (d: Doc)
    requires ReadValue(s, depth, values, nulls).Ok?
    ensures var p := ReadValue(s, depth, values, nulls).value;
            && WellWritten(d) && Tree(d) == p.value && s == Text(d, p.rest)
            && Admissible(p.value, depth, nulls)
            && p.values == values + Count(p.value) <= MAX_VALUES
    decreases |s|, 4
  {
    hide ReadBody, BodyText;
    var before := Skipped(s);
    var t := SkipBlank(s);
    var b: Body;
    if t[0] == '[' {
      b := ArrayTextOf(t, depth, values + 1, nulls);
    } else if t[0] == '{' {
      b := ObjectTextOf(t, depth, values + 1, nulls);
    } else {
      b := ScalarText(t, depth, values + 1, nulls);
    }
    d := Doc(before, b);
    SameBody(before, b);
  }

  lemma SameBody(before: string, b: Body)
    requires Blank(before) && WellWritten(Doc([], b))
    ensures WellWritten(Doc(before, b)) && Tree(Doc(before, b)) == Tree(Doc([], b))
  {
  }

  lemma ContainerBody(t: string, depth: nat, values: nat, nulls: bool)
    ensures StartsWith(t, '[') ==> ReadBody(t, depth, values, nulls) == ReadArray(t[1..], depth + 1, values, nulls)
    ensures StartsWith(t, '{') ==> ReadBody(t, depth, values, nulls) == ReadObject(t[1..], depth + 1, values, nulls)
  {
    hide ReadArray, ReadObject, ReadNumber, ReadLiteral, ReadString;
  }

  lemma ArrayWritten(inner: string, items: seq<Item>, rest: string, depth: nat, nulls: bool)
    requires Blank(inner) && ItemsWritten(items)
    ensures var d := Doc([], ArrayText(inner, items));
            && WellWritten(d) && Tree(d) == J.Array(ItemTrees(items))
            && Count(Tree(d)) == 1 + CountItems(ItemTrees(items))
            && (Admissible(Tree(d), depth, nulls) <==>
               depth < MAX_DEPTH && ItemsAdmissible(ItemTrees(items), depth + 1, nulls))
    ensures BodyText(ArrayText(inner, items), rest) ==
            ['['] + if items == [] then inner + ([']'] + rest) else ItemsText(items, [']'] + rest)
  {
    hide ItemTrees, CountItems, ItemsText, ItemsAdmissible;
  }

  lemma ObjectWritten(inner: string, es: seq<Entry>, rest: string, depth: nat, nulls: bool)
    requires Blank(inner) && EntriesWritten(es)
    ensures var d := Doc([], ObjectText(inner, es));
            && WellWritten(d) && Tree(d) == J.Object(MemberTrees(es))
            && Count(Tree(d)) == 1 + CountMembers(MemberTrees(es))
            && (Admissible(Tree(d), depth, nulls) <==>
               depth < MAX_DEPTH && MembersAdmissible(MemberTrees(es), depth + 1, nulls, {}))
    ensures BodyText(ObjectText(inner, es), rest) ==
            ['{'] + if es == [] then inner + (['}'] + rest) else EntriesText(es, ['}'] + rest)
  {
    hide MemberTrees, CountMembers, EntriesText, MembersAdmissible;
  }

  lemma NothingAdmissible(depth: nat, nulls: bool, keys: set<string>)
    ensures ItemsAdmissible([], depth, nulls) && MembersAdmissible([], depth, nulls, keys)
    ensures ItemsWritten([]) && EntriesWritten([])
  {
  }

  lemma {:induction false} ArrayTextOf(t: string, depth: nat, values: nat, nulls: bool) returns (b: Body)
    requires StartsWith(t, '[') && ReadBody(t, depth, values, nulls).Ok? && values <= MAX_VALUES
    ensures var p := ReadBody(t, depth, values, nulls).value;
            && WellWritten(Doc([], b)) && Tree(Doc([], b)) == p.value && t == BodyText(b, p.rest)
            && Admissible(p.value, depth, nulls)
            && p.values == values + Count(p.value) - 1 <= MAX_VALUES
    decreases |t|, 3
  {
    hide ReadItems, ItemsText, ItemTrees, CountItems, ReadBody, BodyText, Tree, Count, Admissible, WellWritten,
      ItemsAdmissible, ItemsWritten;
    ContainerBody(t, depth, values, nulls);
    var s := t[1..];
    assert t == ['['] + s;
    var inner := Skipped(s);
    var u := SkipBlank(s);
    if StartsWith(u, ']') {
      b := ArrayText(inner, []);
      assert u == [']'] + u[1..];
      NothingAdmissible(depth + 1, nulls, {});
      NoItems([]);
      ArrayWritten(inner, [], u[1..], depth, nulls);
    } else {
      SkippedItems(s, depth + 1, values, nulls);
      var items := ItemsTextOf(s, depth + 1, values, nulls);
      b := ArrayText([], items);
      ArrayWritten([], items, ReadBody(t, depth, values, nulls).value.rest, depth, nulls);
    }
  }

  lemma {:induction false} ItemsTextOf(s: string, depth: nat, values: nat, nulls: bool) returns (items: seq<Item>)
    requires ReadItems(s, depth, values, nulls).Ok?
    ensures var p := ReadItems(s, depth, values, nulls).value;
            && items != [] && ItemsWritten(items) && ItemTrees(items) == p.value
            && s == ItemsText(items, [']'] + p.rest)
            && ItemsAdmissible(p.value, depth, nulls)
            && p.values == values + CountItems(p.value) <= MAX_VALUES
    decreases |s|, 5
  {
    hide ReadValue, Text, Tree, Count, Admissible, WellWritten, SkipBlank, Blank;
    var d := ValueText(s, depth, values, nulls);
    var p := ReadValue(s, depth, values, nulls).value;
    var after := Skipped(p.rest);
    var t := SkipBlank(p.rest);
    var item := Item(d, after);
    if StartsWith(t, ']') {
      items := [item];
      assert items[1..] == [] && [p.value][1..] == [];
      assert t == [']'] + t[1..];
    } else {
      SkippedItems(t[1..], depth, p.values, nulls);
      var more := ItemsTextOf(t[1..], depth, p.values, nulls);
      items := [item] + more;
      assert items[1..] == more;
      var q := ReadItems(t[1..], depth, p.values, nulls).value;
      assert ([p.value] + q.value)[1..] == q.value;
      assert t == [','] + t[1..];
    }
  }

  lemma {:induction false} ObjectTextOf(t: string, depth: nat, values: nat, nulls: bool) returns (b: Body)
    requires StartsWith(t, '{') && ReadBody(t, depth, values, nulls).Ok? && values <= MAX_VALUES
    ensures var p := ReadBody(t, depth, values, nulls).value;
            && WellWritten(Doc([], b)) && Tree(Doc([], b)) == p.value && t == BodyText(b, p.rest)
            && Admissible(p.value, depth, nulls)
            && p.values == values + Count(p.value) - 1 <= MAX_VALUES
    decreases |t|, 3
  {
    hide ReadMembers, EntriesText, MemberTrees, CountMembers, ReadBody, BodyText, Tree, Count, Admissible, WellWritten,
      MembersAdmissible, EntriesWritten;
    ContainerBody(t, depth, values, nulls);
    var s := t[1..];
    assert t == ['{'] + s;
    var inner := Skipped(s);
    var u := SkipBlank(s);
    if StartsWith(u, '}') {
      b := ObjectText(inner, []);
      assert u == ['}'] + u[1..];
      NothingAdmissible(depth + 1, nulls, {});
      NoEntries([]);
      ObjectWritten(inner, [], u[1..], depth, nulls);
    } else {
      SkippedMembers(s, depth + 1, values, nulls, {});
      var members := EntriesTextOf(s, depth + 1, values, nulls, {});
      b := ObjectText([], members);
      ObjectWritten([], members, ReadBody(t, depth, values, nulls).value.rest, depth, nulls);
    }
  }

  lemma KeyTextOf(s: string, keys: set<string>) returns (before: string, key: seq<Piece>, colon: string)
    requires ReadKey(s, keys).Ok?
    ensures var (text, value) := ReadKey(s, keys).value;
            && Blank(before) && ValidPieces(key) && Blank(colon) && Chars(key) == text && KeyAdmissible(text, keys)
            && s == before + (['"'] + PiecesText(key, colon + ([':'] + value)))
  {
    hide PiecesText, ReadChars, Utf8.Encode, Chars, ValidPieces;
    before := Skipped(s);
    var t := SkipBlank(s);
    assert t == ['"'] + t[1..];
    key := PiecesOf(t[1..]);
    var rest := ReadString(t[1..]).value.1;
    colon := Skipped(rest);
    var u := SkipBlank(rest);
    assert u == [':'] + u[1..];
  }

  lemma {:induction false} EntriesTextOf(s: string, depth: nat, values: nat, nulls: bool, keys: set<string>)
    returns (es: seq<Entry>)
    requires ReadMembers(s, depth, values, nulls, keys).Ok?
    ensures var p := ReadMembers(s, depth, values, nulls, keys).value;
            && es != [] && EntriesWritten(es) && MemberTrees(es) == p.value
            && s == EntriesText(es, ['}'] + p.rest)
            && MembersAdmissible(p.value, depth, nulls, keys)
            && p.values == values + CountMembers(p.value) <= MAX_VALUES
    decreases |s|, 5
  {
    hide ReadValue, Text, Tree, Count, Admissible, WellWritten, ReadKey, PiecesText, Chars, ValidPieces, KeyAdmissible;
    var before, key, colon := KeyTextOf(s, keys);
    var (text, s1) := ReadKey(s, keys).value;
    var d := ValueText(s1, depth, values, nulls);
    var p := ReadValue(s1, depth, values, nulls).value;
    var after := Skipped(p.rest);
    var t := SkipBlank(p.rest);
    var e := Entry(before, key, colon, d, after);
    var member := J.Member(text, p.value);
    if StartsWith(t, '}') {
      es := [e];
      assert es[1..] == [] && [member][1..] == [];
      assert t == ['}'] + t[1..];
    } else {
      SkippedMembers(t[1..], depth, p.values, nulls, keys + {text});
      var more := EntriesTextOf(t[1..], depth, p.values, nulls, keys + {text});
      es := [e] + more;
      assert es[1..] == more;
      var q := ReadMembers(t[1..], depth, p.values, nulls, keys + {text}).value;
      assert ([member] + q.value)[1..] == q.value;
      assert t == [','] + t[1..];
    }
  }

  // ---------------------------------------------------------------- main results

  /** `text` is a way of writing `v`, with blanks around it. */
  ghost predicate Writes(text: string, v: J.Json) {
    exists d: Doc, after: string :: WellWritten(d) && Blank(after) && Tree(d) == v && text == Text(d, after)
  }

  /** The limits on a whole document. */
  predicate Fits(text: string, v: J.Json, nulls: bool) {
    |Utf8.Encode(text)| <= MAX_BYTES && Admissible(v, 0, nulls) && Count(v) <= MAX_VALUES
  }

  lemma SkippedValue(s: string, depth: nat, values: nat, nulls: bool)
    ensures ReadValue(SkipBlank(s), depth, values, nulls) == ReadValue(s, depth, values, nulls)
  {
    hide ReadBody;
    SkipTwice(s);
  }

  lemma BlankSkips(after: string)
    requires Blank(after)
    ensures SkipBlank(after) == []
  {
    SkipExactly(after, []);
    assert after + [] == after;
  }

  lemma NoBom(d: Doc, rest: string)
    requires Blank(d.before)
    ensures !StartsWith(Text(d, rest), BOM)
  {
    hide Decimal, PiecesText, ItemsText, EntriesText;
    BodyStart(d.body, rest);
    var t := Text(d, rest);
    if d.before != [] {
      assert IsSpace(t[0]);
    } else {
      assert t == BodyText(d.body, rest);
      if d.body.NumberText? {
        assert t[0] == Decimal(d.body.n)[0] && IsDigit(t[0]);
      }
    }
  }

  /**
   The strict parser accepts exactly the texts that write an admissible tree, with any blanks
   and any legal escapes, and returns that tree.
   */
  lemma ParseMeaning(text: string, v: J.Json, nulls: bool)
    ensures Parse(text, nulls) == Ok(v) <==> Writes(text, v) && Fits(text, v, nulls)
  {
    hide ReadValue, Text, Tree, Count, Admissible, WellWritten, Utf8.Encode;
    SkippedValue(text, 0, 0, nulls);
    if Parse(text, nulls) == Ok(v) {
      var d := ValueText(text, 0, 0, nulls);
      var p := ReadValue(text, 0, 0, nulls).value;
      var after := Skipped(p.rest);
      assert after + [] == after;
      assert WellWritten(d) && Blank(after) && Tree(d) == v && text == Text(d, after);
    }
    if Writes(text, v) && Fits(text, v, nulls) {
      var d: Doc, after: string :| WellWritten(d) && Blank(after) && Tree(d) == v && text == Text(d, after);
      BlankBefore(d);
      NoBom(d, after);
      BlankSkips(after);
      TextReads(d, after, 0, 0, nulls);
    }
  }

  lemma BlankBefore(d: Doc)
    requires WellWritten(d)
    ensures Blank(d.before)
  {
  }
}
