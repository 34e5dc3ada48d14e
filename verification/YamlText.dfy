/**
 The text level of the YAML subset (`yaml.rs`): lines and their comments, keys, and scalars,
 with what each reads of the text that a block printer writes. The scan for a comment follows
 the source, quotes included: a `#` opens a comment only outside quotes and after a space, and
 a backslash is an ordinary character to it. Keys are bare words of ASCII letters, digits, `_`,
 `-` and `.`; scalars are the empty list and the empty mapping, booleans, decimal numbers and quoted
 strings, where a single quote inside a single-quoted string is written twice. Each form that
 the printer may choose is shown to be kept by the comment scan and read back unchanged.
 */
module YamlText {
  import opened Wrappers
  import JsonText
  import Json
  import J = JsonValue

  datatype Error =
    | TooLarge | NullByte | EmptyDocument | TrailingLines | TooDeep | UnexpectedEnd
    | KeyExpected | DuplicateKey | MissingValue | EmptyMapping | EmptySequence | EmptyItem
    | Tab | DocumentMarker | ColonNotFollowed
    | EmptyScalar | BadQuoted | Unterminated | BadSingleQuote | UnsupportedSyntax
    | NullScalar | LeadingZero | IntegerTooLarge | FloatScalar | ControlCharacter

  /** A line that is left after comments: its indentation and its text. */
  datatype Line = Line(indent: nat, text: string)

  const QUOTE: char := '\''

  // ---------------------------------------------------------------- comments

  function TrimEnd(s: string): (t: string)
    ensures t == [] || t[|t| - 1] != ' '
    ensures t <= s
  {
    if s != [] && s[|s| - 1] == ' ' then TrimEnd(s[..|s| - 1]) else s
  }

  /** The scan of `strip_comment`: the text before an unquoted `#` that starts a comment. */
  function Uncommented(s: string, spaced: bool, quote: Option<char>): (t: string)
    ensures t <= s
  {
    if s == [] then []
    else
      var c := s[0];
      if quote.Some? then
        [c] + Uncommented(s[1..], c == ' ', if c == quote.value then None else quote)
      else if c == '"' || c == QUOTE then [c] + Uncommented(s[1..], false, Some(c))
      else if c == '#' && spaced then []
      else [c] + Uncommented(s[1..], c == ' ', None)
  }

  function StripComment(s: string): string {
    TrimEnd(Uncommented(s, true, None))
  }

  // ---------------------------------------------------------------- lines

  function Indent(s: string): (n: nat)
    ensures n <= |s| && (n < |s| ==> s[n] != ' ')
  {
    if s != [] && s[0] == ' ' then 1 + Indent(s[1..]) else 0
  }

  /** `str::lines`: split after each newline, a carriage return before it dropped. */
  function SplitLines(s: string): (ls: seq<string>)
    decreases |s|
  {
    if s == [] then []
    else
      var n := LineEnd(s);
      if n == |s| then [s]
      else [DropReturn(s[..n])] + SplitLines(s[n + 1..])
  }

  function LineEnd(s: string): (n: nat)
    ensures n <= |s|
    ensures forall i :: 0 <= i < n ==> s[i] != '\n'
    ensures n < |s| ==> s[n] == '\n'
  {
    if s == [] || s[0] == '\n' then 0 else 1 + LineEnd(s[1..])
  }

  function DropReturn(s: string): string {
    if s != [] && s[|s| - 1] == '\r' then s[..|s| - 1] else s
  }

  /** One raw line: nothing when it is blank or a comment. */
  function ReadLine(raw: string): Result<Option<Line>, Error> {
    var n := Indent(raw);
    var body := StripComment(raw[n..]);
    if body == [] then Ok(None)
    else if body == "---" || body == "..." then Err(DocumentMarker)
    else Ok(Some(Line(n, body)))
  }

  function ReadLines(raws: seq<string>): Result<seq<Line>, Error> {
    if raws == [] then Ok([])
    else
      var first :- ReadLine(raws[0]);
      var rest :- ReadLines(raws[1..]);
      Ok((if first.Some? then [first.value] else []) + rest)
  }

  /** `collect_lines`. */
  function CollectLines(input: string): Result<seq<Line>, Error> {
    if '\t' in input then Err(Tab) else ReadLines(SplitLines(input))
  }

  // ---------------------------------------------------------------- keys

  predicate KeyStart(c: char) {
    'a' <= c <= 'z' || 'A' <= c <= 'Z' || c == '_'
  }

  predicate KeyChar(c: char) {
    KeyStart(c) || '0' <= c <= '9' || c == '-' || c == '.'
  }

  function KeyRun(s: string): (n: nat)
    ensures n <= |s|
    ensures forall i :: 0 <= i < n ==> KeyChar(s[i])
    ensures n < |s| ==> !KeyChar(s[n])
  {
    if s != [] && KeyChar(s[0]) then 1 + KeyRun(s[1..]) else 0
  }

  predicate ValidKey(key: string) {
    key != [] && KeyStart(key[0]) && forall i :: 0 <= i < |key| ==> KeyChar(key[i])
  }

  function TrimStart(s: string): string {
    if s != [] && s[0] == ' ' then TrimStart(s[1..]) else s
  }

  /** `match_key`: the key and what follows its colon, when the text starts with a key. */
  function MatchKey(text: string): Result<Option<(string, string)>, Error> {
    if text == [] || !KeyStart(text[0]) then Ok(None)
    else
      var n := KeyRun(text);
      if n >= |text| || text[n] != ':' then Ok(None)
      else
        var rest := text[n + 1..];
        if rest == [] then Ok(Some((text[..n], [])))
        else if rest[0] != ' ' then Err(ColonNotFollowed)
        else Ok(Some((text[..n], TrimStart(rest))))
  }

  lemma {:induction false} KeyRunOf(key: string, rest: string)
    requires (forall i :: 0 <= i < |key| ==> KeyChar(key[i])) && rest != [] && !KeyChar(rest[0])
    ensures KeyRun(key + rest) == |key|
  {
    if key == [] {
      assert key + rest == rest;
    } else {
      assert (key + rest)[1..] == key[1..] + rest;
      KeyRunOf(key[1..], rest);
    }
  }

  /** A key, its colon, and a value that does not start with a space. */
  lemma KeyMatches(key: string, value: string)
    requires ValidKey(key) && (value == [] || value[0] != ' ')
    ensures MatchKey(key + [':']) == Ok(Some((key, [])))
    ensures value != [] ==> MatchKey(key + [':', ' '] + value) == Ok(Some((key, value)))
  {
    KeyRunOf(key, [':']);
    assert (key + [':'])[..|key|] == key;
    var text := key + [':', ' '] + value;
    assert text == key + ([':', ' '] + value);
    KeyRunOf(key, [':', ' '] + value);
    assert text[..|key|] == key && text[|key| + 1..] == [' '] + value;
    assert ([' '] + value)[1..] == value;
    assert TrimStart(value) == value;
    assert text[|key|] == ':' && text[0] == key[0];
  }

  // ---------------------------------------------------------------- scalars

  predicate Contains(s: string, chars: string) {
    exists i :: 0 <= i < |s| && s[i] in chars
  }

  /** `char::is_control`. */
  predicate IsControl(c: char) {
    c as int < 0x20 || 0x7f <= c as int < 0xa0
  }

  function LowerAscii(c: char): char {
    if 'A' <= c <= 'Z' then (c as int + 32) as char else c
  }

  predicate IsNullWord(s: string) {
    |s| == 4 && LowerAscii(s[0]) == 'n' && LowerAscii(s[1]) == 'u' && LowerAscii(s[2]) == 'l' && LowerAscii(s[3]) == 'l'
  }

  predicate LooksLikeFloat(s: string) {
    '.' in s && forall i :: 0 <= i < |s| ==> JsonText.IsDigit(s[i]) || s[i] == '.'
  }

  /** `classify_plain`. */
  function ClassifyPlain(s: string): Result<J.Json, Error> {
    if s == "true" then Ok(J.Bool(true))
    else if s == "false" then Ok(J.Bool(false))
    else if s == "~" || IsNullWord(s) then Err(NullScalar)
    else if JsonText.AllDigits(s) then
      if s != "0" && JsonText.StartsWith(s, '0') then Err(LeadingZero)
      else if JsonText.FromDecimal(s) >= JsonText.TWO_64 then Err(IntegerTooLarge)
      else Ok(J.Integer(JsonText.FromDecimal(s)))
    else if LooksLikeFloat(s) then Err(FloatScalar)
    else if exists i :: 0 <= i < |s| && IsControl(s[i]) then Err(ControlCharacter)
    else Ok(J.String(s))
  }

  /** The inside of a single-quoted string, every quote doubled. */
  function Unquote(s: string): Result<string, Error> {
    if s == [] then Ok([])
    else if s[0] != QUOTE then
      var rest :- Unquote(s[1..]);
      Ok([s[0]] + rest)
    else if |s| > 1 && s[1] == QUOTE then
      var rest :- Unquote(s[2..]);
      Ok([QUOTE] + rest)
    else Err(BadSingleQuote)
  }

  /** `parse_single`. */
  function ParseSingle(s: string): Result<string, Error> {
    if |s| < 2 || s[0] != QUOTE || s[|s| - 1] != QUOTE then Err(Unterminated)
    else Unquote(s[1..|s| - 1])
  }

  /** `parse_scalar`. */
  function ParseScalar(s: string): Result<J.Json, Error> {
    if s == [] then Err(EmptyScalar)
    else if s[0] == '"' then
      match Json.Parse(s, false)
      case Ok(v) => if v.String? then Ok(v) else Err(BadQuoted)
      case Err(_) => Err(BadQuoted)
    else if s[0] == QUOTE then
      var text :- ParseSingle(s);
      Ok(J.String(text))
    else if s[0] in "[{&*!|>" || Contains(s, ":&*!|>#") then Err(UnsupportedSyntax)
    else ClassifyPlain(s)
  }

  // ---------------------------------------------------------------- printed scalars

  /** What stands on one line: `[]`, `{}`, a boolean, an integer or a single-quoted string. */
  datatype Leaf = NoItems | NoEntries | Flag(b: bool) | Number(n: nat) | Quoted(text: string)

  function Doubled(s: string): string {
    if s == [] then []
    else (if s[0] == QUOTE then [QUOTE, QUOTE] else [s[0]]) + Doubled(s[1..])
  }

  function LeafText(leaf: Leaf): (s: string)
    ensures s != [] && s[0] != ' ' && s[|s| - 1] != ' '
  {
    match leaf
    case NoItems => "[]"
    case NoEntries => "{}"
    case Flag(b) => if b then "true" else "false"
    case Number(n) =>
      assert JsonText.IsDigit(JsonText.Decimal(n)[0])
          && JsonText.IsDigit(JsonText.Decimal(n)[|JsonText.Decimal(n)| - 1]);
      JsonText.Decimal(n)
    case Quoted(text) => [QUOTE] + Doubled(text) + [QUOTE]
  }

  function LeafTree(leaf: Leaf): J.Json {
    match leaf
    case NoItems => J.Array([])
    case NoEntries => J.Object([])
    case Flag(b) => J.Bool(b)
    case Number(n) => J.Integer(n)
    case Quoted(text) => J.String(text)
  }

  /** A string that one line can hold: no newline, tab or null byte. */
  predicate OneLine(s: string) {
    '\n' !in s && '\t' !in s && 0 as char !in s
  }

  predicate ValidLeaf(leaf: Leaf) {
    match leaf
    case Number(n) => n < JsonText.TWO_64
    case Quoted(text) => OneLine(text)
    case _ => true
  }

  lemma {:induction false} UnquoteDoubled(s: string)
    ensures Unquote(Doubled(s)) == Ok(s)
  {
    if s != [] {
      var d := Doubled(s);
      UnquoteDoubled(s[1..]);
      assert s == [s[0]] + s[1..];
      if s[0] == QUOTE {
        assert d == [QUOTE, QUOTE] + Doubled(s[1..]);
        assert d[2..] == Doubled(s[1..]);
      } else {
        assert d == [s[0]] + Doubled(s[1..]);
        assert d[1..] == Doubled(s[1..]);
      }
    }
  }

  lemma NumberIsPlain(n: nat)
    requires n < JsonText.TWO_64
    ensures ParseScalar(JsonText.Decimal(n)) == Ok(J.Integer(n))
  {
    hide JsonText.FromDecimal, JsonText.Decimal;
    var s := JsonText.Decimal(n);
    JsonText.FromDecimalInverse(n);
    assert JsonText.IsDigit(s[0]);
    assert !Contains(s, ":&*!|>#") by {
      assert forall c :: c in ":&*!|>#" ==> !JsonText.IsDigit(c);
    }
    assert s[0] !in "[{&*!|>";
    ZeroIsZero(n);
  }

  lemma ZeroIsZero(n: nat)
    ensures JsonText.StartsWith(JsonText.Decimal(n), '0') ==> JsonText.Decimal(n) == "0"
  {
    if n == 0 {
      assert JsonText.Decimal(0) == [JsonText.DigitChar(0)];
    }
  }

  /** Every leaf but the two empty containers is a scalar that reads back. */
  lemma LeafParses(leaf: Leaf)
    requires ValidLeaf(leaf) && !leaf.NoItems? && !leaf.NoEntries?
    ensures ParseScalar(LeafText(leaf)) == Ok(LeafTree(leaf))
  {
    hide Json.Parse, JsonText.FromDecimal, JsonText.Decimal;
    match leaf
    case Flag(b) =>
      assert !Contains("true", ":&*!|>#") && !Contains("false", ":&*!|>#");
    case Number(n) => NumberIsPlain(n);
    case Quoted(text) =>
      var s := LeafText(leaf);
      assert s[1..|s| - 1] == Doubled(text);
      UnquoteDoubled(text);
  }

  lemma LeafIsNoKey(leaf: Leaf)
    requires ValidLeaf(leaf)
    ensures MatchKey(LeafText(leaf)) == Ok(None)
  {
    hide JsonText.Decimal, JsonText.FromDecimal;
    match leaf
    case Flag(b) =>
      KeyRunAll("true");
      KeyRunAll("false");
    case Number(n) => assert JsonText.IsDigit(JsonText.Decimal(n)[0]);
    case _ =>
  }

  lemma {:induction false} KeyRunAll(s: string)
    requires forall i :: 0 <= i < |s| ==> KeyChar(s[i])
    ensures KeyRun(s) == |s|
  {
    if s != [] {
      KeyRunAll(s[1..]);
    }
  }

  // ---------------------------------------------------------------- printed lines

  /** Text without quotes or `#`. */
  predicate Bare(s: string) {
    forall i :: 0 <= i < |s| ==> s[i] != '"' && s[i] != QUOTE && s[i] != '#'
  }

  lemma {:induction false} BareKept(bare: string, s: string, spaced: bool)
    requires Bare(bare)
    ensures Uncommented(bare + s, spaced, None) ==
            bare + Uncommented(s, if bare == [] then spaced else bare[|bare| - 1] == ' ', None)
  {
    if bare == [] {
      assert bare + s == s;
    } else {
      assert (bare + s)[0] == bare[0] && (bare + s)[1..] == bare[1..] + s;
      BareKept(bare[1..], s, bare[0] == ' ');
      var next := if bare[1..] == [] then bare[0] == ' ' else bare[1..][|bare[1..]| - 1] == ' ';
      assert bare == [bare[0]] + bare[1..];
      ConcatChars(bare[0], bare[1..], Uncommented(s, next, None));
    }
  }

  lemma ConcatChars(c: char, s: string, t: string)
    ensures [c] + s + t == [c] + (s + t)
  {
  }

  lemma InsideQuotes(c: char, rest: string, spaced: bool)
    ensures Uncommented([c] + rest, spaced, Some(QUOTE)) ==
            [c] + Uncommented(rest, c == ' ', if c == QUOTE then None else Some(QUOTE))
    ensures Uncommented([QUOTE] + rest, spaced, None) == [QUOTE] + Uncommented(rest, false, Some(QUOTE))
  {
    assert ([c] + rest)[1..] == rest && ([QUOTE] + rest)[1..] == rest;
  }

  lemma DoubledFirst(text: string)
    requires text != []
    ensures Doubled(text) ==
            (if text[0] == QUOTE then [QUOTE] + ([QUOTE] + Doubled(text[1..])) else [text[0]] + Doubled(text[1..]))
  {
  }

  /** Inside single quotes nothing starts a comment, doubled quotes included. */
  lemma {:induction false} QuotedKept(text: string, s: string, spaced: bool)
    ensures Uncommented(Doubled(text) + ([QUOTE] + s), spaced, Some(QUOTE)) ==
            Doubled(text) + ([QUOTE] + Uncommented(s, false, None))
  {
    hide Uncommented, Doubled;
    if text == [] {
      assert Doubled(text) == [] by {
        DoubledEmpty();
      }
      assert [] + ([QUOTE] + s) == [QUOTE] + s;
      InsideQuotes(QUOTE, s, spaced);
      assert [] + ([QUOTE] + Uncommented(s, false, None)) == [QUOTE] + Uncommented(s, false, None);
    } else {
      var d := Doubled(text[1..]);
      var rest, kept := d + ([QUOTE] + s), d + ([QUOTE] + Uncommented(s, false, None));
      DoubledFirst(text);
      if text[0] == QUOTE {
        QuotedKept(text[1..], s, false);
        InsideQuotes(QUOTE, [QUOTE] + rest, spaced);
        InsideQuotes(QUOTE, rest, false);
        Regroup2(d, [QUOTE] + s);
        Regroup2(d, [QUOTE] + Uncommented(s, false, None));
      } else {
        QuotedKept(text[1..], s, text[0] == ' ');
        InsideQuotes(text[0], rest, spaced);
        ConcatChars(text[0], d, [QUOTE] + s);
        ConcatChars(text[0], d, [QUOTE] + Uncommented(s, false, None));
      }
    }
  }

  lemma DoubledEmpty()
    ensures Doubled([]) == []
  {
  }

  lemma Regroup2(d: string, t: string)
    ensures [QUOTE] + ([QUOTE] + d) + t == [QUOTE] + ([QUOTE] + (d + t))
  {
  }

  lemma LeafKept(leaf: Leaf, s: string, spaced: bool)
    ensures Uncommented(LeafText(leaf) + s, spaced, None) == LeafText(leaf) + Uncommented(s, false, None)
  {
    hide JsonText.Decimal, Doubled;
    var t := LeafText(leaf);
    match leaf
    case Quoted(text) =>
      var inner := Doubled(text) + ([QUOTE] + s);
      assert t + s == [QUOTE] + inner;
      assert (t + s)[1..] == inner;
      QuotedKept(text, s, false);
    case Number(n) =>
      assert forall i :: 0 <= i < |t| ==> JsonText.IsDigit(t[i]);
      BareKept(t, s, spaced);
    case _ => BareKept(t, s, spaced);
  }

  predicate Spaces(s: string) {
    forall i :: 0 <= i < |s| ==> s[i] == ' '
  }

  /** What may follow a line: spaces, and after a space a comment. */
  datatype Trailer = Trailer(spaces: string, comment: Option<string>)

  predicate ValidTrailer(t: Trailer) {
    && Spaces(t.spaces)
    && (t.comment.Some? ==> t.spaces != [] && OneLine(t.comment.value)
                            && (t.comment.value == [] || t.comment.value[|t.comment.value| - 1] != '\r'))
  }

  function TrailerText(t: Trailer): string {
    t.spaces + if t.comment.Some? then ['#'] + t.comment.value else []
  }

  lemma {:induction false} SpacesKept(spaces: string, s: string, spaced: bool)
    requires Spaces(spaces)
    ensures Uncommented(spaces + s, spaced, None) == spaces + Uncommented(s, spaced || spaces != [], None)
  {
    BareKept(spaces, s, spaced);
  }

  lemma TrailerDropped(t: Trailer)
    requires ValidTrailer(t)
    ensures Uncommented(TrailerText(t), false, None) == t.spaces
  {
    var s := if t.comment.Some? then ['#'] + t.comment.value else [];
    SpacesKept(t.spaces, s, false);
    assert t.spaces + [] == t.spaces;
  }

  lemma {:induction false} TrimSpaces(body: string, spaces: string)
    requires Spaces(spaces) && (body == [] || body[|body| - 1] != ' ')
    ensures TrimEnd(body + spaces) == body
  {
    var s := body + spaces;
    if spaces == [] {
      assert s == body;
    } else {
      assert s[..|s| - 1] == body + spaces[..|spaces| - 1];
      TrimSpaces(body, spaces[..|spaces| - 1]);
    }
  }

  /** A bare start, such as a key or a dash, then possibly a leaf. */
  datatype Content = Content(start: string, leaf: Option<Leaf>)

  predicate ValidContent(c: Content) {
    && Bare(c.start) && OneLine(c.start)
    && (c.leaf.Some? ==> ValidLeaf(c.leaf.value))
    && (c.leaf.None? ==> c.start != [] && c.start[|c.start| - 1] != ' ' && c.start[|c.start| - 1] != '\r')
    && (c.start != [] ==> c.start[0] != ' ')
  }

  function ContentText(c: Content): string {
    c.start + if c.leaf.Some? then LeafText(c.leaf.value) else []
  }

  lemma LeafContentKept(start: string, leaf: Leaf, t: Trailer)
    requires Bare(start) && ValidTrailer(t)
    ensures StripComment(start + LeafText(leaf) + TrailerText(t)) == start + LeafText(leaf)
  {
    hide LeafText, TrailerText, Uncommented, TrimEnd, Bare;
    var text, tail := LeafText(leaf), TrailerText(t);
    TrailerDropped(t);
    LeafFacts(leaf);
    BareKept(start, text + tail, true);
    LeafKept(leaf, tail, if start == [] then true else start[|start| - 1] == ' ');
    ConcatStrings(start, text, tail);
    ConcatStrings(start, text, t.spaces);
    assert (start + text)[|start + text| - 1] == text[|text| - 1];
    TrimSpaces(start + text, t.spaces);
  }

  lemma ConcatStrings(a: string, b: string, c: string)
    ensures a + b + c == a + (b + c)
  {
  }

  lemma StartKept(start: string, t: Trailer)
    requires Bare(start) && ValidTrailer(t) && start != [] && start[|start| - 1] != ' '
    ensures StripComment(start + TrailerText(t)) == start
  {
    hide TrailerText, Uncommented, TrimEnd, Bare;
    TrailerDropped(t);
    BareKept(start, TrailerText(t), true);
    TrimSpaces(start, t.spaces);
  }

  /** Comments and trailing spaces go; the content stays. */
  lemma ContentKept(c: Content, t: Trailer)
    requires ValidContent(c) && ValidTrailer(t)
    ensures StripComment(ContentText(c) + TrailerText(t)) == ContentText(c)
    ensures ContentText(c) != [] && ContentText(c)[0] != ' '
  {
    hide LeafText, TrailerText, StripComment, Bare;
    if c.leaf.Some? {
      LeafFacts(c.leaf.value);
      LeafContentKept(c.start, c.leaf.value, t);
    } else {
      assert ContentText(c) == c.start;
      StartKept(c.start, t);
    }
  }

  lemma LeafFacts(leaf: Leaf)
    ensures LeafText(leaf) != [] && LeafText(leaf)[0] != ' ' && LeafText(leaf)[|LeafText(leaf)| - 1] != ' '
  {
  }
}
