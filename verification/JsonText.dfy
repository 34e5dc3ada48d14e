/**
 The pieces of strict JSON text (`json.rs`): whitespace, strings with their escapes, integers.
 Readers take the characters that are left and return a value with those after it. The other
 direction is a specification of all the ways a value may be written: a string is a sequence of
 pieces, each a plain character, a two-character escape, a `\u` escape or a pair of them for a
 character beyond the basic plane, with hexadecimal digits in either case. A string is accepted
 exactly when it is such a sequence of pieces and a closing quote, and an integer exactly when
 it is the decimal text of its value.
 */
module JsonText {
  import opened Wrappers

  const TWO_64: nat := 0x1_0000_0000_0000_0000

  datatype Error =
    | TooLarge | ByteOrderMark | TrailingData | TooManyValues | TooDeep
    | NullNotAllowed | InvalidValue | InvalidLiteral | NegativeNumber
    | TrailingComma | NotClosed | KeyNotString | KeyTooLong | DuplicateKey | MissingColon
    | LeadingZero | NotInteger | IntegerTooLarge
    | Unterminated | StringTooLong | ControlCharacter | BadEscape | LoneSurrogate | BadHex | UnexpectedEnd

  type Read<T> = Result<(T, string), Error>

  predicate StartsWith(s: string, c: char) {
    s != [] && s[0] == c
  }

  // ---------------------------------------------------------------- whitespace

  predicate IsSpace(c: char) {
    c == ' ' || c == '\t' || c == '\n' || c == '\r'
  }

  predicate Blank(s: string) {
    forall i :: 0 <= i < |s| ==> IsSpace(s[i])
  }

  function SkipBlank(s: string): (r: string)
    ensures |r| <= |s|
    ensures r == [] || !IsSpace(r[0])
  {
    if s != [] && IsSpace(s[0]) then SkipBlank(s[1..]) else s
  }

  lemma {:induction false} SkipExactly(blank: string, t: string)
    requires Blank(blank) && (t == [] || !IsSpace(t[0]))
    ensures SkipBlank(blank + t) == t
  {
    if blank == [] {
      assert blank + t == t;
    } else {
      assert (blank + t)[1..] == blank[1..] + t;
      SkipExactly(blank[1..], t);
    }
  }

  lemma {:induction false} Skipped(s: string) returns (blank: string)
    ensures Blank(blank) && s == blank + SkipBlank(s)
  {
    if s != [] && IsSpace(s[0]) {
      var tail := Skipped(s[1..]);
      blank := [s[0]] + tail;
    } else {
      blank := [];
    }
  }

  lemma SkipTwice(s: string)
    ensures SkipBlank(SkipBlank(s)) == SkipBlank(s)
  {
  }

  // ---------------------------------------------------------------- escapes

  function HexValue(c: char): (r: Option<nat>)
    ensures r.Some? ==> r.value < 16
  {
    if '0' <= c <= '9' then Some(c as int - '0' as int)
    else if 'a' <= c <= 'f' then Some(c as int - 'a' as int + 10)
    else if 'A' <= c <= 'F' then Some(c as int - 'A' as int + 10)
    else None
  }

  function ReadHex(s: string): (r: Read<nat>)
    ensures r.Ok? ==> r.value.0 < 16 && |r.value.1| < |s|
  {
    if s == [] then Err(UnexpectedEnd)
    else
      match HexValue(s[0])
      case None => Err(BadHex)
      case Some(d) => Ok((d, s[1..]))
  }

  /** `parse_hex4`. */
  function ReadHex4(s: string): (r: Read<nat>)
    ensures r.Ok? ==> r.value.0 < 0x10000 && |r.value.1| < |s|
  {
    var (a, s1) :- ReadHex(s);
    var (b, s2) :- ReadHex(s1);
    var (c, s3) :- ReadHex(s2);
    var (d, s4) :- ReadHex(s3);
    Ok((((a * 16 + b) * 16 + c) * 16 + d, s4))
  }

  predicate HighSurrogate(unit: nat) {
    0xD800 <= unit <= 0xDBFF
  }

  predicate LowSurrogate(unit: nat) {
    0xDC00 <= unit <= 0xDFFF
  }

  function Combine(high: nat, low: nat): char
    requires HighSurrogate(high) && LowSurrogate(low)
  {
    (0x10000 + (high - 0xD800) * 0x400 + (low - 0xDC00)) as char
  }

  /** `parse_unicode`, after the `u`. */
  function ReadUnicode(s: string): (r: Read<char>)
    ensures r.Ok? ==> |r.value.1| < |s|
  {
    var (unit, s1) :- ReadHex4(s);
    if HighSurrogate(unit) then
      if !StartsWith(s1, '\\') then Err(LoneSurrogate)
      else if s1[1..] == [] then Err(UnexpectedEnd)
      else if s1[1] != 'u' then Err(LoneSurrogate)
      else
        var (low, rest) :- ReadHex4(s1[2..]);
        if LowSurrogate(low) then Ok((Combine(unit, low), rest)) else Err(LoneSurrogate)
    else if LowSurrogate(unit) then Err(LoneSurrogate)
    else Ok((unit as char, s1))
  }

  /** What a one-letter escape stands for. */
  function Short(letter: char): Option<char> {
    if letter == '"' || letter == '\\' || letter == '/' then Some(letter)
    else if letter == 'b' then Some(8 as char)
    else if letter == 'f' then Some(12 as char)
    else if letter == 'n' then Some('\n')
    else if letter == 'r' then Some('\r')
    else if letter == 't' then Some('\t')
    else None
  }

  /** `parse_escape`, after the backslash. */
  function ReadEscape(s: string): (r: Read<char>)
    ensures r.Ok? ==> |r.value.1| < |s|
  {
    if s == [] then Err(UnexpectedEnd)
    else if s[0] == 'u' then ReadUnicode(s[1..])
    else
      match Short(s[0])
      case None => Err(BadEscape)
      case Some(c) => Ok((c, s[1..]))
  }

  /** The characters of a string up to its closing quote. */
  function ReadChars(s: string): (r: Read<string>)
    ensures r.Ok? ==> |r.value.1| < |s|
    decreases |s|
  {
    if s == [] then Err(Unterminated)
    else if s[0] == '"' then Ok(([], s[1..]))
    else if s[0] == '\\' then
      var (c, s1) :- ReadEscape(s[1..]);
      var (cs, rest) :- ReadChars(s1);
      Ok(([c] + cs, rest))
    else if s[0] < ' ' then Err(ControlCharacter)
    else
      var (cs, rest) :- ReadChars(s[1..]);
      Ok(([s[0]] + cs, rest))
  }

  // ---------------------------------------------------------------- the ways to write a string

  datatype Hex4 = Hex4(a: char, b: char, c: char, d: char)

  /** One character of a string as it may be written (section 7 of RFC 8259). */
  datatype Piece = Plain(c: char) | Letter(letter: char) | Unit(unit: Hex4) | Pair(high: Hex4, low: Hex4)

  predicate HexDigits(h: Hex4) {
    HexValue(h.a).Some? && HexValue(h.b).Some? && HexValue(h.c).Some? && HexValue(h.d).Some?
  }

  function HexNumber(h: Hex4): (n: nat)
    requires HexDigits(h)
    ensures n < 0x10000
  {
    ((HexValue(h.a).value * 16 + HexValue(h.b).value) * 16 + HexValue(h.c).value) * 16 + HexValue(h.d).value
  }

  predicate ValidPiece(p: Piece) {
    match p
    case Plain(c) => c != '"' && c != '\\' && c >= ' '
    case Letter(letter) => Short(letter).Some?
    case Unit(unit) => HexDigits(unit) && !HighSurrogate(HexNumber(unit)) && !LowSurrogate(HexNumber(unit))
    case Pair(high, low) =>
      HexDigits(high) && HexDigits(low) && HighSurrogate(HexNumber(high)) && LowSurrogate(HexNumber(low))
  }

  function PieceChar(p: Piece): char
    requires ValidPiece(p)
  {
    match p
    case Plain(c) => c
    case Letter(letter) => Short(letter).value
    case Unit(unit) => HexNumber(unit) as char
    case Pair(high, low) => Combine(HexNumber(high), HexNumber(low))
  }

  function HexText(h: Hex4, rest: string): string {
    [h.a, h.b, h.c, h.d] + rest
  }

  /** The text of a piece, followed by `rest`. */
  function PieceText(p: Piece, rest: string): (s: string)
    ensures |s| > |rest|
  {
    match p
    case Plain(c) => [c] + rest
    case Letter(letter) => ['\\', letter] + rest
    case Unit(unit) => ['\\', 'u'] + HexText(unit, rest)
    case Pair(high, low) => ['\\', 'u'] + HexText(high, ['\\', 'u'] + HexText(low, rest))
  }

  predicate ValidPieces(ps: seq<Piece>) {
    ps != [] ==> ValidPiece(ps[0]) && ValidPieces(ps[1..])
  }

  function Chars(ps: seq<Piece>): (s: string)
    requires ValidPieces(ps)
  {
    if ps == [] then [] else [PieceChar(ps[0])] + Chars(ps[1..])
  }

  /** The text of the pieces with the closing quote, followed by `rest`. */
  function PiecesText(ps: seq<Piece>, rest: string): string {
    if ps == [] then ['"'] + rest else PieceText(ps[0], PiecesText(ps[1..], rest))
  }

  lemma ReadHexText(h: Hex4, rest: string)
    requires HexDigits(h)
    ensures ReadHex4(HexText(h, rest)) == Ok((HexNumber(h), rest))
  {
    hide HexValue;
    var s := HexText(h, rest);
    assert s[1..] == [h.b, h.c, h.d] + rest;
    assert s[1..][1..] == [h.c, h.d] + rest;
    assert s[1..][1..][1..] == [h.d] + rest;
    assert s[1..][1..][1..][1..] == rest;
  }

  lemma HexTextOf(s: string) returns (h: Hex4)
    requires ReadHex4(s).Ok?
    ensures HexDigits(h) && HexNumber(h) == ReadHex4(s).value.0 && s == HexText(h, ReadHex4(s).value.1)
  {
    hide HexValue;
    h := Hex4(s[0], s[1], s[2], s[3]);
  }

  lemma ReadEscapeText(p: Piece, rest: string)
    requires ValidPiece(p) && !p.Plain?
    ensures PieceText(p, rest)[0] == '\\' && ReadEscape(PieceText(p, rest)[1..]) == Ok((PieceChar(p), rest))
  {
    hide HexNumber, HexDigits, HexText, ReadHex4, Combine;
    var s := PieceText(p, rest);
    match p
    case Letter(letter) =>
      assert s[1..] == [letter] + rest;
      assert s[1..][1..] == rest;
    case Unit(unit) =>
      assert s[1..] == ['u'] + HexText(unit, rest);
      assert s[1..][1..] == HexText(unit, rest);
      ReadHexText(unit, rest);
    case Pair(high, low) =>
      var s1 := ['\\', 'u'] + HexText(low, rest);
      assert s[1..] == ['u'] + HexText(high, s1);
      assert s[1..][1..] == HexText(high, s1);
      ReadHexText(high, s1);
      assert s1[2..] == HexText(low, rest);
      ReadHexText(low, rest);
  }

  lemma EscapeTextOf(s: string) returns (p: Piece)
    requires StartsWith(s, '\\') && ReadEscape(s[1..]).Ok?
    ensures var (c, rest) := ReadEscape(s[1..]).value;
            !p.Plain? && ValidPiece(p) && PieceChar(p) == c && s == PieceText(p, rest)
  {
    hide HexNumber, HexDigits, HexText, ReadHex4, Combine;
    var (c, rest) := ReadEscape(s[1..]).value;
    if s[1] != 'u' {
      p := Letter(s[1]);
      assert s == ['\\', s[1]] + rest;
    } else {
      var t := s[2..];
      assert s[1..][1..] == t && s == ['\\', 'u'] + t;
      var high := HexTextOf(t);
      if HighSurrogate(HexNumber(high)) {
        var s1 := ReadHex4(t).value.1;
        assert s1 == ['\\', 'u'] + s1[2..];
        var low := HexTextOf(s1[2..]);
        p := Pair(high, low);
      } else {
        p := Unit(high);
      }
    }
  }

  /** Every way of writing the characters of a string reads back as them. */
  lemma {:induction false} ReadPieces(ps: seq<Piece>, rest: string)
    requires ValidPieces(ps)
    ensures ReadChars(PiecesText(ps, rest)) == Ok((Chars(ps), rest))
  {
    hide ReadEscape, PieceChar;
    if ps == [] {
      assert PiecesText(ps, rest)[1..] == rest;
    } else {
      var tail := PiecesText(ps[1..], rest);
      ReadPieces(ps[1..], rest);
      ReadPiece(ps[0], tail);
    }
  }

  /** One piece in front of a string that reads. */
  lemma ReadPiece(p: Piece, tail: string)
    requires ValidPiece(p) && ReadChars(tail).Ok?
    ensures ReadChars(PieceText(p, tail)) == Ok(([PieceChar(p)] + ReadChars(tail).value.0, ReadChars(tail).value.1))
  {
    hide ReadEscape;
    var s := PieceText(p, tail);
    if p.Plain? {
      assert s[1..] == tail;
    } else {
      ReadEscapeText(p, tail);
    }
  }

  /** Every string that reads was written in one of those ways. */
  lemma {:induction false} PiecesOf(s: string) returns (ps: seq<Piece>)
    requires ReadChars(s).Ok?
    ensures ValidPieces(ps) && Chars(ps) == ReadChars(s).value.0 && s == PiecesText(ps, ReadChars(s).value.1)
    decreases |s|
  {
    hide ReadEscape, PieceText, PieceChar, ValidPiece;
    if s[0] == '"' {
      ps := [];
    } else {
      var p: Piece, s1: string;
      if s[0] == '\\' {
        p := EscapeTextOf(s);
        s1 := ReadEscape(s[1..]).value.1;
      } else {
        p, s1 := Plain(s[0]), s[1..];
        PlainPiece(s);
      }
      var tail := PiecesOf(s1);
      ps := [p] + tail;
      assert ps[1..] == tail;
    }
  }

  lemma PlainPiece(s: string)
    requires s != [] && s[0] != '"' && s[0] != '\\' && s[0] >= ' '
    ensures ValidPiece(Plain(s[0])) && PieceChar(Plain(s[0])) == s[0] && s == PieceText(Plain(s[0]), s[1..])
  {
  }

  // ---------------------------------------------------------------- integers

  predicate IsDigit(c: char) {
    '0' <= c <= '9'
  }

  function DigitValue(c: char): nat
    requires IsDigit(c)
  {
    c as int - '0' as int
  }

  predicate AllDigits(s: string) {
    forall i :: 0 <= i < |s| ==> IsDigit(s[i])
  }

  function DigitRun(s: string): (n: nat)
    ensures n <= |s|
    ensures forall i :: 0 <= i < n ==> IsDigit(s[i])
    ensures n < |s| ==> !IsDigit(s[n])
  {
    if s == [] || !IsDigit(s[0]) then 0 else 1 + DigitRun(s[1..])
  }

  function FromDecimal(s: string): nat
    requires AllDigits(s)
  {
    if s == [] then 0 else 10 * FromDecimal(s[..|s| - 1]) + DigitValue(s[|s| - 1])
  }

  function DigitChar(d: nat): (c: char)
    requires d < 10
    ensures IsDigit(c) && DigitValue(c) == d
  {
    ('0' as int + d) as char
  }

  /** `n` in decimal without leading zeros. */
  function Decimal(n: nat): (s: string)
    ensures s != [] && AllDigits(s) && (s[0] == '0' <==> n == 0)
  {
    if n < 10 then [DigitChar(n)] else Decimal(n / 10) + [DigitChar(n % 10)]
  }

  lemma {:induction false} FromDecimalInverse(n: nat)
    ensures FromDecimal(Decimal(n)) == n
  {
    if n >= 10 {
      FromDecimalInverse(n / 10);
      assert Decimal(n)[..|Decimal(n)| - 1] == Decimal(n / 10);
    } else {
      assert FromDecimal([DigitChar(n)][..0]) == 0;
    }
  }

  lemma {:induction false} DecimalInverse(s: string)
    requires s != [] && AllDigits(s) && (s[0] == '0' ==> |s| == 1)
    ensures Decimal(FromDecimal(s)) == s
  {
    var init, d := s[..|s| - 1], DigitValue(s[|s| - 1]);
    assert s == init + [s[|s| - 1]] && DigitChar(d) == s[|s| - 1];
    if |s| > 1 {
      DecimalInverse(init);
      var q := FromDecimal(init);
      assert q > 0;
      assert (10 * q + d) / 10 == q && (10 * q + d) % 10 == d;
    }
  }

  predicate NumberTail(c: char) {
    c == '.' || c == 'e' || c == 'E' || c == '+'
  }

  /** `parse_number`, on text that starts with a digit. */
  function ReadNumber(s: string): (r: Read<nat>)
    requires s != [] && IsDigit(s[0])
    ensures r.Ok? ==> |r.value.1| < |s|
  {
    var n := DigitRun(s);
    if s[0] == '0' && n > 1 then Err(LeadingZero)
    else if n < |s| && NumberTail(s[n]) then Err(NotInteger)
    else if FromDecimal(s[..n]) >= TWO_64 then Err(IntegerTooLarge)
    else Ok((FromDecimal(s[..n]), s[n..]))
  }

  lemma {:induction false} DigitRunOf(digits: string, rest: string)
    requires AllDigits(digits) && (rest == [] || !IsDigit(rest[0]))
    ensures DigitRun(digits + rest) == |digits|
  {
    if digits == [] {
      assert digits + rest == rest;
    } else {
      assert (digits + rest)[1..] == digits[1..] + rest;
      DigitRunOf(digits[1..], rest);
    }
  }

  lemma ReadDecimal(n: nat, rest: string)
    requires n < TWO_64 && (rest == [] || (!IsDigit(rest[0]) && !NumberTail(rest[0])))
    ensures ReadNumber(Decimal(n) + rest) == Ok((n, rest))
  {
    hide FromDecimal;
    var d := Decimal(n);
    var s := d + rest;
    DigitRunOf(d, rest);
    FromDecimalInverse(n);
    assert s[..|d|] == d && s[|d|..] == rest;
    if n == 0 {
      assert d == ['0'];
    }
  }

  lemma DecimalOf(s: string)
    requires s != [] && IsDigit(s[0]) && ReadNumber(s).Ok?
    ensures var (n, rest) := ReadNumber(s).value;
            n < TWO_64 && s == Decimal(n) + rest
  {
    hide FromDecimal, Decimal;
    var n := DigitRun(s);
    assert s[..n][0] == s[0];
    DecimalInverse(s[..n]);
    assert s == s[..n] + s[n..];
  }
}
