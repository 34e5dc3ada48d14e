/** What the escapes of JSON strings stand for. */
module JsonEscapes {
  /*
   What the escapes of a JSON string stand for, in code points: the table of one-letter escapes,
   the value of four hexadecimal digits, and the character of a surrogate pair (section 7 of
   RFC 8259).
   */
  import opened Wrappers
  import opened JsonText

  // ---------------------------------------------------------------- one-letter escapes

  /** The letter of an escape and the code point it stands for. */
  const LETTERS: seq<(char, nat)> :=
    [('"', 34), ('\\', 92), ('/', 47), ('b', 8), ('f', 12), ('n', 10), ('r', 13), ('t', 9)]

  /** The eight letters, and no other but `u`, may follow a backslash. */
  lemma LetterMeaning(letter: char, rest: string)
    requires letter != 'u'
    ensures forall i :: 0 <= i < |LETTERS| && LETTERS[i].0 == letter ==>
              ReadEscape([letter] + rest) == Ok((LETTERS[i].1 as char, rest))
    ensures (forall i :: 0 <= i < |LETTERS| ==> LETTERS[i].0 != letter) ==>
              ReadEscape([letter] + rest) == Err(BadEscape)
  {
    var s := [letter] + rest;
    assert s[0] == letter && s[1..] == rest;
    if forall i :: 0 <= i < |LETTERS| ==> LETTERS[i].0 != letter {
      assert LETTERS[0].0 == '"' && LETTERS[1].0 == '\\' && LETTERS[2].0 == '/' && LETTERS[3].0 == 'b';
      assert LETTERS[4].0 == 'f' && LETTERS[5].0 == 'n' && LETTERS[6].0 == 'r' && LETTERS[7].0 == 't';
    }
  }

  // ---------------------------------------------------------------- hexadecimal digits

  const LOWER: string := "0123456789abcdef"
  const UPPER: string := "0123456789ABCDEF"

  /** `c` writes the digit `d` in one case or the other. */
  predicate Writes(c: char, d: nat)
    requires d < 16
  {
    c == LOWER[d] || c == UPPER[d]
  }

  /** A character is a digit exactly when one of the two rows holds it, at its value. */
  lemma DigitMeaning(c: char, d: nat)
    requires d < 16
    ensures HexValue(c) == Some(d) <==> Writes(c, d)
  {
    assert |LOWER| == 16 && |UPPER| == 16;
    if d < 10 {
      assert LOWER[d] == UPPER[d] == ('0' as int + d) as char;
    } else {
      assert LOWER[d] == ('a' as int + (d - 10)) as char && UPPER[d] == ('A' as int + (d - 10)) as char;
    }
  }

  predicate WritesNumber(h: Hex4, n: nat)
    requires n < 0x10000
  {
    Writes(h.a, n / 0x1000) && Writes(h.b, n / 0x100 % 16) && Writes(h.c, n / 16 % 16) && Writes(h.d, n % 16)
  }

  lemma SameDigits(a: nat, b: nat, c: nat, d: nat, n: nat)
    requires a < 16 && b < 16 && c < 16 && d < 16 && n < 0x10000
    ensures ((a * 16 + b) * 16 + c) * 16 + d == n <==>
            a == n / 0x1000 && b == n / 0x100 % 16 && c == n / 16 % 16 && d == n % 16
  {
    var m := ((a * 16 + b) * 16 + c) * 16 + d;
    assert m / 16 == (a * 16 + b) * 16 + c;
    assert m / 0x100 == a * 16 + b;
    assert m / 0x1000 == a;
    assert n == n / 16 * 16 + n % 16 && n / 16 == n / 0x100 * 16 + n / 16 % 16;
    assert n / 0x100 == n / 0x1000 * 16 + n / 0x100 % 16;
  }

  /** Four characters read as `n` exactly when they write its four hexadecimal digits, in either case. */
  lemma NumberMeaning(h: Hex4, rest: string, n: nat)
    requires n < 0x10000
    ensures ReadHex4(HexText(h, rest)) == Ok((n, rest)) <==> WritesNumber(h, n)
  {
    hide HexValue, Writes, ReadHex4, HexText;
    DigitMeaning(h.a, n / 0x1000);
    DigitMeaning(h.b, n / 0x100 % 16);
    DigitMeaning(h.c, n / 16 % 16);
    DigitMeaning(h.d, n % 16);
    ReadFour(h, rest);
    if HexDigits(h) {
      SameDigits(HexValue(h.a).value, HexValue(h.b).value, HexValue(h.c).value, HexValue(h.d).value, n);
    }
  }

  lemma ReadFour(h: Hex4, rest: string)
    ensures ReadHex4(HexText(h, rest)) == if HexDigits(h) then Ok((HexNumber(h), rest)) else Err(BadHex)
  {
    hide HexValue;
    var s := HexText(h, rest);
    assert s[0] == h.a && s[1..] == [h.b, h.c, h.d] + rest;
    assert s[1..][0] == h.b && s[1..][1..] == [h.c, h.d] + rest;
    assert s[1..][1..][0] == h.c && s[1..][1..][1..] == [h.d] + rest;
    assert s[1..][1..][1..][0] == h.d && s[1..][1..][1..][1..] == rest;
  }

  // ---------------------------------------------------------------- unicode escapes

  /** A character of the basic plane is read from its four digits. */
  lemma BasicMeaning(c: char, h: Hex4, rest: string)
    requires c as int < 0x10000 && WritesNumber(h, c as int)
    ensures ReadEscape(['u'] + HexText(h, rest)) == Ok((c, rest))
  {
    hide WritesNumber, ReadHex4;
    NumberMeaning(h, rest, c as int);
    var s := ['u'] + HexText(h, rest);
    assert s[0] == 'u' && s[1..] == HexText(h, rest);
  }

  /** Any other character is read from the surrogate pair of its code point. */
  lemma PairMeaning(c: char, high: Hex4, low: Hex4, rest: string)
    requires c as int >= 0x10000
    requires WritesNumber(high, 0xD800 + (c as int - 0x10000) / 0x400)
    requires WritesNumber(low, 0xDC00 + (c as int - 0x10000) % 0x400)
    ensures ReadEscape(['u'] + HexText(high, ['\\', 'u'] + HexText(low, rest))) == Ok((c, rest))
  {
    hide WritesNumber, ReadHex4;
    var tail := ['\\', 'u'] + HexText(low, rest);
    var n := c as int - 0x10000;
    NumberMeaning(high, tail, 0xD800 + n / 0x400);
    NumberMeaning(low, rest, 0xDC00 + n % 0x400);
    var s := ['u'] + HexText(high, tail);
    assert s[0] == 'u' && s[1..] == HexText(high, tail);
    assert tail[0] == '\\' && tail[1] == 'u' && tail[1..] != [] && tail[2..] == HexText(low, rest);
    assert Combine(0xD800 + n / 0x400, 0xDC00 + n % 0x400) == c by {
      assert n == n / 0x400 * 0x400 + n % 0x400;
    }
  }

  /** Half of a pair alone stands for nothing. */
  lemma LoneHalf(unit: nat, h: Hex4, rest: string)
    requires 0xD800 <= unit < 0xE000 && WritesNumber(h, unit)
    requires unit < 0xDC00 ==> rest != [] && rest[0] != '\\'
    ensures ReadEscape(['u'] + HexText(h, rest)) == Err(LoneSurrogate)
  {
    hide WritesNumber, ReadHex4;
    NumberMeaning(h, rest, unit);
    var s := ['u'] + HexText(h, rest);
    assert s[0] == 'u' && s[1..] == HexText(h, rest);
  }

  // ---------------------------------------------------------------- whitespace

  /** Whitespace is the four characters of section 2 of RFC 8259. */
  lemma SpaceMeaning(c: char)
    ensures IsSpace(c) <==> c as int in {0x20, 0x09, 0x0A, 0x0D}
  {
  }
}
