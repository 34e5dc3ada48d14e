/**
 The rules of the YAML subset in literal terms: keys, scalars, comments, line ends and document
 markers. They are stated without the functions that the parser and its specification share.
 */
module YamlRules {
  import opened Wrappers
  import opened YamlText
  import J = JsonValue
  import Json
  import JsonText
  import Utf8
  import Yaml

  // ---------------------------------------------------------------- keys

  predicate IsKey(k: string) {
    && k != "" && ('a' <= k[0] <= 'z' || 'A' <= k[0] <= 'Z' || k[0] == '_')
    && forall c <- k :: 'a' <= c <= 'z' || 'A' <= c <= 'Z' || '0' <= c <= '9' || c == '_' || c == '-' || c == '.'
  }

  predicate Blank(s: string) {
    forall c <- s :: c == ' '
  }

  /** `text` is a key, a colon, and after at least one space a value, or no value. */
  ghost predicate IsPair(text: string, key: string, value: string) {
    && IsKey(key) && (value == "" || value[0] != ' ')
    && exists blank :: Blank(blank) && (blank == "" ==> value == "") && text == key + ([':'] + (blank + value))
  }

  /** `text` starts with a key and a colon. */
  ghost predicate StartsWithKey(text: string) {
    exists key, tail :: IsKey(key) && text == key + ([':'] + tail)
  }

  lemma KeyMeaning(k: string)
    ensures ValidKey(k) <==> IsKey(k)
  {
    if IsKey(k) {
      assert forall i :: 0 <= i < |k| ==> k[i] in k;
    }
  }

  lemma {:induction false} TrimStartMeaning(s: string)
    ensures exists blank :: Blank(blank) && s == blank + TrimStart(s)
    ensures TrimStart(s) == "" || TrimStart(s)[0] != ' '
  {
    if s != [] && s[0] == ' ' {
      TrimStartMeaning(s[1..]);
      var blank :| Blank(blank) && s[1..] == blank + TrimStart(s[1..]);
      assert s == ([' '] + blank) + TrimStart(s);
    } else {
      assert Blank("") && s == "" + TrimStart(s);
    }
  }

  lemma {:induction false} TrimBlank(blank: string, value: string)
    requires Blank(blank) && (value == "" || value[0] != ' ')
    ensures TrimStart(blank + value) == value
  {
    if blank == "" {
      assert blank + value == value;
    } else {
      assert blank[0] in blank && forall c <- blank[1..] :: c in blank;
      assert (blank + value)[1..] == blank[1..] + value;
      TrimBlank(blank[1..], value);
    }
  }

  lemma RunStopsAtColon(key: string, tail: string)
    requires IsKey(key)
    ensures var text := key + ([':'] + tail);
            KeyRun(text) == |key| && text[..|key|] == key && text[|key| + 1..] == tail && KeyStart(text[0])
  {
    KeyMeaning(key);
    KeyRunOf(key, [':'] + tail);
    assert (key + ([':'] + tail))[0] == key[0];
  }

  lemma RunIsKey(text: string)
    requires text != "" && KeyStart(text[0])
    ensures IsKey(text[..KeyRun(text)])
  {
    KeyMeaning(text[..KeyRun(text)]);
  }

  /** A line is split at its key exactly where a key and a colon start it. */
  lemma PairMeaning(text: string, key: string, value: string)
    ensures MatchKey(text) == Ok(Some((key, value))) <==> IsPair(text, key, value)
  {
    hide KeyRun, TrimStart, IsKey, Blank, KeyStart;
    if MatchKey(text) == Ok(Some((key, value))) {
      var n := KeyRun(text);
      RunIsKey(text);
      var rest := text[n + 1..];
      assert text == text[..n] + ([':'] + rest);
      TrimStartMeaning(rest);
      if rest == "" {
        assert Blank("") by {
          NothingBlank();
        }
        assert text == key + ([':'] + ("" + value));
      } else {
        var blank :| Blank(blank) && rest == blank + TrimStart(rest);
        assert blank != "";
        assert text == key + ([':'] + (blank + value));
      }
    }
    if IsPair(text, key, value) {
      var blank :| Blank(blank) && (blank == "" ==> value == "") && text == key + ([':'] + (blank + value));
      RunStopsAtColon(key, blank + value);
      TrimBlank(blank, value);
      if blank != "" {
        FirstBlank(blank, value);
      }
    }
  }

  lemma NothingBlank()
    ensures Blank("")
  {
  }

  lemma FirstBlank(blank: string, value: string)
    requires Blank(blank) && blank != ""
    ensures (blank + value)[0] == ' '
  {
    assert blank[0] in blank;
  }

  /** A line without a key is left to the scalars; a key whose colon has no space after it is an error. */
  lemma NoPairMeaning(text: string)
    ensures MatchKey(text) == Ok(None) <==> !StartsWithKey(text)
    ensures MatchKey(text).Err? ==> MatchKey(text) == Err(ColonNotFollowed)
  {
    hide KeyRun, TrimStart, IsKey, KeyStart;
    if StartsWithKey(text) {
      var key, tail :| IsKey(key) && text == key + ([':'] + tail);
      RunStopsAtColon(key, tail);
    }
    if MatchKey(text) != Ok(None) {
      var n := KeyRun(text);
      RunIsKey(text);
      assert text == text[..n] + ([':'] + text[n + 1..]);
    }
  }

  // ---------------------------------------------------------------- scalars

  predicate NullWord(s: string) {
    |s| == 4 && s[0] in {'n', 'N'} && s[1] in {'u', 'U'} && s[2] in {'l', 'L'} && s[3] in {'l', 'L'}
  }

  predicate Digits(s: string) {
    forall c <- s :: '0' <= c <= '9'
  }

  predicate FloatWord(s: string) {
    '.' in s && forall c <- s :: '0' <= c <= '9' || c == '.'
  }

  predicate Controls(s: string) {
    exists c <- s :: c as int < 0x20 || 0x7f <= c as int < 0xa0
  }

  /** Text that needs no quotes. */
  predicate IsPlain(s: string) {
    && s != "" && s[0] !in {'"', '\'', '[', '{', '&', '*', '!', '|', '>'}
    && (forall c <- s :: c !in {':', '&', '*', '!', '|', '>', '#'})
    && s !in {"true", "false", "~"} && !NullWord(s) && !Digits(s) && !FloatWord(s) && !Controls(s)
  }

  /** The text in single quotes, each quote inside doubled. */
  function InQuotes(text: string): string {
    ['\''] + Doubled(text) + ['\'']
  }

  /** `s` writes the scalar `v`. */
  ghost predicate IsScalar(s: string, v: J.Json) {
    || (s == "true" && v == J.Bool(true))
    || (s == "false" && v == J.Bool(false))
    || (exists n: nat :: n < 0x1_0000_0000_0000_0000 && s == JsonText.Decimal(n) && v == J.Integer(n))
    || (exists text :: s == InQuotes(text) && v == J.String(text))
    || (s != "" && s[0] == '"' && v.String? && Json.Parse(s, false) == Ok(v))
    || (IsPlain(s) && v == J.String(s))
  }

  lemma NullMeaning(s: string)
    ensures IsNullWord(s) <==> NullWord(s)
  {
    if |s| == 4 {
      LowerMeaning(s[0]);
      LowerMeaning(s[1]);
      LowerMeaning(s[2]);
      LowerMeaning(s[3]);
    }
  }

  lemma LowerMeaning(c: char)
    ensures LowerAscii(c) == 'n' <==> c in {'n', 'N'}
    ensures LowerAscii(c) == 'u' <==> c in {'u', 'U'}
    ensures LowerAscii(c) == 'l' <==> c in {'l', 'L'}
  {
  }

  lemma CharsMeaning(s: string)
    ensures JsonText.AllDigits(s) <==> Digits(s)
    ensures LooksLikeFloat(s) <==> FloatWord(s)
    ensures (exists i :: 0 <= i < |s| && IsControl(s[i])) <==> Controls(s)
    ensures Contains(s, ":&*!|>#") <==> exists c <- s :: c in {':', '&', '*', '!', '|', '>', '#'}
  {
    assert forall c :: c in ":&*!|>#" <==> c in {':', '&', '*', '!', '|', '>', '#'};
    assert forall i :: 0 <= i < |s| ==> s[i] in s;
    if c :| c in s && c in {':', '&', '*', '!', '|', '>', '#'} {
      var i :| 0 <= i < |s| && s[i] == c;
    }
    if c :| c in s && (c as int < 0x20 || 0x7f <= c as int < 0xa0) {
      var i :| 0 <= i < |s| && s[i] == c;
      assert IsControl(s[i]);
    }
  }

  lemma {:induction false} UnquoteMeaning(s: string, text: string)
    ensures Unquote(s) == Ok(text) <==> s == Doubled(text)
  {
    UnquoteDoubled(text);
    if Unquote(s).Ok? {
      Requoted(s);
    }
  }

  lemma {:induction false} Requoted(s: string)
    requires Unquote(s).Ok?
    ensures s == Doubled(Unquote(s).value)
  {
    if s != [] {
      if s[0] != QUOTE {
        Requoted(s[1..]);
        assert s == [s[0]] + s[1..];
      } else {
        Requoted(s[2..]);
        assert s == [QUOTE, QUOTE] + s[2..];
      }
    }
  }

  lemma SingleMeaning(s: string, text: string)
    ensures ParseSingle(s) == Ok(text) <==> s == InQuotes(text)
  {
    hide Unquote, Doubled;
    if |s| >= 2 && s[0] == QUOTE && s[|s| - 1] == QUOTE {
      UnquoteMeaning(s[1..|s| - 1], text);
      assert s == [QUOTE] + s[1..|s| - 1] + [QUOTE];
      assert InQuotes(text)[1..|InQuotes(text)| - 1] == Doubled(text);
    }
  }

  /** A run of digits without a leading zero is the decimal text of its number. */
  lemma DigitsMeaning(s: string, n: nat)
    requires s != ""
    ensures s == JsonText.Decimal(n) <==>
            JsonText.AllDigits(s) && (s == "0" || s[0] != '0') && JsonText.FromDecimal(s) == n
  {
    hide JsonText.FromDecimal, JsonText.Decimal;
    if JsonText.AllDigits(s) && (s == "0" || s[0] != '0') {
      JsonText.DecimalInverse(s);
    }
    JsonText.FromDecimalInverse(n);
    if s == JsonText.Decimal(n) {
      ZeroIsZero(n);
    }
  }

  lemma ClassifyMeaning(s: string, v: J.Json)
    requires s != ""
    ensures ClassifyPlain(s) == Ok(v) <==>
            || (s == "true" && v == J.Bool(true))
            || (s == "false" && v == J.Bool(false))
            || (exists n: nat :: n < 0x1_0000_0000_0000_0000 && s == JsonText.Decimal(n) && v == J.Integer(n))
            || (v == J.String(s) && s !in {"true", "false", "~"} && !NullWord(s) && !Digits(s) && !FloatWord(s)
                && !Controls(s))
  {
    hide JsonText.FromDecimal, JsonText.Decimal, IsNullWord, NullWord, JsonText.AllDigits, Digits, LooksLikeFloat,
      FloatWord, Controls, IsControl;
    NullMeaning(s);
    CharsMeaning(s);
    if JsonText.AllDigits(s) {
      DigitsMeaning(s, JsonText.FromDecimal(s));
      DigitsAreNoWords(s);
    }
    forall n: nat | s == JsonText.Decimal(n)
      ensures JsonText.AllDigits(s) && (s == "0" || s[0] != '0') && JsonText.FromDecimal(s) == n
    {
      DigitsMeaning(s, n);
    }
  }

  lemma DigitsAreNoWords(s: string)
    requires s != "" && JsonText.AllDigits(s)
    ensures s !in {"true", "false", "~"} && !IsNullWord(s)
  {
    assert JsonText.IsDigit(s[0]);
  }

  /** The scalars that are read, each with the value it stands for; everything else is refused. */
  lemma ScalarMeaning(s: string, v: J.Json)
    ensures ParseScalar(s) == Ok(v) <==> IsScalar(s, v)
  {
    hide ClassifyPlain, Json.Parse, ParseSingle, JsonText.Decimal, Doubled, NullWord, Digits, FloatWord, Controls,
      Contains;
    if s != "" {
      ClassifyMeaning(s, v);
      CharsMeaning(s);
      if v.String? {
        SingleMeaning(s, v.text);
      }
      assert forall c :: c in "[{&*!|>" <==> c in {'[', '{', '&', '*', '!', '|', '>'};
      WordsArePlain(s);
    }
  }

  /** Words and numbers hold nothing that would stop them from being plain. */
  lemma WordsArePlain(s: string)
    ensures s in {"true", "false"} || (exists n: nat :: s == JsonText.Decimal(n)) ==>
              && s != "" && s[0] !in {'"', '\'', '[', '{', '&', '*', '!', '|', '>'}
              && !Contains(s, ":&*!|>#")
  {
    hide JsonText.Decimal;
    assert !Contains("true", ":&*!|>#") && !Contains("false", ":&*!|>#");
    if n: nat :| s == JsonText.Decimal(n) {
      assert JsonText.IsDigit(s[0]);
      assert forall c :: c in ":&*!|>#" ==> !JsonText.IsDigit(c);
    }
  }

  /** The errors of text that looks like another kind of value. */
  lemma ScalarErrors(s: string)
    requires s != ""
    ensures s == "~" || NullWord(s) ==> ParseScalar(s) == Err(NullScalar)
    ensures Digits(s) && s[0] == '0' && |s| > 1 ==> ParseScalar(s) == Err(LeadingZero)
    ensures FloatWord(s) ==> ParseScalar(s) == Err(FloatScalar)
  {
    hide JsonText.FromDecimal, JsonText.Decimal, Json.Parse, Unquote;
    NullMeaning(s);
    CharsMeaning(s);
    assert s[0] in s;
    assert forall c :: c in "[{&*!|>" <==> c in {'[', '{', '&', '*', '!', '|', '>'};
    assert s == "~" ==> s[0] == '~' && |s| == 1;
    if NullWord(s) {
      assert forall c <- s :: c == s[0] || c == s[1] || c == s[2] || c == s[3];
    }
  }

  // ---------------------------------------------------------------- comments

  /** A quote opens when none is open, and the same quote closes it. */
  function AfterChar(open: Option<char>, c: char): Option<char> {
    if open == None && (c == '"' || c == '\'') then Some(c)
    else if open == Some(c) then None
    else open
  }

  /** The quote that is open after `s`. */
  function OpenQuote(s: string): Option<char> {
    if s == "" then None else AfterChar(OpenQuote(s[..|s| - 1]), s[|s| - 1])
  }

  /** A comment starts at a `#` outside quotes, at the start or after a space. */
  predicate CommentAt(s: string, p: nat)
    requires p < |s|
  {
    s[p] == '#' && OpenQuote(s[..p]) == None && (p == 0 || s[p - 1] == ' ')
  }

  lemma ScanStep(t: string, spaced: bool, quote: Option<char>)
    requires t != ""
    ensures Uncommented(t, spaced, quote) ==
            if quote.None? && t[0] == '#' && spaced then []
            else [t[0]] + Uncommented(t[1..], t[0] == ' ', AfterChar(quote, t[0]))
  {
  }

  lemma OpenStep(s: string, p: nat)
    requires p < |s|
    ensures OpenQuote(s[..p + 1]) == AfterChar(OpenQuote(s[..p]), s[p])
  {
    assert s[..p + 1][..p] == s[..p];
  }

  /** How much the scan keeps of `s[p..]`, from the state it is in after `s[..p]`. */
  lemma {:induction false} KeptFrom(s: string, p: nat)
    requires p <= |s|
    ensures var kept := |Uncommented(s[p..], p == 0 || (s[p - 1] == ' '), OpenQuote(s[..p]))|;
            && kept <= |s| - p
            && (forall q :: p <= q < p + kept ==> !CommentAt(s, q))
            && (p + kept < |s| ==> CommentAt(s, p + kept))
    decreases |s| - p
  {
    hide Uncommented, OpenQuote, AfterChar;
    if p < |s| {
      assert s[p..][0] == s[p] && s[p..][1..] == s[p + 1..];
      ScanStep(s[p..], p == 0 || (s[p - 1] == ' '), OpenQuote(s[..p]));
      OpenStep(s, p);
      if !CommentAt(s, p) {
        KeptFrom(s, p + 1);
      }
    }
  }

  /** A line keeps what stands before its first comment, without the spaces before that. */
  lemma CommentMeaning(s: string, n: nat)
    requires n <= |s| && (n < |s| ==> CommentAt(s, n)) && forall q :: 0 <= q < n ==> !CommentAt(s, q)
    ensures StripComment(s) == TrimEnd(s[..n])
  {
    hide OpenQuote, CommentAt, TrimEnd, Uncommented;
    assert s[0..] == s && s[..0] == [];
    NothingOpen();
    KeptFrom(s, 0);
    var kept := Uncommented(s, true, None);
    assert |kept| == n;
    assert kept == s[..|kept|];
  }

  lemma NothingOpen()
    ensures OpenQuote([]) == None
  {
  }

  lemma {:induction false} TrimEndMeaning(s: string)
    ensures exists blank :: Blank(blank) && s == TrimEnd(s) + blank
    ensures TrimEnd(s) == "" || TrimEnd(s)[|TrimEnd(s)| - 1] != ' '
  {
    if s != [] && s[|s| - 1] == ' ' {
      TrimEndMeaning(s[..|s| - 1]);
      var blank :| Blank(blank) && s[..|s| - 1] == TrimEnd(s[..|s| - 1]) + blank;
      assert s == TrimEnd(s) + (blank + [' ']);
    } else {
      assert Blank("") && s == TrimEnd(s) + "";
    }
  }

  // ---------------------------------------------------------------- lines

  /** Lines end at each newline; one carriage return before it belongs to the end. */
  lemma LineMeaning(raw: string, rest: string)
    requires '\n' !in raw
    ensures SplitLines(raw + (['\r', '\n'] + rest)) == [raw] + SplitLines(rest)
    ensures raw == "" || raw[|raw| - 1] != '\r' ==> SplitLines(raw + (['\n'] + rest)) == [raw] + SplitLines(rest)
    ensures raw != "" ==> SplitLines(raw) == [raw]
  {
    hide SplitLines, LineEnd;
    ReturnSplit(raw, rest);
    OneSplit(raw, rest);
    NoSplit(raw);
  }

  lemma ReturnSplit(raw: string, rest: string)
    requires '\n' !in raw
    ensures SplitLines(raw + (['\r', '\n'] + rest)) == [raw] + SplitLines(rest)
  {
    hide SplitLines;
    var t := raw + ['\r'];
    OneSplit(t, rest);
    assert DropReturn(t) == raw;
    assert ['\r', '\n'] + rest == ['\r'] + (['\n'] + rest);
    Regroup(raw, ['\r'], ['\n'] + rest);
  }

  lemma Regroup(a: string, b: string, c: string)
    ensures a + (b + c) == (a + b) + c
  {
  }

  lemma {:induction false} LineEndOf(raw: string, rest: string)
    requires '\n' !in raw && (rest == [] || rest[0] == '\n')
    ensures LineEnd(raw + rest) == |raw|
  {
    if raw == "" {
      assert raw + rest == rest;
    } else {
      assert (raw + rest)[1..] == raw[1..] + rest;
      LineEndOf(raw[1..], rest);
    }
  }

  lemma OneSplit(raw: string, rest: string)
    requires '\n' !in raw
    ensures SplitLines(raw + (['\n'] + rest)) == [DropReturn(raw)] + SplitLines(rest)
  {
    hide LineEnd, DropReturn;
    var s := raw + (['\n'] + rest);
    LineEndOf(raw, ['\n'] + rest);
    assert s[..|raw|] == raw && s[|raw| + 1..] == rest;
  }

  lemma NoSplit(raw: string)
    requires '\n' !in raw
    ensures raw != "" ==> SplitLines(raw) == [raw]
  {
    hide LineEnd;
    LineEndOf(raw, []);
    assert raw + [] == raw;
  }

  /** A line shows its indentation and its text; blank ones show nothing, document markers are refused. */
  lemma ReadLineMeaning(blank: string, s: string, n: nat)
    requires Blank(blank) && (s == "" || s[0] != ' ')
    requires n <= |s| && (n < |s| ==> CommentAt(s, n)) && forall q :: 0 <= q < n ==> !CommentAt(s, q)
    ensures ReadLine(blank + s) ==
            var text := TrimEnd(s[..n]);
            if text == "" then Ok(None)
            else if text in {"---", "..."} then Err(DocumentMarker)
            else Ok(Some(Line(|blank|, text)))
  {
    hide CommentAt, TrimEnd, StripComment;
    IndentOf(blank, s);
    assert (blank + s)[|blank|..] == s;
    CommentMeaning(s, n);
  }

  lemma {:induction false} IndentOf(blank: string, s: string)
    requires Blank(blank) && (s == "" || s[0] != ' ')
    ensures Indent(blank + s) == |blank|
  {
    if blank == "" {
      assert blank + s == s;
    } else {
      assert blank[0] in blank && forall c <- blank[1..] :: c in blank;
      assert (blank + s)[1..] == blank[1..] + s;
      IndentOf(blank[1..], s);
    }
  }

  /** What refuses a document before its lines are looked at. */
  lemma StartRefused(input: string)
    ensures |Utf8.Encode(input)| > 32 * 1024 * 1024 ==> Yaml.ParseYaml(input) == Err(TooLarge)
    ensures |Utf8.Encode(input)| <= 32 * 1024 * 1024 && 0 as char in input ==> Yaml.ParseYaml(input) == Err(NullByte)
    ensures |Utf8.Encode(input)| <= 32 * 1024 * 1024 && 0 as char !in input && '\t' in input ==>
              Yaml.ParseYaml(input) == Err(Tab)
  {
    hide ReadLines, Yaml.ParseNode, Utf8.Encode, SplitLines;
  }
}
