/**
 The limits of strict JSON in literal terms: what a parsed tree may hold at which depth, and which
 error a number with a fraction, a word with a tail or a byte order mark gives.
 */
module JsonRules {
  import opened Wrappers
  import opened JsonText
  import opened Json
  import J = JsonValue
  import JsonToCbor
  import Utf8

  // ---------------------------------------------------------------- trees

  /** `w` lies `k` containers deep inside `v`. */
  ghost predicate Within(v: J.Json, w: J.Json, k: nat)
    decreases k
  {
    if k == 0 then v == w
    else
      match v
      case Array(items) => exists item <- items :: Within(item, w, k - 1)
      case Object(members) => exists m <- members :: Within(m.value, w, k - 1)
      case _ => false
  }

  /** The bounds on one value inside `depth` containers. */
  predicate Bounded(w: J.Json, depth: nat, nulls: bool) {
    match w
    case Null => nulls
    case Bool(_) => true
    case Integer(n) => 0 <= n < 0x1_0000_0000_0000_0000
    case Float => false
    case String(text) => |Utf8.Encode(text)| <= 1024 * 1024
    case Array(_) => depth < 32
    case Object(members) =>
      depth < 32 && J.DistinctNames(members) && forall m <- members :: |Utf8.Encode(m.key)| <= 1024
  }

  ghost predicate BoundedWithin(v: J.Json, depth: nat, nulls: bool) {
    forall w, k: nat :: Within(v, w, k) ==> Bounded(w, depth + k, nulls)
  }

  lemma Itself(v: J.Json, depth: nat, nulls: bool)
    requires BoundedWithin(v, depth, nulls)
    ensures Bounded(v, depth, nulls)
  {
    assert Within(v, v, 0);
    assert Bounded(v, depth + 0, nulls);
  }

  /** The bounds inside a container: its own, and those of its parts one container deeper. */
  lemma PartsWithin(v: J.Json, parts: seq<J.Json>, depth: nat, nulls: bool)
    requires forall w, k: nat :: k > 0 ==> (Within(v, w, k) <==> exists part <- parts :: Within(part, w, k - 1))
    ensures BoundedWithin(v, depth, nulls) <==>
            Bounded(v, depth, nulls) && forall part <- parts :: BoundedWithin(part, depth + 1, nulls)
  {
    hide Bounded;
    if BoundedWithin(v, depth, nulls) {
      Itself(v, depth, nulls);
      forall part, w, k: nat | part in parts && Within(part, w, k)
        ensures Bounded(w, depth + 1 + k, nulls)
      {
        assert Within(v, w, k + 1);
        assert Bounded(w, depth + (k + 1), nulls);
      }
    }
    if Bounded(v, depth, nulls) && forall part <- parts :: BoundedWithin(part, depth + 1, nulls) {
      forall w, k: nat | Within(v, w, k)
        ensures Bounded(w, depth + k, nulls)
      {
        if k > 0 {
          var part :| part in parts && Within(part, w, k - 1);
          assert Bounded(w, depth + 1 + (k - 1), nulls);
        }
      }
    }
  }

  function ValuesOf(members: seq<J.Member>): (r: seq<J.Json>)
    ensures |r| == |members| && forall i :: 0 <= i < |r| ==> r[i] == members[i].value
    ensures forall w :: w in r <==> exists m <- members :: m.value == w
  {
    if members == [] then [] else [members[0].value] + ValuesOf(members[1..])
  }

  lemma ScalarWithin(v: J.Json, depth: nat, nulls: bool)
    requires !v.Array? && !v.Object?
    ensures BoundedWithin(v, depth, nulls) <==> Bounded(v, depth, nulls)
  {
    PartsWithin(v, [], depth, nulls);
  }

  /** The trees that the parser returns are those whose every value keeps the bounds at its depth. */
  lemma {:induction false} AdmissibleMeaning(v: J.Json, depth: nat, nulls: bool)
    ensures Admissible(v, depth, nulls) <==> BoundedWithin(v, depth, nulls)
    decreases v, 0
  {
    hide BoundedWithin, Within, Utf8.Encode;
    match v
    case Array(items) =>
      ArrayParts(v, depth, nulls);
      ItemsMeaning(items, depth + 1, nulls);
    case Object(members) =>
      ObjectParts(v, depth, nulls);
      MembersMeaning(members, depth + 1, nulls, {});
    case _ =>
      ScalarWithin(v, depth, nulls);
  }

  lemma ArrayParts(v: J.Json, depth: nat, nulls: bool)
    requires v.Array?
    ensures BoundedWithin(v, depth, nulls) <==>
            depth < 32 && forall item <- v.items :: BoundedWithin(item, depth + 1, nulls)
  {
    PartsWithin(v, v.items, depth, nulls);
  }

  lemma ObjectParts(v: J.Json, depth: nat, nulls: bool)
    requires v.Object?
    ensures BoundedWithin(v, depth, nulls) <==>
            && depth < 32 && J.DistinctNames(v.members)
            && forall m <- v.members :: |Utf8.Encode(m.key)| <= 1024 && BoundedWithin(m.value, depth + 1, nulls)
  {
    hide BoundedWithin, Utf8.Encode, J.DistinctNames;
    forall w, k: nat | k > 0
      ensures Within(v, w, k) <==> exists part <- ValuesOf(v.members) :: Within(part, w, k - 1)
    {
      if m :| m in v.members && Within(m.value, w, k - 1) {
        assert m.value in ValuesOf(v.members);
      }
    }
    PartsWithin(v, ValuesOf(v.members), depth, nulls);
    forall m | m in v.members
      ensures m.value in ValuesOf(v.members)
    {
    }
  }

  lemma {:induction false} ItemsMeaning(items: seq<J.Json>, depth: nat, nulls: bool)
    ensures ItemsAdmissible(items, depth, nulls) <==> forall item <- items :: BoundedWithin(item, depth, nulls)
    decreases items, 1
  {
    hide BoundedWithin;
    if items != [] {
      AdmissibleMeaning(items[0], depth, nulls);
      ItemsMeaning(items[1..], depth, nulls);
      assert forall v :: v in items <==> v == items[0] || v in items[1..];
    }
  }

  lemma {:induction false} MembersMeaning(members: seq<J.Member>, depth: nat, nulls: bool, keys: set<string>)
    ensures MembersAdmissible(members, depth, nulls, keys) <==>
            && J.DistinctNames(members)
            && forall m <- members :: m.key !in keys && |Utf8.Encode(m.key)| <= 1024
                                      && BoundedWithin(m.value, depth, nulls)
    decreases members, 1
  {
    hide BoundedWithin, Utf8.Encode, Admissible;
    if members != [] {
      var first, tail := members[0], members[1..];
      AdmissibleMeaning(first.value, depth, nulls);
      MembersMeaning(tail, depth, nulls, keys + {first.key});
      assert forall m :: m in members <==> m == first || m in tail;
      NamesDistinct(members);
    }
  }

  lemma NamesDistinct(members: seq<J.Member>)
    requires members != []
    ensures J.DistinctNames(members) <==>
            J.DistinctNames(members[1..]) && forall m <- members[1..] :: m.key != members[0].key
  {
    var tail := members[1..];
    if J.DistinctNames(members) {
      assert forall i, j :: 0 <= i < j < |tail| ==> tail[i] == members[i + 1] && tail[j] == members[j + 1];
    }
    if J.DistinctNames(tail) && forall m <- tail :: m.key != members[0].key {
      forall i, j | 0 <= i < j < |members|
        ensures members[i].key != members[j].key
      {
        assert members[j] == tail[j - 1] && members[j] in tail;
        if i > 0 {
          assert members[i] == tail[i - 1];
        }
      }
    }
  }

  /** Which texts give which trees, with every limit written out. */
  lemma ParsedExactly(text: string, v: J.Json, nulls: bool)
    ensures Parse(text, nulls) == Ok(v) <==>
            && Writes(text, v) && |Utf8.Encode(text)| <= 32 * 1024 * 1024
            && BoundedWithin(v, 0, nulls) && Count(v) <= 1_048_576
  {
    hide Parse, Writes, Utf8.Encode, BoundedWithin, Admissible, Count;
    ParseMeaning(text, v, nulls);
    AdmissibleMeaning(v, 0, nulls);
  }

  // ---------------------------------------------------------------- translation

  /** What the translation to CBOR has no image for. */
  predicate Imaged(w: J.Json) {
    !w.Null? && !w.Float? && (w.String? ==> |Utf8.Encode(w.text)| <= 1024 * 1024)
  }

  ghost predicate AllImaged(v: J.Json) {
    forall w, k: nat :: Within(v, w, k) ==> Imaged(w)
  }

  lemma PartsImaged(v: J.Json, parts: seq<J.Json>)
    requires forall w, k: nat :: k > 0 ==> (Within(v, w, k) <==> exists part <- parts :: Within(part, w, k - 1))
    ensures AllImaged(v) <==> Imaged(v) && forall part <- parts :: AllImaged(part)
  {
    hide Imaged;
    if AllImaged(v) {
      assert Within(v, v, 0);
      forall part, w, k: nat | part in parts && Within(part, w, k)
        ensures Imaged(w)
      {
        assert Within(v, w, k + 1);
      }
    }
    if Imaged(v) && forall part <- parts :: AllImaged(part) {
      forall w, k: nat | Within(v, w, k)
        ensures Imaged(w)
      {
        if k > 0 {
          var part :| part in parts && Within(part, w, k - 1);
        }
      }
    }
  }

  /** No null, no float and no string above 1 MiB at any depth. */
  lemma {:induction false} ExpressibleMeaning(v: J.Json)
    ensures JsonToCbor.Expressible(v) <==> AllImaged(v)
    decreases v, 0
  {
    hide AllImaged, Utf8.Encode;
    match v
    case Array(items) =>
      ArrayImaged(items);
      ItemsImaged(items);
    case Object(members) =>
      ObjectImaged(members);
      MembersImaged(members);
    case _ =>
      ScalarImaged(v);
  }

  lemma ScalarImaged(v: J.Json)
    requires !v.Array? && !v.Object?
    ensures AllImaged(v) <==> Imaged(v)
  {
    PartsImaged(v, []);
  }

  lemma ArrayImaged(items: seq<J.Json>)
    ensures AllImaged(J.Array(items)) <==> forall item <- items :: AllImaged(item)
  {
    PartsImaged(J.Array(items), items);
  }

  lemma ObjectImaged(members: seq<J.Member>)
    ensures AllImaged(J.Object(members)) <==> forall m <- members :: AllImaged(m.value)
  {
    hide AllImaged;
    var v := J.Object(members);
    forall w, k: nat | k > 0
      ensures Within(v, w, k) <==> exists part <- ValuesOf(members) :: Within(part, w, k - 1)
    {
      if m :| m in members && Within(m.value, w, k - 1) {
        assert m.value in ValuesOf(members);
      }
    }
    PartsImaged(v, ValuesOf(members));
    forall m | m in members
      ensures m.value in ValuesOf(members)
    {
    }
  }

  lemma {:induction false} ItemsImaged(items: seq<J.Json>)
    ensures JsonToCbor.ItemsExpressible(items) <==> forall item <- items :: AllImaged(item)
    decreases items, 1
  {
    hide AllImaged;
    if items != [] {
      ExpressibleMeaning(items[0]);
      ItemsImaged(items[1..]);
      assert forall v :: v in items <==> v == items[0] || v in items[1..];
    }
  }

  lemma {:induction false} MembersImaged(members: seq<J.Member>)
    ensures JsonToCbor.MembersExpressible(members) <==> forall m <- members :: AllImaged(m.value)
    decreases members, 1
  {
    hide AllImaged;
    if members != [] {
      ExpressibleMeaning(members[0].value);
      MembersImaged(members[1..]);
      assert forall m :: m in members <==> m == members[0] || m in members[1..];
    }
  }

  // ---------------------------------------------------------------- errors

  const DIGITS: string := "0123456789"

  lemma DecimalDigit(c: char, d: nat)
    requires d < 10
    ensures c == DIGITS[d] <==> IsDigit(c) && DigitValue(c) == d
  {
    assert DIGITS[d] == ('0' as int + d) as char;
  }

  /** A number that goes on with a fraction, an exponent or a sign is no integer. */
  lemma FractionRefused(n: nat, c: char, rest: string)
    requires n < 0x1_0000_0000_0000_0000 && !IsDigit(c)
    ensures ReadNumber(Decimal(n) + ([c] + rest)) ==
            if c in {'.', 'e', 'E', '+'} then Err(NotInteger) else Ok((n, [c] + rest))
  {
    hide Decimal, FromDecimal;
    if NumberTail(c) {
      var s := Decimal(n) + ([c] + rest);
      DigitRunOf(Decimal(n), [c] + rest);
      assert s[|Decimal(n)|] == c && s[0] == Decimal(n)[0];
      NoLeadingZero(n);
    } else {
      ReadDecimal(n, [c] + rest);
    }
  }

  lemma NoLeadingZero(n: nat)
    ensures Decimal(n)[0] == '0' ==> |Decimal(n)| == 1
  {
  }

  /** A word must not run on with a letter, a digit or an underscore. */
  lemma WordEnds(literal: string, c: char, rest: string)
    ensures ReadLiteral(literal + ([c] + rest), literal) ==
            if 'a' <= c <= 'z' || 'A' <= c <= 'Z' || '0' <= c <= '9' || c == '_' then Err(InvalidLiteral)
            else Ok([c] + rest)
  {
    var s := literal + ([c] + rest);
    assert literal <= s && s[|literal|..] == [c] + rest;
  }

  /** Text above 32 MiB, and text that starts with a byte order mark, is refused for that. */
  lemma StartRefused(text: string, nulls: bool)
    ensures |Utf8.Encode(text)| > 32 * 1024 * 1024 ==> Parse(text, nulls) == Err(TooLarge)
    ensures |Utf8.Encode(text)| <= 32 * 1024 * 1024 && text != "" && text[0] == '\U{FEFF}' ==>
              Parse(text, nulls) == Err(ByteOrderMark)
  {
    hide ReadValue;
  }
}
