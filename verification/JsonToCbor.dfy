/**
 `json_to_cbor` and `sort_unique_text` of `compile.rs`: the limits of the translation are
 exactly those of the CBOR decoder.
 */
module JsonToCbor {
  import opened Wrappers
  import opened Bytes
  import opened Sorting
  import J = JsonValue
  import Cbor
  import Utf8

  const MAX_STRING: nat := 1024 * 1024

  datatype Error = TooDeep | NullValue | FloatValue | StringTooLong | TooManyItems | Duplicate

  function EntryKey(e: Cbor.Entry): seq<Byte> {
    Utf8.Encode(e.key)
  }

  /** `json_to_cbor`; a B-tree map lists its entries in the byte order of their keys. */
  function Translate(v: J.Json, depth: nat): Result<Cbor.Value, Error>
    decreases v, 0
  {
    if depth > 32 then Err(TooDeep)
    else
      match v
      case Null => Err(NullValue)
      case Bool(b) => Ok(Cbor.Bool(b))
      case Integer(n) => Ok(Cbor.Integer(n))
      case Float => Err(FloatValue)
      case String(text) => if |Utf8.Encode(text)| > MAX_STRING then Err(StringTooLong) else Ok(Cbor.Text(text))
      case Array(items) =>
        if |items| > 1_048_576 then Err(TooManyItems)
        else
          var out :- TranslateItems(items, depth + 1);
          Ok(Cbor.Array(out))
      case Object(members) =>
        if |members| > 1_048_576 then Err(TooManyItems)
        else
          var out :- TranslateMembers(members, depth + 1);
          Ok(Cbor.Map(Sort(out, EntryKey)))
  }

  function TranslateItems(items: seq<J.Json>, depth: nat): (r: Result<seq<Cbor.Value>, Error>)
    ensures r.Ok? ==> |r.value| == |items|
    decreases items, 1
  {
    if items == [] then Ok([])
    else
      var first :- Translate(items[0], depth);
      var rest :- TranslateItems(items[1..], depth);
      Ok([first] + rest)
  }

  function TranslateMembers(members: seq<J.Member>, depth: nat): (r: Result<seq<Cbor.Entry>, Error>)
    ensures r.Ok? ==> |r.value| == |members|
    ensures r.Ok? ==> forall i :: 0 <= i < |members| ==> r.value[i].key == members[i].key
    decreases members, 1
  {
    if members == [] then Ok([])
    else
      var first :- Translate(members[0].value, depth);
      var rest :- TranslateMembers(members[1..], depth);
      Ok([Cbor.Entry(members[0].key, first)] + rest)
  }

  // ---------------------------------------------------------------- what is accepted

  /** No null, no float, no string over one MiB, anywhere in the tree. */
  predicate Expressible(v: J.Json)
    decreases v, 0
  {
    match v
    case Null => false
    case Float => false
    case String(text) => |Utf8.Encode(text)| <= MAX_STRING
    case Array(items) => ItemsExpressible(items)
    case Object(members) => MembersExpressible(members)
    case _ => true
  }

  predicate ItemsExpressible(items: seq<J.Json>)
    decreases items, 1
  {
    items != [] ==> Expressible(items[0]) && ItemsExpressible(items[1..])
  }

  predicate MembersExpressible(members: seq<J.Member>)
    decreases members, 1
  {
    members != [] ==> Expressible(members[0].value) && MembersExpressible(members[1..])
  }

  /** The same tree as a CBOR value, without any limit. */
  function Plain(v: J.Json): Cbor.Value
    decreases v, 0
  {
    match v
    case Null => Cbor.Null
    case Bool(b) => Cbor.Bool(b)
    case Integer(n) => Cbor.Integer(n)
    case Float => Cbor.Null
    case String(text) => Cbor.Text(text)
    case Array(items) => Cbor.Array(PlainItems(items))
    case Object(members) => Cbor.Map(Sort(PlainMembers(members), EntryKey))
  }

  function PlainItems(items: seq<J.Json>): (r: seq<Cbor.Value>)
    ensures |r| == |items|
    decreases items, 1
  {
    if items == [] then [] else [Plain(items[0])] + PlainItems(items[1..])
  }

  function PlainMembers(members: seq<J.Member>): (r: seq<Cbor.Entry>)
    ensures |r| == |members|
    ensures forall i :: 0 <= i < |members| ==> r[i].key == members[i].key
    decreases members, 1
  {
    if members == [] then []
    else [Cbor.Entry(members[0].key, Plain(members[0].value))] + PlainMembers(members[1..])
  }

  /** Every value of the entries is canonical at `depth`. */
  ghost predicate ValuesCanonical(es: seq<Cbor.Entry>, depth: nat) {
    forall e <- es :: Cbor.Canonical(e.value, depth)
  }

  ghost predicate KeysCounted(es: seq<Cbor.Entry>) {
    forall e <- es :: |EntryKey(e)| < Cbor.TWO_64
  }

  lemma {:induction false} EntriesAreValues(es: seq<Cbor.Entry>, depth: nat, previous: Option<string>)
    requires Increasing(es, EntryKey) && KeysCounted(es)
    requires es != [] ==> Cbor.Follows(previous, es[0].key)
    ensures Cbor.CanonicalEntries(es, depth, previous) <==> ValuesCanonical(es, depth)
  {
    hide Cbor.Canonical, Less, Utf8.Encode;
    if es != [] {
      assert |es| == 1 || Less(EntryKey(es[0]), EntryKey(es[1]));
      assert es[0] in es && forall e <- es[1..] :: e in es;
      EntriesAreValues(es[1..], depth, Some(es[0].key));
      assert forall e <- es :: e == es[0] || e in es[1..];
    }
  }

  lemma SortedEntries(es: seq<Cbor.Entry>, depth: nat)
    requires DistinctBy(es, EntryKey) && KeysCounted(es)
    ensures Cbor.CanonicalEntries(Sort(es, EntryKey), depth, None) <==> ValuesCanonical(es, depth)
  {
    hide Cbor.Canonical, Less, Utf8.Encode, Sort, Cbor.CanonicalEntries;
    SortDistinct(es, EntryKey);
    EntriesAreValues(Sort(es, EntryKey), depth, None);
  }

  lemma PlainNames(members: seq<J.Member>)
    requires J.DistinctNames(members) && J.MembersWellFormed(members)
    ensures DistinctBy(PlainMembers(members), EntryKey) && KeysCounted(PlainMembers(members))
  {
    hide Utf8.Encode, Plain;
    var es := PlainMembers(members);
    forall i, j | 0 <= i < j < |es|
      ensures EntryKey(es[i]) != EntryKey(es[j])
    {
      if EntryKey(es[i]) == EntryKey(es[j]) {
        Utf8.EncodeInjective(es[i].key, es[j].key);
      }
    }
    PlainKeysCounted(members);
  }

  lemma {:induction false} PlainKeysCounted(members: seq<J.Member>)
    requires J.MembersWellFormed(members)
    ensures KeysCounted(PlainMembers(members))
  {
    hide Utf8.Encode, Plain;
    if members != [] {
      PlainKeysCounted(members[1..]);
      var es := PlainMembers(members);
      assert es == [es[0]] + PlainMembers(members[1..]);
    }
  }

  lemma {:induction false} TranslateItemsMeaning(items: seq<J.Json>, depth: nat)
    requires J.AllWellFormed(items)
    ensures TranslateItems(items, depth).Ok? <==>
            ItemsExpressible(items) && Cbor.CanonicalItems(PlainItems(items), depth)
    ensures TranslateItems(items, depth).Ok? ==> TranslateItems(items, depth).value == PlainItems(items)
    decreases items, 1
  {
    hide Translate, Plain, Expressible, Cbor.Canonical, J.WellFormed;
    if items != [] {
      TranslateMeaning(items[0], depth);
      TranslateItemsMeaning(items[1..], depth);
      assert PlainItems(items)[0] == Plain(items[0]) && PlainItems(items)[1..] == PlainItems(items[1..]);
    }
  }

  lemma {:induction false} TranslateMembersMeaning(members: seq<J.Member>, depth: nat)
    requires J.MembersWellFormed(members)
    ensures TranslateMembers(members, depth).Ok? <==>
            MembersExpressible(members) && ValuesCanonical(PlainMembers(members), depth)
    ensures TranslateMembers(members, depth).Ok? ==> TranslateMembers(members, depth).value == PlainMembers(members)
    decreases members, 1
  {
    hide Translate, Plain, Expressible, Cbor.Canonical, J.WellFormed, Utf8.Encode;
    if members != [] {
      TranslateMeaning(members[0].value, depth);
      TranslateMembersMeaning(members[1..], depth);
      var es, tail := PlainMembers(members), PlainMembers(members[1..]);
      assert es == [es[0]] + tail;
      assert es[0] in es && forall e <- tail :: e in es;
    }
  }

  /**
   The translation accepts exactly the trees without null, float or long string whose plain
   image the CBOR decoder accepts at the same depth, and returns that image: the two depth
   limits and the two item limits coincide, empty containers included.
   */
  lemma {:induction false} TranslateMeaning(v: J.Json, depth: nat)
    requires J.WellFormed(v)
    ensures Translate(v, depth).Ok? <==> Expressible(v) && Cbor.Canonical(Plain(v), depth)
    ensures Translate(v, depth).Ok? ==> Translate(v, depth).value == Plain(v)
    decreases v, 0
  {
    hide Utf8.Encode, Sort, Cbor.CanonicalEntries, PlainMembers, TranslateMembers, ItemsExpressible, MembersExpressible,
      PlainItems, TranslateItems, Cbor.CanonicalItems, J.DistinctNames, J.MembersWellFormed, J.AllWellFormed;
    match v
    case Array(items) => TranslateItemsMeaning(items, depth + 1);
    case Object(members) =>
      TranslateMembersMeaning(members, depth + 1);
      SortedMembers(members, depth + 1);
    case _ =>
  }

  lemma SortedMembers(members: seq<J.Member>, depth: nat)
    requires J.DistinctNames(members) && J.MembersWellFormed(members)
    ensures var sorted := Sort(PlainMembers(members), EntryKey);
            && |sorted| == |members|
            && (Cbor.CanonicalEntries(sorted, depth, None) <==> ValuesCanonical(PlainMembers(members), depth))
  {
    hide Utf8.Encode, Sort, Cbor.CanonicalEntries, Plain, ValuesCanonical;
    PlainNames(members);
    SortedEntries(PlainMembers(members), depth);
    SortKeeps(PlainMembers(members), EntryKey);
    SameMembers(Sort(PlainMembers(members), EntryKey), PlainMembers(members));
  }

  /** Whatever the translation accepts decodes back to itself, up to the document limit. */
  lemma TranslatedDecodes(v: J.Json)
    requires J.WellFormed(v) && Translate(v, 0).Ok?
    ensures var w := Translate(v, 0).value;
            Cbor.Decode(Cbor.Encode(w)) == Ok(w) <==> |Cbor.Encode(w)| <= Cbor.MAX_DOCUMENT_BYTES
  {
    hide Plain, Cbor.Canonical, Cbor.Decode, Translate;
    TranslateMeaning(v, 0);
    var w := Translate(v, 0).value;
    Cbor.DecodeExactlyEncoding(Cbor.Encode(w), w);
  }

  // ---------------------------------------------------------------- as it runs

  function Prepend<T>(done: seq<T>, rest: Result<seq<T>, Error>): Result<seq<T>, Error> {
    if rest.Ok? then Ok(done + rest.value) else rest
  }

  lemma PrependNothing<T>(rest: Result<seq<T>, Error>)
    ensures Prepend([], rest) == rest
  {
    if rest.Ok? {
      assert [] + rest.value == rest.value;
    }
  }

  lemma PrependOne<T>(done: seq<T>, x: T, rest: Result<seq<T>, Error>)
    ensures Prepend(done, Prepend([x], rest)) == Prepend(done + [x], rest)
  {
    if rest.Ok? {
      ConcatAssociative(done, [x], rest.value);
    }
  }

  lemma PrependLast<T>(done: seq<T>)
    ensures Prepend(done, Ok([])) == Ok(done)
  {
    assert done + [] == done;
  }

  method Run(v: J.Json, depth: nat) returns (r: Result<Cbor.Value, Error>)
    requires J.WellFormed(v)
    ensures r == Translate(v, depth)
    decreases v, 0
  {
    hide Utf8.Encode, Sort;
    if depth > 32 {
      return Err(TooDeep);
    }
    match v {
      case Null => return Err(NullValue);
      case Bool(b) => return Ok(Cbor.Bool(b));
      case Integer(n) => return Ok(Cbor.Integer(n));
      case Float => return Err(FloatValue);
      case String(text) =>
        if |Utf8.Encode(text)| > MAX_STRING {
          return Err(StringTooLong);
        }
        return Ok(Cbor.Text(text));
      case Array(items) =>
        if |items| > 1_048_576 {
          return Err(TooManyItems);
        }
        var out :- RunItems(items, depth + 1);
        return Ok(Cbor.Array(out));
      case Object(members) =>
        if |members| > 1_048_576 {
          return Err(TooManyItems);
        }
        var entries :- RunMembers(members, depth + 1);
        return Ok(Cbor.Map(entries));
    }
  }

  method RunItems(items: seq<J.Json>, depth: nat) returns (r: Result<seq<Cbor.Value>, Error>)
    requires J.AllWellFormed(items)
    ensures r == TranslateItems(items, depth)
    decreases items, 1
  {
    hide Translate, J.WellFormed, Prepend;
    var out: seq<Cbor.Value> := [];
    assert items[0..] == items;
    PrependNothing(TranslateItems(items, depth));
    for i := 0 to |items|
      invariant J.AllWellFormed(items[i..])
      invariant TranslateItems(items, depth) == Prepend(out, TranslateItems(items[i..], depth))
    {
      assert items[i..][0] == items[i] && items[i..][1..] == items[i + 1..];
      ItemsStep(items[i..], out, depth);
      var item :- Run(items[i], depth);
      PrependOne(out, item, TranslateItems(items[i + 1..], depth));
      out := out + [item];
    }
    assert items[|items|..] == [];
    PrependLast(out);
    return Ok(out);
  }

  /** The entries as a B-tree map keeps them: every insertion goes to its place in key order. */
  method RunMembers(members: seq<J.Member>, depth: nat) returns (r: Result<seq<Cbor.Entry>, Error>)
    requires J.DistinctNames(members) && J.MembersWellFormed(members)
    ensures r == match TranslateMembers(members, depth)
                 case Err(error) => Err(error)
                 case Ok(es) => Ok(Sort(es, EntryKey))
    decreases members, 1
  {
    hide Translate, TranslateMembers, Sort, Insert, Prepend, J.WellFormed, J.DistinctNames, DistinctBy, Utf8.Encode;
    var entries: seq<Cbor.Entry> := [];
    ghost var done: seq<Cbor.Entry> := [];
    assert members[0..] == members;
    PrependNothing(TranslateMembers(members, depth));
    SortNothing();
    for i := 0 to |members|
      invariant J.MembersWellFormed(members[i..])
      invariant TranslateMembers(members, depth) == Prepend(done, TranslateMembers(members[i..], depth))
      invariant entries == Sort(done, EntryKey)
      invariant |done| == i && forall k :: 0 <= k < i ==> done[k].key == members[k].key
    {
      assert members[i..][0] == members[i] && members[i..][1..] == members[i + 1..];
      MembersStep(members[i..], done, depth);
      var value :- Run(members[i].value, depth);
      var entry := Cbor.Entry(members[i].key, value);
      PrependOne(done, entry, TranslateMembers(members[i + 1..], depth));
      NewKey(members, done, entry);
      InsertLast(done, entry, EntryKey);
      entries := Insert(entry, entries, EntryKey);
      done := done + [entry];
    }
    assert members[|members|..] == [];
    NothingTranslates(depth);
    PrependLast(done);
    return Ok(entries);
  }

  lemma NothingTranslates(depth: nat)
    ensures TranslateMembers([], depth) == Ok([])
  {
  }

  lemma SortNothing()
    ensures Sort([], EntryKey) == []
  {
  }

  lemma ItemsStep(items: seq<J.Json>, done: seq<Cbor.Value>, depth: nat)
    requires items != []
    ensures Translate(items[0], depth).Err? ==>
              Prepend(done, TranslateItems(items, depth)) == Err(Translate(items[0], depth).error)
    ensures Translate(items[0], depth).Ok? ==>
              TranslateItems(items, depth) ==
              Prepend([Translate(items[0], depth).value], TranslateItems(items[1..], depth))
  {
    hide Translate;
  }

  lemma MembersStep(members: seq<J.Member>, done: seq<Cbor.Entry>, depth: nat)
    requires members != []
    ensures var r := Translate(members[0].value, depth);
            && (r.Err? ==> Prepend(done, TranslateMembers(members, depth)) == Err(r.error))
            && (r.Ok? ==> TranslateMembers(members, depth) ==
                          Prepend([Cbor.Entry(members[0].key, r.value)], TranslateMembers(members[1..], depth)))
  {
    hide Translate;
  }

  lemma NewKey(members: seq<J.Member>, done: seq<Cbor.Entry>, entry: Cbor.Entry)
    requires J.DistinctNames(members) && |done| < |members| && entry.key == members[|done|].key
    requires forall k :: 0 <= k < |done| ==> done[k].key == members[k].key
    ensures DistinctBy(done + [entry], EntryKey)
  {
    hide Utf8.Encode;
    var es := done + [entry];
    forall i, j | 0 <= i < j < |es|
      ensures EntryKey(es[i]) != EntryKey(es[j])
    {
      if EntryKey(es[i]) == EntryKey(es[j]) {
        Utf8.EncodeInjective(es[i].key, es[j].key);
      }
    }
  }

  // ---------------------------------------------------------------- unique names

  /** `sort_unique_text`: sorts in place and refuses a text that occurs twice. */
  method SortUniqueText(values: array<string>) returns (r: Outcome<Error>)
    modifies values
    ensures values[..] == Sort(old(values[..]), Utf8.Encode)
    ensures r.Pass? <==> forall i, j :: 0 <= i < j < values.Length ==> old(values[i]) != old(values[j])
  {
    hide Sort, Utf8.Encode, Less;
    ghost var was := values[..];
    var sorted := Sort(values[..], Utf8.Encode);
    SortKeeps(was, Utf8.Encode);
    SameMembers(sorted, was);
    forall i | 0 <= i < values.Length {
      values[i] := sorted[i];
    }
    assert values[..] == sorted;
    NeighboursTell(was);
    var i := 0;
    while i + 1 < values.Length
      invariant 0 <= i <= values.Length && values[..] == sorted
      invariant forall k :: 0 <= k < i && k + 1 < |sorted| ==> sorted[k] != sorted[k + 1]
    {
      if values[i] == values[i + 1] {
        return Fail(Duplicate);
      }
      i := i + 1;
    }
    return Pass;
  }

  predicate AllDistinct(s: seq<string>) {
    forall i, j :: 0 <= i < j < |s| ==> s[i] != s[j]
  }

  predicate NeighboursDiffer(s: seq<string>) {
    forall k :: 0 <= k < |s| - 1 ==> s[k] != s[k + 1]
  }

  /** In sorted text, comparing neighbours finds every duplicate. */
  lemma NeighboursTell(s: seq<string>)
    ensures NeighboursDiffer(Sort(s, Utf8.Encode)) <==> AllDistinct(s)
  {
    hide Sort, Utf8.Encode, Less;
    var r := Sort(s, Utf8.Encode);
    SortKeeps(s, Utf8.Encode);
    SortAscending(s, Utf8.Encode);
    DistinctIsMultiset(s);
    DistinctIsMultiset(r);
    if NeighboursDiffer(r) {
      forall k | 0 <= k < |r| - 1
        ensures Less(Utf8.Encode(r[k]), Utf8.Encode(r[k + 1]))
      {
        LessTotal(Utf8.Encode(r[k]), Utf8.Encode(r[k + 1]));
        if Utf8.Encode(r[k]) == Utf8.Encode(r[k + 1]) {
          Utf8.EncodeInjective(r[k], r[k + 1]);
        }
      }
      IncreasingAll(r, Utf8.Encode);
      forall i, j | 0 <= i < j < |r|
        ensures r[i] != r[j]
      {
        LessIrreflexive(Utf8.Encode(r[i]));
      }
    }
  }

  lemma DistinctIsMultiset(s: seq<string>)
    ensures AllDistinct(s) <==> forall x :: multiset(s)[x] <= 1
  {
    if AllDistinct(s) {
      forall x
        ensures multiset(s)[x] <= 1
      {
        if x in multiset(s) {
          var m :| 0 <= m < |s| && s[m] == x;
          OnceCounted(s, m);
        }
      }
    } else {
      var i, j :| 0 <= i < j < |s| && s[i] == s[j];
      TwiceCounted(s, i, j);
    }
  }
}
