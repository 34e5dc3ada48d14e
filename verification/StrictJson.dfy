/** From strict JSON text to canonical CBOR: what the parser's limits promise the translation. */
module StrictJson {
  import opened Wrappers
  import opened Json
  import J = JsonValue
  import JsonToCbor
  import Cbor
  import Utf8

  /** How many containers are nested in a tree. */
  function Depth(v: J.Json): nat
    decreases v, 0
  {
    match v
    case Array(items) => 1 + ItemsDepth(items)
    case Object(members) => 1 + MembersDepth(members)
    case _ => 0
  }

  function ItemsDepth(items: seq<J.Json>): nat
    decreases items, 1
  {
    if items == [] then 0 else Larger(Depth(items[0]), ItemsDepth(items[1..]))
  }

  function MembersDepth(members: seq<J.Member>): nat
    decreases members, 1
  {
    if members == [] then 0 else Larger(Depth(members[0].value), MembersDepth(members[1..]))
  }

  function Larger(a: nat, b: nat): nat {
    if a < b then b else a
  }

  lemma {:induction false} NewNames(members: seq<J.Member>, depth: nat, nulls: bool, keys: set<string>)
    requires MembersAdmissible(members, depth, nulls, keys)
    ensures J.DistinctNames(members) && forall m <- members :: m.key !in keys
  {
    hide Admissible, Utf8.Encode;
    if members != [] {
      NewNames(members[1..], depth, nulls, keys + {members[0].key});
      forall i, j | 0 <= i < j < |members|
        ensures members[i].key != members[j].key
      {
        assert members[j] == members[1..][j - 1] && members[j] in members[1..];
        if i > 0 {
          assert members[i] == members[1..][i - 1];
        }
      }
      assert forall m :: m in members <==> m == members[0] || m in members[1..];
    }
  }

  lemma {:induction false} AdmissibleTree(v: J.Json, depth: nat, nulls: bool)
    requires Admissible(v, depth, nulls) && depth <= MAX_DEPTH
    ensures J.WellFormed(v) && depth + Depth(v) <= MAX_DEPTH
    decreases v, 0
  {
    hide Utf8.Encode;
    match v
    case Array(items) => AdmissibleItems(items, depth + 1, nulls);
    case Object(members) =>
      AdmissibleMembers(members, depth + 1, nulls, {});
      NewNames(members, depth + 1, nulls, {});
    case _ =>
  }

  lemma {:induction false} AdmissibleItems(items: seq<J.Json>, depth: nat, nulls: bool)
    requires ItemsAdmissible(items, depth, nulls) && depth <= MAX_DEPTH
    ensures J.AllWellFormed(items) && depth + ItemsDepth(items) <= MAX_DEPTH
    decreases items, 1
  {
    hide Admissible, J.WellFormed, Depth;
    if items != [] {
      AdmissibleTree(items[0], depth, nulls);
      AdmissibleItems(items[1..], depth, nulls);
    }
  }

  lemma {:induction false} AdmissibleMembers(members: seq<J.Member>, depth: nat, nulls: bool, keys: set<string>)
    requires MembersAdmissible(members, depth, nulls, keys) && depth <= MAX_DEPTH
    ensures J.MembersWellFormed(members) && depth + MembersDepth(members) <= MAX_DEPTH
    decreases members, 1
  {
    hide Admissible, J.WellFormed, Depth, Utf8.Encode;
    if members != [] {
      AdmissibleTree(members[0].value, depth, nulls);
      AdmissibleMembers(members[1..], depth, nulls, keys + {members[0].key});
    }
  }

  /** Whatever the strict parser accepts has unique keys, bounded depth and a bounded number of values. */
  lemma ParsedLimits(text: string, v: J.Json, nulls: bool)
    requires Parse(text, nulls) == Ok(v)
    ensures J.WellFormed(v) && Depth(v) <= 32 && Count(v) <= 1_048_576
  {
    hide Parse, Admissible, J.WellFormed, Depth, Writes, Utf8.Encode;
    ParseMeaning(text, v, nulls);
    AdmissibleTree(v, 0, nulls);
  }

  // ---------------------------------------------------------------- translation

  lemma {:induction false} AdmissibleTranslates(v: J.Json, depth: nat)
    requires Admissible(v, depth, false) && depth <= MAX_DEPTH && Count(v) <= MAX_VALUES
    ensures JsonToCbor.Translate(v, depth).Ok?
    decreases v, 0
  {
    hide Utf8.Encode;
    match v
    case Array(items) => ItemsTranslate(items, depth + 1);
    case Object(members) => MembersTranslate(members, depth + 1, {});
    case _ =>
  }

  lemma {:induction false} ItemsTranslate(items: seq<J.Json>, depth: nat)
    requires ItemsAdmissible(items, depth, false) && depth <= MAX_DEPTH && CountItems(items) <= MAX_VALUES
    ensures JsonToCbor.TranslateItems(items, depth).Ok? && |items| <= CountItems(items)
    decreases items, 1
  {
    hide Admissible, JsonToCbor.Translate;
    if items != [] {
      AdmissibleTranslates(items[0], depth);
      ItemsTranslate(items[1..], depth);
    }
  }

  lemma {:induction false} MembersTranslate(members: seq<J.Member>, depth: nat, keys: set<string>)
    requires MembersAdmissible(members, depth, false, keys) && depth <= MAX_DEPTH && CountMembers(members) <= MAX_VALUES
    ensures JsonToCbor.TranslateMembers(members, depth).Ok? && |members| <= CountMembers(members)
    decreases members, 1
  {
    hide Admissible, JsonToCbor.Translate;
    if members != [] {
      AdmissibleTranslates(members[0].value, depth);
      MembersTranslate(members[1..], depth, keys + {members[0].key});
    }
  }

  /** Every strictly parsed document translates, and within 32 MiB the CBOR decodes to it. */
  lemma StrictJsonTranslates(text: string, v: J.Json)
    requires Parse(text, false) == Ok(v)
    ensures JsonToCbor.Translate(v, 0) == Ok(JsonToCbor.Plain(v))
    ensures var w := JsonToCbor.Plain(v);
            |Cbor.Encode(w)| <= Cbor.MAX_DOCUMENT_BYTES ==> Cbor.Decode(Cbor.Encode(w)) == Ok(w)
  {
    hide Parse, Admissible, J.WellFormed, Depth, Writes, Count, Utf8.Encode, JsonToCbor.Translate, JsonToCbor.Plain,
      Cbor.Canonical, JsonToCbor.Expressible;
    ParseMeaning(text, v, false);
    AdmissibleTree(v, 0, false);
    AdmissibleTranslates(v, 0);
    JsonToCbor.TranslateMeaning(v, 0);
    JsonToCbor.TranslatedDecodes(v);
  }

  // ---------------------------------------------------------------- the depth limits

  /** An empty array inside `n` arrays. */
  function Nested(n: nat): J.Json {
    if n == 0 then J.Array([]) else J.Array([Nested(n - 1)])
  }

  lemma {:induction false} NestedTranslates(n: nat, depth: nat)
    ensures J.WellFormed(Nested(n)) && (JsonToCbor.Translate(Nested(n), depth).Ok? <==> depth + n <= 32)
    decreases n
  {
    var v := Nested(n);
    if n > 0 {
      NestedTranslates(n - 1, depth + 1);
      assert v.items[1..] == [];
      assert JsonToCbor.TranslateItems([], depth + 1) == Ok([]);
      assert J.AllWellFormed([]);
    }
  }
}
