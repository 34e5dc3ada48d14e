/**
 The order of object members. The trees of this model keep the members of an object in the
 order of the document; `serde_json::Map` keeps them by key. What the compiler makes of a
 tree depends on the sorted members alone.
 */
module JsonOrder {
  import opened Bytes
  import opened Sorting
  import opened JsonToCbor
  import J = JsonValue
  import Cbor
  import Utf8

  function MemberKey(m: J.Member): seq<Byte> {
    Utf8.Encode(m.key)
  }

  /** The tree as the source holds it: the members of every object in the byte order of their keys. */
  function KeySorted(v: J.Json): J.Json
    decreases v, 0
  {
    match v
    case Array(items) => J.Array(ItemsSorted(items))
    case Object(members) => J.Object(Sort(MembersSorted(members), MemberKey))
    case _ => v
  }

  function ItemsSorted(items: seq<J.Json>): (r: seq<J.Json>)
    ensures |r| == |items|
    decreases items, 1
  {
    if items == [] then [] else [KeySorted(items[0])] + ItemsSorted(items[1..])
  }

  /** The members with sorted values, themselves still in document order. */
  function MembersSorted(members: seq<J.Member>): (r: seq<J.Member>)
    ensures |r| == |members|
    decreases members, 1
  {
    if members == [] then []
    else [J.Member(members[0].key, KeySorted(members[0].value))] + MembersSorted(members[1..])
  }

  lemma {:induction false} InsertCommutes(m: J.Member, members: seq<J.Member>)
    ensures PlainMembers(Insert(m, members, MemberKey)) ==
            Insert(Cbor.Entry(m.key, Plain(m.value)), PlainMembers(members), EntryKey)
  {
    hide Plain, Utf8.Encode, Less;
    var e, es := Cbor.Entry(m.key, Plain(m.value)), PlainMembers(members);
    if members == [] || !Less(MemberKey(members[0]), MemberKey(m)) {
      assert ([m] + members)[1..] == members;
    } else {
      InsertCommutes(m, members[1..]);
      assert es[1..] == PlainMembers(members[1..]);
      var r := Insert(m, members[1..], MemberKey);
      assert ([members[0]] + r)[1..] == r;
    }
  }

  lemma {:induction false} SortCommutes(members: seq<J.Member>)
    ensures PlainMembers(Sort(members, MemberKey)) == Sort(PlainMembers(members), EntryKey)
  {
    hide Plain, Utf8.Encode, Less, Insert;
    if members != [] {
      SortCommutes(members[1..]);
      InsertCommutes(members[0], Sort(members[1..], MemberKey));
      assert PlainMembers(members)[1..] == PlainMembers(members[1..]);
    }
  }

  lemma SortIsIdempotent(es: seq<Cbor.Entry>)
    requires DistinctBy(es, EntryKey)
    ensures Sort(Sort(es, EntryKey), EntryKey) == Sort(es, EntryKey)
  {
    hide Sort, Less, Utf8.Encode;
    var s := Sort(es, EntryKey);
    SortDistinct(es, EntryKey);
    forall i, j | 0 <= i < j < |s|
      ensures EntryKey(s[i]) != EntryKey(s[j])
    {
      LessIrreflexive(EntryKey(s[i]));
    }
    SortDistinct(s, EntryKey);
    IncreasingUnique(Sort(s, EntryKey), s, EntryKey);
  }

  lemma {:induction false} SortedPlain(v: J.Json)
    requires J.WellFormed(v)
    ensures Plain(KeySorted(v)) == Plain(v) && (Expressible(KeySorted(v)) <==> Expressible(v))
    decreases v, 0
  {
    hide Sort, Utf8.Encode, J.DistinctNames;
    match v
    case Array(items) => SortedItems(items);
    case Object(members) =>
      SortedValues(members);
      var ms := MembersSorted(members);
      SortCommutes(ms);
      PlainNames(members);
      SortIsIdempotent(PlainMembers(members));
      SortKeeps(ms, MemberKey);
      SameMembers(Sort(ms, MemberKey), ms);
      AllExpressible(ms);
      AllExpressible(Sort(ms, MemberKey));
    case _ =>
  }

  lemma {:induction false} AllExpressible(members: seq<J.Member>)
    ensures MembersExpressible(members) <==> forall m <- members :: Expressible(m.value)
  {
    hide Expressible;
    if members != [] {
      AllExpressible(members[1..]);
      assert forall m :: m in members <==> m == members[0] || m in members[1..];
    }
  }

  lemma {:induction false} SortedItems(items: seq<J.Json>)
    requires J.AllWellFormed(items)
    ensures PlainItems(ItemsSorted(items)) == PlainItems(items)
    ensures ItemsExpressible(ItemsSorted(items)) <==> ItemsExpressible(items)
    decreases items, 1
  {
    hide Plain, Expressible, KeySorted, J.WellFormed;
    if items != [] {
      SortedPlain(items[0]);
      SortedItems(items[1..]);
      assert ItemsSorted(items)[1..] == ItemsSorted(items[1..]);
    }
  }

  lemma {:induction false} SortedValues(members: seq<J.Member>)
    requires J.MembersWellFormed(members)
    ensures PlainMembers(MembersSorted(members)) == PlainMembers(members)
    ensures MembersExpressible(MembersSorted(members)) <==> MembersExpressible(members)
    decreases members, 1
  {
    hide Plain, Expressible, KeySorted, J.WellFormed, Utf8.Encode;
    if members != [] {
      SortedPlain(members[0].value);
      SortedValues(members[1..]);
      assert MembersSorted(members)[1..] == MembersSorted(members[1..]);
    }
  }

  /** Two documents that the source holds as the same tree are translated alike, at every depth. */
  lemma OrderIsForgotten(v: J.Json, w: J.Json, depth: nat)
    requires J.WellFormed(v) && J.WellFormed(w) && KeySorted(v) == KeySorted(w)
    ensures Translate(v, depth).Ok? <==> Translate(w, depth).Ok?
    ensures Translate(v, depth).Ok? ==> Translate(v, depth) == Translate(w, depth)
  {
    hide Plain, Expressible, KeySorted, Translate, J.WellFormed, Cbor.Canonical;
    SortedPlain(v);
    SortedPlain(w);
    TranslateMeaning(v, depth);
    TranslateMeaning(w, depth);
  }
}
