/** The JSON tree (`serde_json::Value`) that the strict parser builds and the compiler reads. */
module JsonValue {
  import Utf8

  datatype Json =
    | Null
    | Bool(b: bool)
    | Integer(n: int)
    | Float
    | String(text: string)
    | Array(items: seq<Json>)
    | Object(members: seq<Member>)

  datatype Member = Member(key: string, value: Json)

  predicate DistinctNames(members: seq<Member>) {
    forall i, j :: 0 <= i < j < |members| ==> members[i].key != members[j].key
  }

  const TWO_64: nat := 0x1_0000_0000_0000_0000

  /**
   What the type holds: 64-bit integers, signed or unsigned, and objects with distinct names
   whose lengths a machine word can count.
   */
  predicate WellFormed(v: Json)
    decreases v, 0
  {
    match v
    case Integer(n) => -0x8000_0000_0000_0000 <= n < TWO_64
    case Array(items) => AllWellFormed(items)
    case Object(members) => DistinctNames(members) && MembersWellFormed(members)
    case _ => true
  }

  predicate AllWellFormed(items: seq<Json>)
    decreases items, 1
  {
    items != [] ==> WellFormed(items[0]) && AllWellFormed(items[1..])
  }

  predicate MembersWellFormed(members: seq<Member>)
    decreases members, 1
  {
    members != [] ==>
      && |Utf8.Encode(members[0].key)| < TWO_64
      && WellFormed(members[0].value)
      && MembersWellFormed(members[1..])
  }
}
