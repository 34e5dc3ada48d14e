/**
 Which trees have a block layout, and the round trip from the tree: printing any tree in
 blocks and parsing the text gives the tree back.
 */
module YamlTrees {
  import opened Wrappers
  import opened YamlText
  import opened Yaml
  import opened YamlDocument
  import J = JsonValue
  import JsonText
  import Utf8

  function Larger(a: nat, b: nat): nat {
    if a < b then b else a
  }

  /** What stands on one line: a scalar that the subset can print, `[]` or `{}`. */
  predicate OnOneLine(v: J.Json) {
    match v
    case Bool(_) => true
    case Integer(n) => 0 <= n < JsonText.TWO_64
    case String(text) => OneLine(text)
    case Array(items) => items == []
    case Object(members) => members == []
    case _ => false
  }

  /**
   The trees the subset can print: no null, no float, no negative number, strings of one
   line, and valid keys without repetition.
   */
  predicate Blockable(v: J.Json)
    decreases v, 0
  {
    match v
    case Array(items) => ItemsBlockable(items)
    case Object(members) => MembersBlockable(members, {})
    case _ => OnOneLine(v)
  }

  predicate ItemsBlockable(items: seq<J.Json>)
    decreases items, 1
  {
    items != [] ==> Blockable(items[0]) && ItemsBlockable(items[1..])
  }

  predicate MembersBlockable(members: seq<J.Member>, keys: set<string>)
    decreases members, 1
  {
    members != [] ==>
      && ValidKey(members[0].key) && members[0].key !in keys
      && Blockable(members[0].value)
      && MembersBlockable(members[1..], keys + {members[0].key})
  }

  // ---------------------------------------------------------------- the depth a tree needs

  /**
   The nodes that are open at once while a tree is parsed, in its flattest layout: every
   container that is not on one line, save a mapping that starts beside the dash of an item.
   */
  function Levels(v: J.Json): nat
    decreases v, 0
  {
    if OnOneLine(v) then 0
    else
      match v
      case Array(items) => 1 + ItemsLevels(items)
      case Object(members) => 1 + MembersLevels(members)
      case _ => 0
  }

  function ItemsLevels(items: seq<J.Json>): nat
    decreases items, 1
  {
    if items == [] then 0 else Larger(ItemLevels(items[0]), ItemsLevels(items[1..]))
  }

  function ItemLevels(v: J.Json): nat
    decreases v, 0
  {
    match v
    case Object(members) => MembersLevels(members)
    case Array(items) => if items == [] then 0 else 1 + ItemsLevels(items)
    case _ => 0
  }

  function MembersLevels(members: seq<J.Member>): nat
    decreases members, 1
  {
    if members == [] then 0 else Larger(Levels(members[0].value), MembersLevels(members[1..]))
  }

  // ---------------------------------------------------------------- the layout of a tree

  function LeafOf(v: J.Json): Leaf
    requires OnOneLine(v)
  {
    match v
    case Bool(b) => Flag(b)
    case Integer(n) => Number(n)
    case String(text) => Quoted(text)
    case Array(_) => NoItems
    case Object(_) => NoEntries
  }

  /** The flattest layout of a map or a list. */
  function Lay(v: J.Json): Node
    requires Blockable(v) && (v.Array? || v.Object?)
    decreases v, 0
  {
    match v
    case Array(items) => if items == [] then EmptyList else List(LayItems(items))
    case Object(members) => if members == [] then EmptyDict else Dict(LayEntries(members, {}))
  }

  function LayItems(items: seq<J.Json>): (r: seq<Item>)
    requires ItemsBlockable(items)
    ensures |r| == |items|
    decreases items, 1
  {
    if items == [] then [] else [LayItem(items[0])] + LayItems(items[1..])
  }

  function LayItem(v: J.Json): Item
    requires Blockable(v)
    decreases v, 1
  {
    if OnOneLine(v) then LeafItem(LeafOf(v))
    else if v.Object? then DictItem(LayEntries(v.members, {}))
    else NodeItem(2, Lay(v))
  }

  function LayEntries(members: seq<J.Member>, keys: set<string>): (r: seq<Entry>)
    requires MembersBlockable(members, keys)
    ensures |r| == |members|
    decreases members, 1
  {
    if members == [] then []
    else [LayEntry(members[0])] + LayEntries(members[1..], keys + {members[0].key})
  }

  function LayEntry(m: J.Member): (e: Entry)
    requires Blockable(m.value)
    ensures e.key == m.key
    decreases m, 2
  {
    if OnOneLine(m.value) then LeafEntry(m.key, LeafOf(m.value)) else NodeEntry(m.key, 2, Lay(m.value))
  }

  /** The layout shows the tree it was made from, and it is valid where the tree's levels fit. */
  lemma {:induction false} LayShows(v: J.Json, depth: nat)
    requires Blockable(v) && (v.Array? || v.Object?)
    requires depth < MAX_DEPTH && depth + Levels(v) <= MAX_DEPTH
    ensures ValidNode(Lay(v), depth) && Tree(Lay(v)) == v
    decreases v, 0
  {
    match v
    case Array(items) => if items != [] { LayItemsShow(items, depth + 1); }
    case Object(members) => if members != [] { LayEntriesShow(members, {}, depth + 1); }
  }

  lemma {:induction false} LayItemsShow(items: seq<J.Json>, depth: nat)
    requires ItemsBlockable(items) && depth + ItemsLevels(items) <= MAX_DEPTH
    ensures ValidItems(LayItems(items), depth) && ItemTrees(LayItems(items)) == items
    decreases items, 1
  {
    hide Blockable, ValidItem, ItemTree, LayItem;
    if items != [] {
      LayItemShows(items[0], depth);
      LayItemsShow(items[1..], depth);
      assert LayItems(items)[1..] == LayItems(items[1..]);
      assert items == [items[0]] + items[1..];
    }
  }

  lemma {:induction false} LayItemShows(v: J.Json, depth: nat)
    requires Blockable(v) && depth + ItemLevels(v) <= MAX_DEPTH
    ensures ValidItem(LayItem(v), depth) && ItemTree(LayItem(v)) == v
    decreases v, 1
  {
    if OnOneLine(v) {
      LeafShows(v);
    } else if v.Object? {
      LayEntriesShow(v.members, {}, depth);
    } else {
      LayShows(v, depth);
    }
  }

  lemma LeafShows(v: J.Json)
    requires OnOneLine(v)
    ensures ValidLeaf(LeafOf(v)) && LeafTree(LeafOf(v)) == v
  {
  }

  lemma {:induction false} LayEntriesShow(members: seq<J.Member>, keys: set<string>, depth: nat)
    requires MembersBlockable(members, keys) && depth + MembersLevels(members) <= MAX_DEPTH
    ensures ValidEntries(LayEntries(members, keys), keys, depth) && EntryTrees(LayEntries(members, keys)) == members
    decreases members, 1
  {
    hide Blockable, ValidEntry, EntryTree, LayEntry, ValidKey;
    if members != [] {
      var m, es := members[0], LayEntries(members, keys);
      LayEntryShows(m, depth);
      LayEntriesShow(members[1..], keys + {m.key}, depth);
      assert es[1..] == LayEntries(members[1..], keys + {m.key});
      assert J.Member(es[0].key, EntryTree(es[0])) == m;
      assert members == [m] + members[1..];
    }
  }

  lemma {:induction false} LayEntryShows(m: J.Member, depth: nat)
    requires Blockable(m.value) && depth + Levels(m.value) <= MAX_DEPTH
    ensures ValidEntry(LayEntry(m), depth) && EntryTree(LayEntry(m)) == m.value
    decreases m, 2
  {
    if OnOneLine(m.value) {
      LeafShows(m.value);
    } else {
      LayShows(m.value, depth);
    }
  }

  // ---------------------------------------------------------------- no other tree has a layout

  lemma {:induction false} LayoutNeedsLevels(n: Node, depth: nat)
    requires ValidNode(n, depth)
    ensures Blockable(Tree(n)) && depth + Levels(Tree(n)) <= MAX_DEPTH
    decreases n, 0
  {
    match n
    case List(items) => ItemsNeedLevels(items, depth + 1);
    case Dict(entries) => EntriesNeedLevels(entries, {}, depth + 1);
    case _ =>
  }

  lemma {:induction false} ItemsNeedLevels(items: seq<Item>, depth: nat)
    requires ValidItems(items, depth) && depth <= MAX_DEPTH
    ensures ItemsBlockable(ItemTrees(items)) && depth + ItemsLevels(ItemTrees(items)) <= MAX_DEPTH
    decreases items, 1
  {
    hide Blockable, ValidItem, ItemTree, ItemLevels;
    if items != [] {
      ItemNeedsLevels(items[0], depth);
      ItemsNeedLevels(items[1..], depth);
      assert ItemTrees(items)[1..] == ItemTrees(items[1..]);
    }
  }

  lemma {:induction false} ItemNeedsLevels(item: Item, depth: nat)
    requires ValidItem(item, depth) && depth <= MAX_DEPTH
    ensures Blockable(ItemTree(item)) && depth + ItemLevels(ItemTree(item)) <= MAX_DEPTH
    decreases item, 0
  {
    match item
    case LeafItem(leaf) =>
    case NodeItem(_, node) =>
      LayoutNeedsLevels(node, depth);
      ItemNeedsNoMore(Tree(node));
    case DictItem(entries) => EntriesNeedLevels(entries, {}, depth);
  }

  lemma ItemNeedsNoMore(v: J.Json)
    ensures ItemLevels(v) <= Levels(v)
  {
  }

  lemma {:induction false} EntriesNeedLevels(es: seq<Entry>, keys: set<string>, depth: nat)
    requires ValidEntries(es, keys, depth) && depth <= MAX_DEPTH
    ensures MembersBlockable(EntryTrees(es), keys) && depth + MembersLevels(EntryTrees(es)) <= MAX_DEPTH
    decreases es, 1
  {
    hide Blockable, ValidEntry, EntryTree, Levels, ValidKey;
    if es != [] {
      EntryNeedsLevels(es[0], depth);
      EntriesNeedLevels(es[1..], keys + {es[0].key}, depth);
      assert EntryTrees(es)[1..] == EntryTrees(es[1..]);
    }
  }

  lemma {:induction false} EntryNeedsLevels(e: Entry, depth: nat)
    requires ValidEntry(e, depth) && depth <= MAX_DEPTH
    ensures Blockable(EntryTree(e)) && depth + Levels(EntryTree(e)) <= MAX_DEPTH
    decreases e, 0
  {
    match e
    case LeafEntry(_, leaf) =>
    case NodeEntry(_, _, node) => LayoutNeedsLevels(node, depth);
  }

  // ---------------------------------------------------------------- main results

  /** A map or list has a block layout exactly when it is printable and needs at most 32 levels. */
  lemma HasLayout(v: J.Json)
    ensures (exists n :: ValidNode(n, 0) && Tree(n) == v) <==>
            (v.Array? || v.Object?) && Blockable(v) && Levels(v) <= MAX_DEPTH
  {
    hide ValidNode, Tree, Blockable, Levels, Lay;
    if n :| ValidNode(n, 0) && Tree(n) == v {
      LayoutNeedsLevels(n, 0);
      LayoutIsContainer(n);
    }
    if (v.Array? || v.Object?) && Blockable(v) && Levels(v) <= MAX_DEPTH {
      LayShows(v, 0);
    }
  }

  lemma LayoutIsContainer(n: Node)
    ensures Tree(n).Array? || Tree(n).Object?
  {
  }

  /** The text of a tree in blocks. */
  function Print(v: J.Json): string
    requires Blockable(v) && (v.Array? || v.Object?)
  {
    Join(PlainRaws(NodeLines(Lay(v), 0, [])))
  }

  /**
   Printing in blocks and parsing gives the tree back, for every map or list of printable
   values with at most 32 levels whose text is within the size limit.
   */
  lemma PrintedTreeParses(v: J.Json)
    requires (v.Array? || v.Object?) && Blockable(v) && Levels(v) <= MAX_DEPTH
    requires |Utf8.Encode(Print(v))| <= Yaml.MAX_BYTES
    ensures ParseYaml(Print(v)) == Ok(v)
  {
    hide ValidNode, Tree, Blockable, Levels, Lay, NodeLines, PlainRaws, Join, Utf8.Encode, ParseYaml;
    LayShows(v, 0);
    PlainYamlRoundTrip(Lay(v));
  }

  // ---------------------------------------------------------------- nested containers

  /** How many containers that are not empty lie inside one another. */
  function Nesting(v: J.Json): nat
    decreases v, 0
  {
    match v
    case Array(items) => if items == [] then 0 else 1 + ItemsNesting(items)
    case Object(members) => if members == [] then 0 else 1 + MembersNesting(members)
    case _ => 0
  }

  function ItemsNesting(items: seq<J.Json>): nat
    decreases items, 1
  {
    if items == [] then 0 else Larger(Nesting(items[0]), ItemsNesting(items[1..]))
  }

  function MembersNesting(members: seq<J.Member>): nat
    decreases members, 1
  {
    if members == [] then 0 else Larger(Nesting(members[0].value), MembersNesting(members[1..]))
  }

  /** A tree never needs more levels than it has containers inside one another. */
  lemma {:induction false} LevelsWithinNesting(v: J.Json)
    ensures Levels(v) <= Nesting(v) && ItemLevels(v) <= Nesting(v)
    decreases v, 0
  {
    match v
    case Array(items) => ItemsWithinNesting(items);
    case Object(members) => MembersWithinNesting(members);
    case _ =>
  }

  lemma {:induction false} ItemsWithinNesting(items: seq<J.Json>)
    ensures ItemsLevels(items) <= ItemsNesting(items)
    decreases items, 1
  {
    hide ItemLevels, Nesting;
    if items != [] {
      LevelsWithinNesting(items[0]);
      ItemsWithinNesting(items[1..]);
    }
  }

  lemma {:induction false} MembersWithinNesting(members: seq<J.Member>)
    ensures MembersLevels(members) <= MembersNesting(members)
    decreases members, 1
  {
    hide Levels, Nesting;
    if members != [] {
      LevelsWithinNesting(members[0].value);
      MembersWithinNesting(members[1..]);
    }
  }

  /** In particular every printable tree of at most 32 nested containers comes back from its text. */
  lemma NestedTreeParses(v: J.Json)
    requires (v.Array? || v.Object?) && Blockable(v) && Nesting(v) <= MAX_DEPTH
    requires |Utf8.Encode(Print(v))| <= Yaml.MAX_BYTES
    ensures ParseYaml(Print(v)) == Ok(v)
  {
    hide Blockable, Levels, Nesting, Print, Utf8.Encode, ParseYaml;
    LevelsWithinNesting(v);
    PrintedTreeParses(v);
  }
}
