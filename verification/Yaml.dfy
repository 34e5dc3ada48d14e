/** The block parser of the YAML subset, over lines. */
module Yaml {
  /*
   The block parser of the YAML subset (`yaml.rs`) over lines, the ways to lay out a tree in
   blocks, and the proof that every layout parses back to its tree. A layout chooses how far each
   block is indented, whether an item sits on the line of its dash or in a block below it, and
   whether a mapping starts beside the dash. Mappings, sequences and the values after a key are
   proved together, by recursion over the layout, with the depth budget of 32 spent on the way
   down.
   */
  import opened Wrappers
  import opened YamlText
  import J = JsonValue
  import Utf8

  const MAX_DEPTH: nat := 32
  const MAX_BYTES: nat := 32 * 1024 * 1024

  type Read<T> = Result<(T, seq<Line>), Error>

  // ---------------------------------------------------------------- the parser

  predicate Dashed(text: string) {
    text == "-" || "- " <= text
  }

  /** `parse_node`, inside `depth` nodes. */
  function ParseNode(ls: seq<Line>, depth: nat): (r: Read<J.Json>)
    ensures r.Ok? ==> |r.value.1| < |ls|
    decreases |ls|, 2
  {
    if depth + 1 > MAX_DEPTH then Err(TooDeep)
    else if ls == [] then Err(UnexpectedEnd)
    else
      var Line(indent, text) := ls[0];
      if text == "[]" then Ok((J.Array([]), ls[1..]))
      else if text == "{}" then Ok((J.Object([]), ls[1..]))
      else if Dashed(text) then
        var (items, rest) :- ParseItems(ls, indent, depth + 1);
        if items == [] then Err(EmptySequence) else Ok((J.Array(items), rest))
      else
        var (members, rest) :- ParseEntries(ls, indent, None, {}, depth + 1);
        if members == [] then Err(EmptyMapping) else Ok((J.Object(members), rest))
  }

  /** The loop of `parse_sequence`. */
  function ParseItems(ls: seq<Line>, indent: nat, depth: nat): (r: Read<seq<J.Json>>)
    ensures r.Ok? ==> |r.value.1| <= |ls| && (r.value.0 != [] ==> |r.value.1| < |ls|)
    decreases |ls|, 1
  {
    if ls == [] || ls[0].indent != indent || !Dashed(ls[0].text) then Ok(([], ls))
    else
      var (item, ls1) :- ParseItem(ls[0].text, ls[1..], indent, depth);
      var (items, rest) :- ParseItems(ls1, indent, depth);
      Ok(([item] + items, rest))
  }

  /** One item: what its first line says, and the lines after it. */
  function ParseItem(text: string, ls: seq<Line>, indent: nat, depth: nat): (r: Read<J.Json>)
    requires Dashed(text)
    ensures r.Ok? ==> |r.value.1| <= |ls|
    decreases |ls|, 5
  {
    if text == "-" then
      if ls == [] || ls[0].indent <= indent then Err(EmptyItem) else ParseNode(ls, depth)
    else
      var rest := text[2..];
      if rest == [] then Err(EmptyItem)
      else if rest == "[]" then Ok((J.Array([]), ls))
      else if rest == "{}" then Ok((J.Object([]), ls))
      else
        var pair :- MatchKey(rest);
        if pair.Some? then
          var (members, left) :- ParseEntries(ls, indent + 2, pair, {}, depth);
          Ok((J.Object(members), left))
        else
          var scalar :- ParseScalar(rest);
          Ok((scalar, ls))
  }

  /** The loop of `parse_mapping`; `pending` is a key that a sequence item has already matched. */
  function ParseEntries(ls: seq<Line>, indent: nat, pending: Option<(string, string)>, keys: set<string>, depth: nat)
    : (r: Read<seq<J.Member>>)
    ensures r.Ok? ==> |r.value.1| <= |ls| && (pending.None? && r.value.0 != [] ==> |r.value.1| < |ls|)
    decreases |ls|, if pending.Some? then 4 else 1
  {
    if pending.Some? then ParseEntry(ls, indent, pending.value, keys, depth)
    else if ls == [] || ls[0].indent != indent then Ok(([], ls))
    else if ls[0].text != [] && ls[0].text[0] == '-' then Err(KeyExpected)
    else
      var pair :- MatchKey(ls[0].text);
      if pair.None? then Err(KeyExpected) else ParseEntry(ls[1..], indent, pair.value, keys, depth)
  }

  /** One entry whose key has been matched, and the entries after it. */
  function ParseEntry(ls: seq<Line>, indent: nat, pair: (string, string), keys: set<string>, depth: nat)
    : (r: Read<seq<J.Member>>)
    ensures r.Ok? ==> |r.value.1| <= |ls|
    decreases |ls|, 3, 1
  {
    if pair.0 in keys then Err(DuplicateKey)
    else
      var (value, ls1) :- ValueAfterKey(ls, indent, pair.1, depth);
      var (members, rest) :- ParseEntries(ls1, indent, None, keys + {pair.0}, depth);
      Ok(([J.Member(pair.0, value)] + members, rest))
  }

  /** `value_after_key`. */
  function ValueAfterKey(ls: seq<Line>, indent: nat, text: string, depth: nat): (r: Read<J.Json>)
    ensures r.Ok? ==> |r.value.1| <= |ls|
    decreases |ls|, 3, 0
  {
    if text == [] then
      if ls == [] || ls[0].indent <= indent then Err(MissingValue) else ParseNode(ls, depth)
    else if text == "[]" then Ok((J.Array([]), ls))
    else if text == "{}" then Ok((J.Object([]), ls))
    else
      var scalar :- ParseScalar(text);
      Ok((scalar, ls))
  }

  /** `parse_yaml_subset`. */
  function ParseYaml(input: string): Result<J.Json, Error> {
    if |Utf8.Encode(input)| > MAX_BYTES then Err(TooLarge)
    else if 0 as char in input then Err(NullByte)
    else
      var lines :- CollectLines(input);
      if lines == [] then Err(EmptyDocument)
      else
        var (value, rest) :- ParseNode(lines, 0);
        if rest != [] then Err(TrailingLines) else Ok(value)
  }

  // ---------------------------------------------------------------- layouts

  /** A block on lines of its own. */
  datatype Node = EmptyList | EmptyDict | List(items: seq<Item>) | Dict(entries: seq<Entry>)

  /** An item: on its own line, in a block below the dash, or a mapping that starts beside it. */
  datatype Item = LeafItem(leaf: Leaf) | NodeItem(step: nat, node: Node) | DictItem(entries: seq<Entry>)

  /** A key with a value beside it or in a block below, `step` columns further in. */
  datatype Entry = LeafEntry(key: string, leaf: Leaf) | NodeEntry(key: string, step: nat, node: Node)

  predicate ValidNode(n: Node, depth: nat)
    decreases n, 0
  {
    && depth < MAX_DEPTH
    && match n
       case List(items) => items != [] && ValidItems(items, depth + 1)
       case Dict(entries) => entries != [] && ValidEntries(entries, {}, depth + 1)
       case _ => true
  }

  predicate ValidItems(items: seq<Item>, depth: nat)
    decreases items, 1
  {
    items != [] ==> ValidItem(items[0], depth) && ValidItems(items[1..], depth)
  }

  predicate ValidItem(item: Item, depth: nat)
    decreases item, 0
  {
    match item
    case LeafItem(leaf) => ValidLeaf(leaf)
    case NodeItem(step, node) => step > 0 && ValidNode(node, depth)
    case DictItem(entries) => entries != [] && ValidEntries(entries, {}, depth)
  }

  predicate ValidEntries(es: seq<Entry>, keys: set<string>, depth: nat)
    decreases es, 1
  {
    es != [] ==>
      && ValidKey(es[0].key) && es[0].key !in keys
      && ValidEntry(es[0], depth)
      && ValidEntries(es[1..], keys + {es[0].key}, depth)
  }

  predicate ValidEntry(e: Entry, depth: nat)
    decreases e, 0
  {
    match e
    case LeafEntry(_, leaf) => ValidLeaf(leaf)
    case NodeEntry(_, step, node) => step > 0 && ValidNode(node, depth)
  }

  /** The tree a layout shows. */
  function Tree(n: Node): J.Json
    decreases n, 0
  {
    match n
    case EmptyList => J.Array([])
    case EmptyDict => J.Object([])
    case List(items) => J.Array(ItemTrees(items))
    case Dict(entries) => J.Object(EntryTrees(entries))
  }

  function ItemTrees(items: seq<Item>): (r: seq<J.Json>)
    ensures |r| == |items|
    decreases items, 1
  {
    if items == [] then [] else [ItemTree(items[0])] + ItemTrees(items[1..])
  }

  function ItemTree(item: Item): J.Json
    decreases item, 0
  {
    match item
    case LeafItem(leaf) => LeafTree(leaf)
    case NodeItem(_, node) => Tree(node)
    case DictItem(entries) => J.Object(EntryTrees(entries))
  }

  function EntryTrees(es: seq<Entry>): (r: seq<J.Member>)
    ensures |r| == |es|
    decreases es, 1
  {
    if es == [] then [] else [J.Member(es[0].key, EntryTree(es[0]))] + EntryTrees(es[1..])
  }

  function EntryTree(e: Entry): J.Json
    decreases e, 0
  {
    match e
    case LeafEntry(_, leaf) => LeafTree(leaf)
    case NodeEntry(_, _, node) => Tree(node)
  }

  /** The lines of a block from column `indent` on, followed by `rest`. */
  function NodeLines(n: Node, indent: nat, rest: seq<Line>): (ls: seq<Line>)
    decreases n, 0
  {
    match n
    case EmptyList => [Line(indent, "[]")] + rest
    case EmptyDict => [Line(indent, "{}")] + rest
    case List(items) => ItemsLines(items, indent, rest)
    case Dict(entries) => EntriesLines(entries, indent, rest)
  }

  function ItemsLines(items: seq<Item>, indent: nat, rest: seq<Line>): seq<Line>
    decreases items, 1
  {
    if items == [] then rest
    else [Line(indent, ItemText(items[0]))] + ItemBody(items[0], indent, ItemsLines(items[1..], indent, rest))
  }

  /** The line that starts an item. */
  function ItemText(item: Item): string {
    match item
    case LeafItem(leaf) => "- " + LeafText(leaf)
    case NodeItem(_, _) => "-"
    case DictItem(entries) => if entries == [] then "-" else "- " + EntryText(entries[0])
  }

  /** The lines below it. */
  function ItemBody(item: Item, indent: nat, rest: seq<Line>): seq<Line>
    decreases item, 0
  {
    match item
    case LeafItem(_) => rest
    case NodeItem(step, node) => NodeLines(node, indent + step, rest)
    case DictItem(entries) =>
      if entries == [] then rest
      else EntryBody(entries[0], indent + 2, EntriesLines(entries[1..], indent + 2, rest))
  }

  function EntryText(e: Entry): string {
    match e
    case LeafEntry(key, leaf) => key + [':', ' '] + LeafText(leaf)
    case NodeEntry(key, _, _) => key + [':']
  }

  function EntryBody(e: Entry, indent: nat, rest: seq<Line>): seq<Line>
    decreases e, 0
  {
    match e
    case LeafEntry(_, _) => rest
    case NodeEntry(_, step, node) => NodeLines(node, indent + step, rest)
  }

  function EntriesLines(es: seq<Entry>, indent: nat, rest: seq<Line>): seq<Line>
    decreases es, 1
  {
    if es == [] then rest
    else [Line(indent, EntryText(es[0]))] + EntryBody(es[0], indent, EntriesLines(es[1..], indent, rest))
  }

  // ---------------------------------------------------------------- layouts parse back

  /** The lines that may follow a block whose column is `indent`. */
  predicate Below(rest: seq<Line>, indent: nat) {
    rest == [] || rest[0].indent < indent
  }

  lemma ItemsFirst(items: seq<Item>, indent: nat, rest: seq<Line>)
    requires Below(rest, indent)
    ensures Below(ItemsLines(items, indent, rest), indent + 1)
    ensures items != [] ==> ItemsLines(items, indent, rest) != [] && ItemsLines(items, indent, rest)[0].indent == indent
  {
    hide ItemText, ItemBody;
  }

  lemma EntriesFirst(es: seq<Entry>, indent: nat, rest: seq<Line>)
    requires Below(rest, indent)
    ensures Below(EntriesLines(es, indent, rest), indent + 1)
    ensures es != [] ==> EntriesLines(es, indent, rest) != [] && EntriesLines(es, indent, rest)[0].indent == indent
  {
    hide EntryText, EntryBody;
  }

  lemma NodeFirst(n: Node, indent: nat, rest: seq<Line>, depth: nat)
    requires ValidNode(n, depth)
    ensures NodeLines(n, indent, rest) != [] && NodeLines(n, indent, rest)[0].indent == indent
  {
    hide ItemText, ItemBody, EntryText, EntryBody, ValidItems, ValidEntries;
  }

  /** How the parser sees the text of a leaf. */
  lemma LeafSeen(leaf: Leaf)
    requires ValidLeaf(leaf)
    ensures var t := LeafText(leaf);
            && t != [] && t[0] != ' ' && MatchKey(t) == Ok(None)
            && (t == "[]" <==> leaf.NoItems?) && (t == "{}" <==> leaf.NoEntries?)
            && (!leaf.NoItems? && !leaf.NoEntries? ==> ParseScalar(t) == Ok(LeafTree(leaf)))
  {
    hide ParseScalar, MatchKey;
    LeafIsNoKey(leaf);
    if !leaf.NoItems? && !leaf.NoEntries? {
      LeafParses(leaf);
      LeafStart(leaf);
    }
  }

  lemma LeafStart(leaf: Leaf)
    requires !leaf.NoItems? && !leaf.NoEntries?
    ensures LeafText(leaf)[0] != '[' && LeafText(leaf)[0] != '{'
  {
    if leaf.Number? {
      assert LeafText(leaf)[0] == '0' || '0' <= LeafText(leaf)[0] <= '9';
    }
  }

  /** How the parser sees the text of an entry. */
  lemma EntrySeen(e: Entry, depth: nat)
    requires ValidKey(e.key) && ValidEntry(e, depth)
    ensures var t := EntryText(e);
            && t != [] && KeyStart(t[0])
            && MatchKey(t) == Ok(Some((e.key, if e.LeafEntry? then LeafText(e.leaf) else [])))
  {
    hide MatchKey, ValidNode, LeafText;
    if e.LeafEntry? {
      LeafFacts(e.leaf);
      KeyMatches(e.key, LeafText(e.leaf));
    } else {
      KeyMatches(e.key, []);
    }
  }

  lemma {:induction false} NodeReads(n: Node, indent: nat, rest: seq<Line>, depth: nat)
    requires ValidNode(n, depth) && Below(rest, indent)
    ensures ParseNode(NodeLines(n, indent, rest), depth) == Ok((Tree(n), rest))
    decreases n, 2
  {
    hide ParseItems, ParseEntries, ItemTrees, EntryTrees, ItemsLines, EntriesLines, ValidItems, ValidEntries;
    match n
    case List(items) =>
      FirstItemLine(items, indent, rest, depth + 1);
      ItemsRead(items, indent, rest, depth + 1);
    case Dict(entries) =>
      FirstEntryLine(entries, indent, rest, depth + 1);
      EntriesRead(entries, indent, rest, {}, depth + 1);
    case _ =>
      assert NodeLines(n, indent, rest)[1..] == rest;
  }

  lemma FirstItemLine(items: seq<Item>, indent: nat, rest: seq<Line>, depth: nat)
    requires items != [] && ValidItems(items, depth)
    ensures var ls := ItemsLines(items, indent, rest);
            ls != [] && ls[0].indent == indent && Dashed(ls[0].text) && ls[0].text != "[]" && ls[0].text != "{}"
  {
    hide ItemBody, EntryText, LeafText;
    ItemStarts(items[0]);
  }

  lemma ItemStarts(item: Item)
    ensures Dashed(ItemText(item)) && ItemText(item)[0] == '-'
  {
    hide EntryText, LeafText;
  }

  lemma FirstEntryLine(es: seq<Entry>, indent: nat, rest: seq<Line>, depth: nat)
    requires es != [] && ValidEntries(es, {}, depth)
    ensures var ls := EntriesLines(es, indent, rest);
            ls != [] && ls[0].indent == indent && !Dashed(ls[0].text) && ls[0].text != "[]" && ls[0].text != "{}"
  {
    hide EntryBody, EntryText, MatchKey;
    EntrySeen(es[0], depth);
  }

  lemma {:induction false} ItemsRead(items: seq<Item>, indent: nat, rest: seq<Line>, depth: nat)
    requires ValidItems(items, depth) && Below(rest, indent)
    ensures ParseItems(ItemsLines(items, indent, rest), indent, depth) == Ok((ItemTrees(items), rest))
    decreases items, 1
  {
    hide ParseItem, ItemText, ItemBody, ItemTree, ValidItem, Dashed;
    if items != [] {
      var more := ItemsLines(items[1..], indent, rest);
      var ls := ItemsLines(items, indent, rest);
      ItemsFirst(items[1..], indent, rest);
      ItemReads(items[0], indent, more, depth);
      ItemsRead(items[1..], indent, rest, depth);
      assert ls[1..] == ItemBody(items[0], indent, more);
    }
  }

  lemma {:induction false} ItemReads(item: Item, indent: nat, rest: seq<Line>, depth: nat)
    requires ValidItem(item, depth) && Below(rest, indent + 1)
    ensures Dashed(ItemText(item))
    ensures ParseItem(ItemText(item), ItemBody(item, indent, rest), indent, depth) == Ok((ItemTree(item), rest))
    decreases item, 0
  {
    hide ParseEntries, ParseNode, MatchKey, ParseScalar, ValidNode, ValidEntries, EntryText, LeafText, NodeLines,
      Tree, EntryTrees;
    ItemStarts(item);
    match item
    case LeafItem(leaf) =>
      LeafSeen(leaf);
      assert ItemText(item)[2..] == LeafText(leaf);
    case NodeItem(step, node) =>
      NodeFirst(node, indent + step, rest, depth);
      NodeReads(node, indent + step, rest, depth);
    case DictItem(es) => DictItemReads(es, indent, rest, depth);
  }

  lemma {:induction false} DictItemReads(es: seq<Entry>, indent: nat, rest: seq<Line>, depth: nat)
    requires es != [] && ValidEntries(es, {}, depth) && Below(rest, indent + 1)
    ensures Dashed(ItemText(DictItem(es)))
    ensures ParseItem(ItemText(DictItem(es)), ItemBody(DictItem(es), indent, rest), indent, depth) ==
            Ok((J.Object(EntryTrees(es)), rest))
    decreases es, 3
  {
    hide ParseEntry, ParseNode, MatchKey, ParseScalar, ValidNode, EntryText, LeafText, NodeLines, EntryTrees,
      EntriesLines, EntryBody,
      ValidEntry;
    EntrySeen(es[0], depth);
    var text := ItemText(DictItem(es));
    assert text[2..] == EntryText(es[0]);
    EntryReads(es, indent + 2, rest, {}, depth);
  }

  lemma {:induction false} EntriesRead(es: seq<Entry>, indent: nat, rest: seq<Line>, keys: set<string>, depth: nat)
    requires ValidEntries(es, keys, depth) && Below(rest, indent)
    ensures ParseEntries(EntriesLines(es, indent, rest), indent, None, keys, depth) == Ok((EntryTrees(es), rest))
    decreases es, 2
  {
    hide ParseEntry, EntryText, EntryBody, EntryTree, ValidEntry, MatchKey;
    if es != [] {
      var ls := EntriesLines(es, indent, rest);
      EntrySeen(es[0], depth);
      EntryReads(es, indent, rest, keys, depth);
      assert ls[1..] == EntryBody(es[0], indent, EntriesLines(es[1..], indent, rest));
    }
  }

  /** The first entry after its key has been matched, with the entries after it. */
  lemma {:induction false} EntryReads(es: seq<Entry>, indent: nat, rest: seq<Line>, keys: set<string>, depth: nat)
    requires es != [] && ValidEntries(es, keys, depth) && Below(rest, indent)
    ensures var e := es[0];
            var value := if e.LeafEntry? then LeafText(e.leaf) else [];
            ParseEntry(EntryBody(e, indent, EntriesLines(es[1..], indent, rest)), indent, (e.key, value), keys, depth)
            == Ok((EntryTrees(es), rest))
    decreases es, 1
  {
    hide ParseEntries, EntryText, EntryBody, EntryTree, ValidEntry, ValueAfterKey, LeafText;
    var more := EntriesLines(es[1..], indent, rest);
    EntriesFirst(es[1..], indent, rest);
    ValueReads(es[0], indent, more, depth);
    EntriesRead(es[1..], indent, rest, keys + {es[0].key}, depth);
  }

  lemma {:induction false} ValueReads(e: Entry, indent: nat, rest: seq<Line>, depth: nat)
    requires ValidEntry(e, depth) && Below(rest, indent + 1)
    ensures ValueAfterKey(EntryBody(e, indent, rest), indent, if e.LeafEntry? then LeafText(e.leaf) else [], depth)
            == Ok((EntryTree(e), rest))
    decreases e, 0
  {
    hide ParseNode, ParseScalar, MatchKey, ValidNode, NodeLines, Tree, LeafText;
    match e
    case LeafEntry(_, leaf) => LeafSeen(leaf);
    case NodeEntry(_, step, node) =>
      NodeFirst(node, indent + step, rest, depth);
      NodeReads(node, indent + step, rest, depth);
  }
}
