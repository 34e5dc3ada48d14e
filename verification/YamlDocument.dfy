/** Whole YAML documents around a layout of lines. */
module YamlDocument {
  /*
   Whole YAML documents: lines, comments and blank lines around a layout, and the round trip.
   A raw line shows a line of the layout when it is its column, its content, then spaces and
   perhaps a comment; a line of spaces with perhaps a comment is noise. A list of raw lines
   spells a layout when it shows its lines in order with noise between them. Collecting the raw
   lines of a document gives back the lines they spell, and no line of a layout can be taken for
   a document marker.
   */
  import opened Wrappers
  import opened YamlText
  import opened Yaml
  import JsonText
  import Utf8

  // ---------------------------------------------------------------- raw lines

  /** A raw line that holds nothing: spaces, then perhaps a comment. */
  ghost predicate IsNoise(raw: string) {
    exists spaces: string, comment: Option<string> ::
      Spaces(spaces) && raw == spaces + if comment.Some? then ['#'] + comment.value else []
  }

  function Column(n: nat): (s: string)
    ensures |s| == n && Spaces(s)
  {
    seq(n, _ => ' ')
  }

  /** A raw line that shows `line`: its column, its content, then spaces and perhaps a comment. */
  ghost predicate Shows(raw: string, line: Line) {
    exists c: Content, t: Trailer ::
      && ValidContent(c) && ValidTrailer(t) && line.text == ContentText(c)
      && raw == Column(line.indent) + (line.text + TrailerText(t))
  }

  /** The raw lines show these lines in order, with noise between them. */
  ghost predicate Spells(raws: seq<string>, lines: seq<Line>)
    decreases |raws|
  {
    if raws == [] then lines == []
    else
      || (IsNoise(raws[0]) && Spells(raws[1..], lines))
      || (lines != [] && Shows(raws[0], lines[0]) && Spells(raws[1..], lines[1..]))
  }

  /** A raw line that stays one line: no newline, tab or null byte, no carriage return at its end. */
  predicate RawLine(raw: string) {
    OneLine(raw) && (raw == [] || raw[|raw| - 1] != '\r')
  }

  predicate RawLines(raws: seq<string>) {
    forall raw <- raws :: RawLine(raw)
  }

  /** The document of the raw lines, each ended by a newline. */
  function Join(raws: seq<string>): string {
    if raws == [] then [] else raws[0] + (['\n'] + Join(raws[1..]))
  }

  lemma {:induction false} IndentOf(n: nat, s: string)
    requires s == [] || s[0] != ' '
    ensures Indent(Column(n) + s) == n
  {
    var all := Column(n) + s;
    if n == 0 {
      assert all == s;
    } else {
      assert all[1..] == Column(n - 1) + s;
      IndentOf(n - 1, s);
    }
  }

  lemma {:induction false} IndentOfSpaces(spaces: string, s: string)
    requires Spaces(spaces) && (s == [] || s[0] != ' ')
    ensures Indent(spaces + s) == |spaces|
  {
    assert spaces == Column(|spaces|);
    IndentOf(|spaces|, s);
  }

  lemma NoiseReads(raw: string)
    requires IsNoise(raw)
    ensures ReadLine(raw) == Ok(None)
  {
    var spaces: string, comment: Option<string> :|
      Spaces(spaces) && raw == spaces + if comment.Some? then ['#'] + comment.value else [];
    var s := if comment.Some? then ['#'] + comment.value else [];
    IndentOfSpaces(spaces, s);
    assert raw[|spaces|..] == s;
  }

  lemma ShownReads(raw: string, line: Line)
    requires Shows(raw, line) && line.text != "---" && line.text != "..."
    ensures ReadLine(raw) == Ok(Some(line))
  {
    hide StripComment, ContentText, TrailerText, ValidContent, ValidTrailer;
    var c: Content, t: Trailer :|
      && ValidContent(c) && ValidTrailer(t) && line.text == ContentText(c)
      && raw == Column(line.indent) + (line.text + TrailerText(t));
    ContentKept(c, t);
    var body := line.text + TrailerText(t);
    IndentOf(line.indent, body);
    assert raw[line.indent..] == body;
  }

  /** No line of a layout looks like a document marker. */
  predicate NoMarkers(lines: seq<Line>) {
    forall l <- lines :: l.text != "---" && l.text != "..."
  }

  lemma {:induction false} SpelledReads(raws: seq<string>, lines: seq<Line>)
    requires Spells(raws, lines) && NoMarkers(lines)
    ensures ReadLines(raws) == Ok(lines)
    decreases |raws|
  {
    hide ReadLine, IsNoise, Shows;
    if raws != [] {
      if IsNoise(raws[0]) && Spells(raws[1..], lines) {
        NoiseReads(raws[0]);
        SpelledReads(raws[1..], lines);
        assert [] + lines == lines;
      } else {
        assert lines[0] in lines && forall l <- lines[1..] :: l in lines;
        ShownReads(raws[0], lines[0]);
        SpelledReads(raws[1..], lines[1..]);
        assert lines == [lines[0]] + lines[1..];
      }
    }
  }

  lemma {:induction false} LineEndOf(raw: string, rest: string)
    requires '\n' !in raw
    ensures LineEnd(raw + (['\n'] + rest)) == |raw|
  {
    var s := raw + (['\n'] + rest);
    if raw == [] {
      assert s == ['\n'] + rest;
    } else {
      assert s[0] == raw[0] && raw[0] in raw;
      assert s[1..] == raw[1..] + (['\n'] + rest);
      LineEndOf(raw[1..], rest);
    }
  }

  lemma SplitFirst(raw: string, rest: string)
    requires RawLine(raw)
    ensures SplitLines(raw + (['\n'] + rest)) == [raw] + SplitLines(rest)
  {
    hide LineEnd;
    LineEndOf(raw, rest);
    var s := raw + (['\n'] + rest);
    assert s[..|raw|] == raw && s[|raw| + 1..] == rest;
  }

  lemma {:induction false} SplitJoined(raws: seq<string>)
    requires RawLines(raws)
    ensures SplitLines(Join(raws)) == raws
  {
    hide SplitLines, RawLine;
    if raws == [] {
      assert SplitLines([]) == [] by {
        NothingSplits();
      }
    } else {
      assert raws[0] in raws && forall r <- raws[1..] :: r in raws;
      SplitJoined(raws[1..]);
      SplitFirst(raws[0], Join(raws[1..]));
      assert raws == [raws[0]] + raws[1..];
    }
  }

  lemma NothingSplits()
    ensures SplitLines([]) == []
  {
  }

  lemma {:induction false} JoinedIsClean(raws: seq<string>)
    requires RawLines(raws)
    ensures '\t' !in Join(raws) && 0 as char !in Join(raws)
  {
    if raws != [] {
      assert raws[0] in raws && forall r <- raws[1..] :: r in raws;
      JoinedIsClean(raws[1..]);
    }
  }

  // ---------------------------------------------------------------- layouts have no markers

  lemma {:induction false} NodeHasNoMarkers(n: Node, indent: nat, rest: seq<Line>, depth: nat)
    requires ValidNode(n, depth) && NoMarkers(rest)
    ensures NoMarkers(NodeLines(n, indent, rest))
    decreases n, 2
  {
    hide ItemsLines, EntriesLines, ValidItems, ValidEntries, ItemText, EntryText;
    match n
    case List(items) => ItemsHaveNoMarkers(items, indent, rest, depth + 1);
    case Dict(entries) => EntriesHaveNoMarkers(entries, indent, rest, {}, depth + 1);
    case _ =>
      assert forall l <- NodeLines(n, indent, rest) :: l == NodeLines(n, indent, rest)[0] || l in rest;
  }

  lemma MarkerStart(text: string)
    requires text == "---" || text == "..."
    ensures !("- " <= text) && text != "-" && !KeyStart(text[0])
  {
    assert "- "[1] == ' ' && text[1] != ' ';
  }

  lemma {:induction false} ItemsHaveNoMarkers(items: seq<Item>, indent: nat, rest: seq<Line>, depth: nat)
    requires ValidItems(items, depth) && NoMarkers(rest)
    ensures NoMarkers(ItemsLines(items, indent, rest))
    decreases items, 1
  {
    hide ValidItem, ItemText, ItemBody;
    if items != [] {
      var more := ItemsLines(items[1..], indent, rest);
      ItemsHaveNoMarkers(items[1..], indent, rest, depth);
      ItemHasNoMarkers(items[0], indent, more, depth);
      ItemStarts(items[0]);
      FirstNoMarker(Line(indent, ItemText(items[0])), ItemBody(items[0], indent, more));
    }
  }

  lemma FirstNoMarker(line: Line, rest: seq<Line>)
    requires NoMarkers(rest) && line.text != [] && (Dashed(line.text) || KeyStart(line.text[0]))
    ensures NoMarkers([line] + rest)
  {
    if line.text == "---" || line.text == "..." {
      MarkerStart(line.text);
    }
  }

  lemma {:induction false} ItemHasNoMarkers(item: Item, indent: nat, rest: seq<Line>, depth: nat)
    requires ValidItem(item, depth) && NoMarkers(rest)
    ensures NoMarkers(ItemBody(item, indent, rest))
    decreases item, 0
  {
    hide ValidEntries, ValidNode, EntriesLines, NodeLines, EntryBody;
    match item
    case NodeItem(step, node) => NodeHasNoMarkers(node, indent + step, rest, depth);
    case DictItem(es) => EntryBodyHasNoMarkers(es, indent + 2, rest, {}, depth);
    case _ =>
  }

  lemma {:induction false} EntriesHaveNoMarkers(es: seq<Entry>, indent: nat, rest: seq<Line>, keys: set<string>,
                                                depth: nat)
    requires ValidEntries(es, keys, depth) && NoMarkers(rest)
    ensures NoMarkers(EntriesLines(es, indent, rest))
    decreases es, 2
  {
    hide ValidEntry, EntryText, EntryBody, MatchKey;
    if es != [] {
      EntryBodyHasNoMarkers(es, indent, rest, keys, depth);
      EntrySeen(es[0], depth);
      FirstNoMarker(Line(indent, EntryText(es[0])), EntryBody(es[0], indent, EntriesLines(es[1..], indent, rest)));
    }
  }

  lemma {:induction false} EntryBodyHasNoMarkers(es: seq<Entry>, indent: nat, rest: seq<Line>, keys: set<string>,
                                                 depth: nat)
    requires es != [] && ValidEntries(es, keys, depth) && NoMarkers(rest)
    ensures NoMarkers(EntryBody(es[0], indent, EntriesLines(es[1..], indent, rest)))
    decreases es, 1
  {
    hide EntriesLines, NodeLines;
    EntriesHaveNoMarkers(es[1..], indent, rest, keys + {es[0].key}, depth);
    match es[0]
    case NodeEntry(_, step, node) =>
      NodeHasNoMarkers(node, indent + step, EntriesLines(es[1..], indent, rest), depth);
    case LeafEntry(_, _) =>
  }

  // ---------------------------------------------------------------- main result

  /**
   Every block layout of a tree, at any column, with any comments, blank lines and trailing
   spaces, parses back to the tree.
   */
  lemma YamlRoundTrip(n: Node, indent: nat, raws: seq<string>)
    requires ValidNode(n, 0) && RawLines(raws) && Spells(raws, NodeLines(n, indent, []))
    requires |Utf8.Encode(Join(raws))| <= Yaml.MAX_BYTES
    ensures ParseYaml(Join(raws)) == Ok(Tree(n))
  {
    hide ParseNode, ValidNode, NodeLines, Tree, Spells, Utf8.Encode, ReadLines, SplitLines, Join, RawLines;
    var lines := NodeLines(n, indent, []);
    NodeHasNoMarkers(n, indent, [], 0);
    SpelledReads(raws, lines);
    SplitJoined(raws);
    JoinedIsClean(raws);
    NodeFirst(n, indent, [], 0);
    NodeReads(n, indent, [], 0);
  }

  /** Every line of a layout can be shown, so every layout has a document. */
  lemma {:induction false} NodeIsShown(n: Node, indent: nat, rest: seq<Line>, depth: nat)
    requires ValidNode(n, depth) && AllShown(rest)
    ensures AllShown(NodeLines(n, indent, rest))
    decreases n, 2
  {
    hide ItemsLines, EntriesLines, ValidItems, ValidEntries, ContentText, ValidContent;
    match n
    case List(items) => ItemsAreShown(items, indent, rest, depth + 1);
    case Dict(entries) => EntriesAreShown(entries, indent, rest, {}, depth + 1);
    case EmptyList =>
      LeafShown([], NoItems);
      assert AllShown([Line(indent, "[]")] + rest);
    case EmptyDict =>
      LeafShown([], NoEntries);
      assert AllShown([Line(indent, "{}")] + rest);
  }

  /** The text is a start without quotes, then perhaps a leaf. */
  ghost predicate Printable(text: string) {
    exists c: Content :: ValidContent(c) && text == ContentText(c)
  }

  ghost predicate AllShown(lines: seq<Line>) {
    forall l <- lines :: Printable(l.text)
  }

  lemma LeafShown(start: string, leaf: Leaf)
    requires Bare(start) && OneLine(start) && ValidLeaf(leaf) && (start != [] ==> start[0] != ' ')
    ensures Printable(start + LeafText(leaf))
  {
    var c := Content(start, Some(leaf));
    assert ValidContent(c) && start + LeafText(leaf) == ContentText(c);
  }

  lemma StartShown(start: string)
    requires Bare(start) && OneLine(start) && start != [] && start[0] != ' '
    requires start[|start| - 1] != ' ' && start[|start| - 1] != '\r'
    ensures Printable(start)
  {
    var c := Content(start, None);
    assert start + [] == start;
    assert ValidContent(c) && start == ContentText(c);
  }

  lemma EntryShown(prefix: string, e: Entry, depth: nat)
    requires ValidKey(e.key) && ValidEntry(e, depth) && (prefix == "" || prefix == "- ")
    ensures Printable(prefix + EntryText(e))
  {
    hide ValidNode, LeafText, Printable;
    assert forall i :: 0 <= i < |e.key| ==> KeyChar(e.key[i]);
    if e.LeafEntry? {
      LeafShown(prefix + (e.key + [':', ' ']), e.leaf);
      assert prefix + EntryText(e) == prefix + (e.key + [':', ' ']) + LeafText(e.leaf);
    } else {
      StartShown(prefix + (e.key + [':']));
    }
  }

  lemma {:induction false} ItemsAreShown(items: seq<Item>, indent: nat, rest: seq<Line>, depth: nat)
    requires ValidItems(items, depth) && AllShown(rest)
    ensures AllShown(ItemsLines(items, indent, rest))
    decreases items, 1
  {
    hide ItemText, ItemBody, Printable, ValidItem;
    if items != [] {
      var more := ItemsLines(items[1..], indent, rest);
      ItemsAreShown(items[1..], indent, rest, depth);
      ItemIsShown(items[0], indent, more, depth);
    }
  }

  lemma {:induction false} ItemIsShown(item: Item, indent: nat, rest: seq<Line>, depth: nat)
    requires ValidItem(item, depth) && AllShown(rest)
    ensures Printable(ItemText(item)) && AllShown(ItemBody(item, indent, rest))
    decreases item, 0
  {
    hide Printable, LeafText, EntryText, EntryBody, EntriesLines, NodeLines, ValidNode, ValidEntry;
    match item
    case LeafItem(leaf) => LeafShown("- ", leaf);
    case NodeItem(step, node) =>
      StartShown("-");
      NodeIsShown(node, indent + step, rest, depth);
    case DictItem(es) =>
      EntryShown("- ", es[0], depth);
      EntryBodyIsShown(es, indent + 2, rest, {}, depth);
  }

  lemma {:induction false} EntriesAreShown(es: seq<Entry>, indent: nat, rest: seq<Line>, keys: set<string>, depth: nat)
    requires ValidEntries(es, keys, depth) && AllShown(rest)
    ensures AllShown(EntriesLines(es, indent, rest))
    decreases es, 2
  {
    hide Printable, EntryText, EntryBody, ValidEntry;
    if es != [] {
      EntryBodyIsShown(es, indent, rest, keys, depth);
      EntryShown("", es[0], depth);
      assert "" + EntryText(es[0]) == EntryText(es[0]);
    }
  }

  lemma {:induction false} EntryBodyIsShown(es: seq<Entry>, indent: nat, rest: seq<Line>, keys: set<string>, depth: nat)
    requires es != [] && ValidEntries(es, keys, depth) && AllShown(rest)
    ensures AllShown(EntryBody(es[0], indent, EntriesLines(es[1..], indent, rest)))
    decreases es, 1
  {
    hide Printable, EntriesLines, NodeLines;
    EntriesAreShown(es[1..], indent, rest, keys + {es[0].key}, depth);
    match es[0]
    case NodeEntry(_, step, node) =>
      NodeIsShown(node, indent + step, EntriesLines(es[1..], indent, rest), depth);
    case LeafEntry(_, _) =>
  }

  /** The plain document of the lines, without noise. */
  function PlainRaws(lines: seq<Line>): seq<string> {
    if lines == [] then [] else [Column(lines[0].indent) + lines[0].text] + PlainRaws(lines[1..])
  }

  lemma PrintableShows(line: Line)
    requires Printable(line.text)
    ensures Shows(Column(line.indent) + line.text, line) && RawLine(Column(line.indent) + line.text)
  {
    var c: Content :| ValidContent(c) && line.text == ContentText(c);
    var t := Trailer([], None);
    assert TrailerText(t) == [] && line.text + [] == line.text;
    assert ValidTrailer(t);
    assert Column(line.indent) + line.text == Column(line.indent) + (line.text + TrailerText(t));
    ContentIsOneLine(c);
  }

  lemma {:induction false} DoubledOneLine(s: string)
    requires OneLine(s)
    ensures OneLine(Doubled(s))
  {
    if s != [] {
      assert s[0] in s && forall c :: c in s[1..] ==> c in s;
      DoubledOneLine(s[1..]);
    }
  }

  lemma LeafIsOneLine(leaf: Leaf)
    requires ValidLeaf(leaf)
    ensures OneLine(LeafText(leaf)) && LeafText(leaf)[|LeafText(leaf)| - 1] != '\r'
  {
    match leaf
    case Quoted(text) => DoubledOneLine(text);
    case Number(n) =>
      assert forall c :: c in LeafText(leaf) ==> JsonText.IsDigit(c);
    case _ =>
  }

  lemma ContentIsOneLine(c: Content)
    requires ValidContent(c)
    ensures OneLine(ContentText(c))
    ensures ContentText(c) != [] && ContentText(c)[|ContentText(c)| - 1] != '\r'
  {
    hide LeafText;
    if c.leaf.Some? {
      LeafIsOneLine(c.leaf.value);
      LeafFacts(c.leaf.value);
    }
  }

  lemma {:induction false} PlainSpells(lines: seq<Line>)
    requires AllShown(lines)
    ensures RawLines(PlainRaws(lines)) && Spells(PlainRaws(lines), lines)
  {
    hide Shows, RawLine, Printable, IsNoise;
    if lines != [] {
      assert lines[0] in lines && forall l <- lines[1..] :: l in lines;
      PrintableShows(lines[0]);
      PlainSpells(lines[1..]);
      var raws := PlainRaws(lines);
      assert raws[1..] == PlainRaws(lines[1..]);
      assert forall raw :: raw in raws <==> raw == raws[0] || raw in raws[1..];
    }
  }

  /** In particular the bare block print of every tree that has one parses back. */
  lemma PlainYamlRoundTrip(n: Node)
    requires ValidNode(n, 0) && |Utf8.Encode(Join(PlainRaws(NodeLines(n, 0, []))))| <= Yaml.MAX_BYTES
    ensures ParseYaml(Join(PlainRaws(NodeLines(n, 0, [])))) == Ok(Tree(n))
  {
    hide ParseYaml, ValidNode, NodeLines, Tree, Spells, Utf8.Encode, Join, RawLines, PlainRaws;
    NodeIsShown(n, 0, [], 0);
    PlainSpells(NodeLines(n, 0, []));
    YamlRoundTrip(n, 0, PlainRaws(NodeLines(n, 0, [])));
  }
}
