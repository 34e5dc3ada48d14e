/** The YAML subset, exactly as it is parsed. */
module YamlGrammar {
  /*
   The grammar of the YAML subset, and the theorem that the parser accepts exactly what the grammar
   writes. A block is made of parts with a dash or of fields with a key; a part or field holds a
   scalar on its line, or a block below it that is indented further.
   */
  import opened Wrappers
  import opened YamlText
  import opened YamlRules
  import J = JsonValue
  import Utf8
  import Yaml

  datatype Block = NoParts | NoFields | Parts(parts: seq<Part>) | Fields(fields: seq<Field>)

  /** What a dash leads: a value on its line, a block below it, or fields that start on its line. */
  datatype Part = Inline(text: string, value: J.Json) | Under(step: nat, block: Block) | Mapping(fields: seq<Field>)

  /** A line with a key, and the value on it or the block below it. */
  datatype Field =
    | Short(line: string, key: string, text: string, value: J.Json)
    | Long(line: string, key: string, step: nat, block: Block)

  ghost predicate Inlined(text: string, v: J.Json) {
    || (text == "[]" && v == J.Array([]))
    || (text == "{}" && v == J.Object([]))
    || IsScalar(text, v)
  }

  ghost predicate ValidBlock(b: Block, depth: nat)
    decreases b, 0
  {
    && depth < 32
    && match b
       case Parts(parts) => parts != [] && ValidParts(parts, depth + 1)
       case Fields(fields) => fields != [] && ValidFields(fields, {}, depth + 1)
       case _ => true
  }

  ghost predicate ValidParts(ps: seq<Part>, depth: nat)
    decreases ps, 1
  {
    ps != [] ==> ValidPart(ps[0], depth) && ValidParts(ps[1..], depth)
  }

  ghost predicate ValidPart(p: Part, depth: nat)
    decreases p, 0
  {
    match p
    case Inline(text, value) => text != "" && !StartsWithKey(text) && Inlined(text, value)
    case Under(step, block) => step > 0 && ValidBlock(block, depth)
    case Mapping(fields) => fields != [] && ValidFields(fields, {}, depth)
  }

  ghost predicate ValidFields(fs: seq<Field>, keys: set<string>, depth: nat)
    decreases fs, 1
  {
    fs != [] ==>
      && fs[0].key !in keys
      && ValidField(fs[0], depth)
      && ValidFields(fs[1..], keys + {fs[0].key}, depth)
  }

  ghost predicate ValidField(f: Field, depth: nat)
    decreases f, 0
  {
    match f
    case Short(line, key, text, value) => text != "" && IsPair(line, key, text) && Inlined(text, value)
    case Long(line, key, step, block) => IsPair(line, key, "") && step > 0 && ValidBlock(block, depth)
  }

  // ---------------------------------------------------------------- the tree and the lines

  function Tree(b: Block): J.Json
    decreases b, 0
  {
    match b
    case NoParts => J.Array([])
    case NoFields => J.Object([])
    case Parts(parts) => J.Array(PartTrees(parts))
    case Fields(fields) => J.Object(FieldTrees(fields))
  }

  function PartTrees(ps: seq<Part>): seq<J.Json>
    decreases ps, 1
  {
    if ps == [] then [] else [PartTree(ps[0])] + PartTrees(ps[1..])
  }

  function PartTree(p: Part): J.Json
    decreases p, 0
  {
    match p
    case Inline(_, value) => value
    case Under(_, block) => Tree(block)
    case Mapping(fields) => J.Object(FieldTrees(fields))
  }

  function FieldTrees(fs: seq<Field>): seq<J.Member>
    decreases fs, 1
  {
    if fs == [] then [] else [J.Member(fs[0].key, FieldTree(fs[0]))] + FieldTrees(fs[1..])
  }

  function FieldTree(f: Field): J.Json
    decreases f, 0
  {
    match f
    case Short(_, _, _, value) => value
    case Long(_, _, _, block) => Tree(block)
  }

  function BlockLines(b: Block, indent: nat, rest: seq<Line>): seq<Line>
    decreases b, 0
  {
    match b
    case NoParts => [Line(indent, "[]")] + rest
    case NoFields => [Line(indent, "{}")] + rest
    case Parts(parts) => PartsLines(parts, indent, rest)
    case Fields(fields) => FieldsLines(fields, indent, rest)
  }

  function PartsLines(ps: seq<Part>, indent: nat, rest: seq<Line>): seq<Line>
    decreases ps, 1
  {
    if ps == [] then rest
    else [Line(indent, PartText(ps[0]))] + PartBody(ps[0], indent, PartsLines(ps[1..], indent, rest))
  }

  function PartText(p: Part): string {
    match p
    case Inline(text, _) => "- " + text
    case Under(_, _) => "-"
    case Mapping(fields) => "- " + if fields == [] then "" else fields[0].line
  }

  function PartBody(p: Part, indent: nat, rest: seq<Line>): seq<Line>
    decreases p, 0
  {
    match p
    case Inline(_, _) => rest
    case Under(step, block) => BlockLines(block, indent + step, rest)
    case Mapping(fields) =>
      if fields == [] then rest else FieldBody(fields[0], indent + 2, FieldsLines(fields[1..], indent + 2, rest))
  }

  function FieldsLines(fs: seq<Field>, indent: nat, rest: seq<Line>): seq<Line>
    decreases fs, 1
  {
    if fs == [] then rest
    else [Line(indent, fs[0].line)] + FieldBody(fs[0], indent, FieldsLines(fs[1..], indent, rest))
  }

  function FieldBody(f: Field, indent: nat, rest: seq<Line>): seq<Line>
    decreases f, 0
  {
    match f
    case Short(_, _, _, _) => rest
    case Long(_, _, step, block) => BlockLines(block, indent + step, rest)
  }

  // ---------------------------------------------------------------- what is written is read

  predicate Below(rest: seq<Line>, indent: nat) {
    rest == [] || rest[0].indent < indent
  }

  lemma PartsFirst(ps: seq<Part>, indent: nat, rest: seq<Line>)
    requires Below(rest, indent)
    ensures Below(PartsLines(ps, indent, rest), indent + 1)
    ensures ps != [] ==> PartsLines(ps, indent, rest) != [] && PartsLines(ps, indent, rest)[0].indent == indent
  {
    hide PartText, PartBody;
  }

  lemma FieldsFirst(fs: seq<Field>, indent: nat, rest: seq<Line>)
    requires Below(rest, indent)
    ensures Below(FieldsLines(fs, indent, rest), indent + 1)
    ensures fs != [] ==> FieldsLines(fs, indent, rest) != [] && FieldsLines(fs, indent, rest)[0].indent == indent
  {
    hide FieldBody;
  }

  lemma BlockFirst(b: Block, indent: nat, rest: seq<Line>, depth: nat)
    requires ValidBlock(b, depth)
    ensures BlockLines(b, indent, rest) != [] && BlockLines(b, indent, rest)[0].indent == indent
  {
    hide PartText, PartBody, FieldBody, ValidParts, ValidFields;
  }

  /** How the parser sees the text of a value on a line. */
  lemma InlineSeen(text: string, v: J.Json)
    ensures Inlined(text, v) <==>
            if text == "[]" then v == J.Array([])
            else if text == "{}" then v == J.Object([])
            else ParseScalar(text) == Ok(v)
  {
    hide ParseScalar, IsScalar;
    ScalarMeaning(text, v);
    BracketsRefused(v);
  }

  lemma BracketsRefused(v: J.Json)
    ensures ParseScalar("[]") != Ok(v) && ParseScalar("{}") != Ok(v)
  {
    assert "[]"[0] == '[' && '[' in "[{&*!|>" && "{}"[0] == '{' && '{' in "[{&*!|>" by {
      assert "[{&*!|>"[0] == '[' && "[{&*!|>"[1] == '{';
    }
  }

  /** How the parser sees a line with a key. */
  lemma FieldSeen(f: Field, depth: nat)
    requires ValidField(f, depth)
    ensures f.line != "" && KeyStart(f.line[0]) && f.line != "[]" && f.line != "{}"
    ensures MatchKey(f.line) == Ok(Some((f.key, if f.Short? then f.text else "")))
  {
    hide ValidBlock, Inlined, MatchKey, IsKey;
    var value := if f.Short? then f.text else "";
    PairMeaning(f.line, f.key, value);
    PairStart(f.line, f.key, value);
  }

  lemma PairStart(line: string, key: string, value: string)
    requires IsPair(line, key, value)
    ensures line != "" && KeyStart(line[0]) && line != "[]" && line != "{}"
  {
    assert line[0] == key[0];
  }

  lemma {:induction false} BlockReads(b: Block, indent: nat, rest: seq<Line>, depth: nat)
    requires ValidBlock(b, depth) && Below(rest, indent)
    ensures Yaml.ParseNode(BlockLines(b, indent, rest), depth) == Ok((Tree(b), rest))
    decreases b, 2
  {
    hide Yaml.ParseItems, Yaml.ParseEntries, PartTrees, FieldTrees, PartsLines, FieldsLines, ValidParts, ValidFields;
    match b
    case Parts(parts) =>
      FirstPartLine(parts, indent, rest);
      PartsRead(parts, indent, rest, depth + 1);
      SomeTrees(parts);
    case Fields(fields) =>
      FirstFieldLine(fields, indent, rest, depth + 1);
      FieldsRead(fields, indent, rest, {}, depth + 1);
      SomeMembers(fields);
    case _ =>
      assert BlockLines(b, indent, rest)[1..] == rest;
  }

  lemma SomeTrees(ps: seq<Part>)
    ensures |PartTrees(ps)| == |ps|
  {
  }

  lemma SomeMembers(fs: seq<Field>)
    ensures |FieldTrees(fs)| == |fs|
  {
  }

  lemma FirstPartLine(ps: seq<Part>, indent: nat, rest: seq<Line>)
    requires ps != []
    ensures var ls := PartsLines(ps, indent, rest);
            ls != [] && ls[0].indent == indent && Yaml.Dashed(ls[0].text) && ls[0].text != "[]" && ls[0].text != "{}"
  {
    hide PartBody;
    PartStarts(ps[0]);
  }

  lemma PartStarts(p: Part)
    ensures Yaml.Dashed(PartText(p)) && PartText(p)[0] == '-'
  {
  }

  lemma FirstFieldLine(fs: seq<Field>, indent: nat, rest: seq<Line>, depth: nat)
    requires fs != [] && ValidFields(fs, {}, depth)
    ensures var ls := FieldsLines(fs, indent, rest);
            ls != [] && ls[0].indent == indent && !Yaml.Dashed(ls[0].text) && ls[0].text != "[]" && ls[0].text != "{}"
  {
    hide FieldBody, MatchKey, ValidField;
    FieldSeen(fs[0], depth);
  }

  lemma {:induction false} PartsRead(ps: seq<Part>, indent: nat, rest: seq<Line>, depth: nat)
    requires ValidParts(ps, depth) && Below(rest, indent)
    ensures Yaml.ParseItems(PartsLines(ps, indent, rest), indent, depth) == Ok((PartTrees(ps), rest))
    decreases ps, 1
  {
    hide Yaml.ParseItem, PartText, PartBody, PartTree, ValidPart, Yaml.Dashed;
    if ps != [] {
      var more := PartsLines(ps[1..], indent, rest);
      var ls := PartsLines(ps, indent, rest);
      PartsFirst(ps[1..], indent, rest);
      PartReads(ps[0], indent, more, depth);
      PartsRead(ps[1..], indent, rest, depth);
      assert ls[1..] == PartBody(ps[0], indent, more);
    }
  }

  lemma {:induction false} PartReads(p: Part, indent: nat, rest: seq<Line>, depth: nat)
    requires ValidPart(p, depth) && Below(rest, indent + 1)
    ensures Yaml.Dashed(PartText(p))
    ensures Yaml.ParseItem(PartText(p), PartBody(p, indent, rest), indent, depth) == Ok((PartTree(p), rest))
    decreases p, 0
  {
    hide Yaml.ParseEntries, Yaml.ParseNode, MatchKey, ParseScalar, ValidBlock, ValidFields, BlockLines, Tree,
      FieldTrees, Inlined, StartsWithKey;
    PartStarts(p);
    match p
    case Inline(text, value) =>
      NoPairMeaning(text);
      InlineSeen(text, value);
      assert PartText(p)[2..] == text;
    case Under(step, block) =>
      BlockFirst(block, indent + step, rest, depth);
      BlockReads(block, indent + step, rest, depth);
    case Mapping(fs) => MappingReads(fs, indent, rest, depth);
  }

  lemma {:induction false} MappingReads(fs: seq<Field>, indent: nat, rest: seq<Line>, depth: nat)
    requires fs != [] && ValidFields(fs, {}, depth) && Below(rest, indent + 1)
    ensures Yaml.Dashed(PartText(Mapping(fs)))
    ensures Yaml.ParseItem(PartText(Mapping(fs)), PartBody(Mapping(fs), indent, rest), indent, depth) ==
            Ok((J.Object(FieldTrees(fs)), rest))
    decreases fs, 3
  {
    hide Yaml.ParseEntry, Yaml.ParseNode, MatchKey, ParseScalar, BlockLines, FieldTrees, FieldsLines, FieldBody,
      ValidField;
    FieldSeen(fs[0], depth);
    var text := PartText(Mapping(fs));
    assert text[2..] == fs[0].line;
    FieldReads(fs, indent + 2, rest, {}, depth);
  }

  lemma {:induction false} FieldsRead(fs: seq<Field>, indent: nat, rest: seq<Line>, keys: set<string>, depth: nat)
    requires ValidFields(fs, keys, depth) && Below(rest, indent)
    ensures Yaml.ParseEntries(FieldsLines(fs, indent, rest), indent, None, keys, depth) == Ok((FieldTrees(fs), rest))
    decreases fs, 2
  {
    hide Yaml.ParseEntry, FieldBody, FieldTree, ValidField, MatchKey;
    if fs != [] {
      var ls := FieldsLines(fs, indent, rest);
      FieldSeen(fs[0], depth);
      FieldReads(fs, indent, rest, keys, depth);
      assert ls[1..] == FieldBody(fs[0], indent, FieldsLines(fs[1..], indent, rest));
    }
  }

  /** The first field after its key has been matched, with the fields after it. */
  lemma {:induction false} FieldReads(fs: seq<Field>, indent: nat, rest: seq<Line>, keys: set<string>, depth: nat)
    requires fs != [] && ValidFields(fs, keys, depth) && Below(rest, indent)
    ensures var f := fs[0];
            Yaml.ParseEntry(FieldBody(f, indent, FieldsLines(fs[1..], indent, rest)), indent,
                            (f.key, if f.Short? then f.text else ""), keys, depth) == Ok((FieldTrees(fs), rest))
    decreases fs, 1
  {
    hide Yaml.ParseEntries, FieldBody, FieldTree, ValidField, Yaml.ValueAfterKey;
    var more := FieldsLines(fs[1..], indent, rest);
    FieldsFirst(fs[1..], indent, rest);
    ValueReads(fs[0], indent, more, depth);
    FieldsRead(fs[1..], indent, rest, keys + {fs[0].key}, depth);
  }

  lemma {:induction false} ValueReads(f: Field, indent: nat, rest: seq<Line>, depth: nat)
    requires ValidField(f, depth) && Below(rest, indent + 1)
    ensures Yaml.ValueAfterKey(FieldBody(f, indent, rest), indent, if f.Short? then f.text else "", depth)
            == Ok((FieldTree(f), rest))
    decreases f, 0
  {
    hide Yaml.ParseNode, ParseScalar, MatchKey, ValidBlock, BlockLines, Tree, Inlined, IsPair;
    match f
    case Short(_, _, text, value) => InlineSeen(text, value);
    case Long(_, _, step, block) =>
      BlockFirst(block, indent + step, rest, depth);
      BlockReads(block, indent + step, rest, depth);
  }

  // ---------------------------------------------------------------- what is read is written

  /** The block that a successful parse has read. */
  lemma {:induction false} BlockOf(ls: seq<Line>, depth: nat) returns (b: Block)
    requires Yaml.ParseNode(ls, depth).Ok?
    ensures var (v, rest) := Yaml.ParseNode(ls, depth).value;
            && ls != [] && ValidBlock(b, depth) && Tree(b) == v
            && ls == BlockLines(b, ls[0].indent, rest)
    decreases |ls|, 2
  {
    hide Yaml.ParseItems, Yaml.ParseEntries, PartTrees, FieldTrees, PartsLines, FieldsLines, ValidParts, ValidFields;
    var Line(indent, text) := ls[0];
    assert ls == [ls[0]] + ls[1..];
    if text == "[]" {
      b := NoParts;
    } else if text == "{}" {
      b := NoFields;
    } else if Yaml.Dashed(text) {
      var parts := PartsOf(ls, indent, depth + 1);
      SomeTrees(parts);
      b := Parts(parts);
    } else {
      var fields := FieldsOf(ls, indent, {}, depth + 1);
      SomeMembers(fields);
      b := Fields(fields);
    }
  }

  lemma {:induction false} PartsOf(ls: seq<Line>, indent: nat, depth: nat) returns (ps: seq<Part>)
    requires Yaml.ParseItems(ls, indent, depth).Ok?
    ensures var (vs, rest) := Yaml.ParseItems(ls, indent, depth).value;
            ValidParts(ps, depth) && PartTrees(ps) == vs && ls == PartsLines(ps, indent, rest)
    decreases |ls|, 1
  {
    hide Yaml.ParseItem, PartText, PartBody, PartTree, ValidPart, Yaml.Dashed;
    if ls == [] || ls[0].indent != indent || !Yaml.Dashed(ls[0].text) {
      ps := [];
    } else {
      var p := PartOf(ls[0].text, ls[1..], indent, depth);
      var ls1 := Yaml.ParseItem(ls[0].text, ls[1..], indent, depth).value.1;
      var more := PartsOf(ls1, indent, depth);
      ps := [p] + more;
      assert ps[1..] == more;
      assert ls == [Line(indent, ls[0].text)] + ls[1..];
    }
  }

  lemma {:induction false} PartOf(text: string, ls: seq<Line>, indent: nat, depth: nat) returns (p: Part)
    requires Yaml.Dashed(text) && Yaml.ParseItem(text, ls, indent, depth).Ok?
    ensures var (v, rest) := Yaml.ParseItem(text, ls, indent, depth).value;
            ValidPart(p, depth) && PartTree(p) == v && PartText(p) == text && ls == PartBody(p, indent, rest)
    decreases |ls|, 5
  {
    hide Yaml.ParseEntries, Yaml.ParseNode, MatchKey, ParseScalar, ValidBlock, ValidFields, BlockLines, Tree,
      FieldTrees, Inlined, StartsWithKey, FieldsLines, FieldBody;
    var (v, rest) := Yaml.ParseItem(text, ls, indent, depth).value;
    if text == "-" {
      var block := BlockOf(ls, depth);
      p := Under(ls[0].indent - indent, block);
    } else {
      var line := text[2..];
      assert text == "- " + line;
      if line == "[]" || line == "{}" {
        InlineSeen(line, v);
        BracketsNoKey();
        p := Inline(line, v);
      } else if MatchKey(line).value.Some? {
        var fs := MappingOf(line, ls, indent, depth);
        p := Mapping(fs);
      } else {
        InlineSeen(line, v);
        NoPairMeaning(line);
        p := Inline(line, v);
      }
    }
  }

  lemma BracketsNoKey()
    ensures !StartsWithKey("[]") && !StartsWithKey("{}")
  {
    NoPairMeaning("[]");
    NoPairMeaning("{}");
  }

  lemma {:induction false} MappingOf(line: string, ls: seq<Line>, indent: nat, depth: nat) returns (fs: seq<Field>)
    requires MatchKey(line).Ok? && MatchKey(line).value.Some?
    requires Yaml.ParseEntries(ls, indent + 2, MatchKey(line).value, {}, depth).Ok?
    ensures var (ms, rest) := Yaml.ParseEntries(ls, indent + 2, MatchKey(line).value, {}, depth).value;
            && fs != [] && fs[0].line == line && ValidFields(fs, {}, depth) && FieldTrees(fs) == ms
            && ls == FieldBody(fs[0], indent + 2, FieldsLines(fs[1..], indent + 2, rest))
    decreases |ls|, 4
  {
    hide Yaml.ParseEntry, MatchKey, FieldTrees, FieldsLines, FieldBody, ValidFields;
    fs := FieldOf(line, ls, indent + 2, {}, depth);
  }

  lemma {:induction false} FieldsOf(ls: seq<Line>, indent: nat, keys: set<string>, depth: nat) returns (fs: seq<Field>)
    requires Yaml.ParseEntries(ls, indent, None, keys, depth).Ok?
    ensures var (ms, rest) := Yaml.ParseEntries(ls, indent, None, keys, depth).value;
            ValidFields(fs, keys, depth) && FieldTrees(fs) == ms && ls == FieldsLines(fs, indent, rest)
    decreases |ls|, 1
  {
    hide Yaml.ParseEntry, FieldBody, FieldTree, ValidField, MatchKey;
    if ls == [] || ls[0].indent != indent {
      fs := [];
    } else {
      fs := FieldOf(ls[0].text, ls[1..], indent, keys, depth);
      assert ls == [Line(indent, ls[0].text)] + ls[1..];
    }
  }

  lemma {:induction false} FieldOf(line: string, ls: seq<Line>, indent: nat, keys: set<string>, depth: nat)
    returns (fs: seq<Field>)
    requires MatchKey(line).Ok? && MatchKey(line).value.Some?
    requires Yaml.ParseEntry(ls, indent, MatchKey(line).value.value, keys, depth).Ok?
    ensures var (ms, rest) := Yaml.ParseEntry(ls, indent, MatchKey(line).value.value, keys, depth).value;
            && fs != [] && fs[0].line == line && ValidFields(fs, keys, depth) && FieldTrees(fs) == ms
            && ls == FieldBody(fs[0], indent, FieldsLines(fs[1..], indent, rest))
    decreases |ls|, 3, 1
  {
    hide Yaml.ParseEntries, FieldBody, FieldTree, ValidField, Yaml.ValueAfterKey, MatchKey, FieldsLines;
    var pair := MatchKey(line).value.value;
    var f := ValueOf(line, ls, indent, depth);
    var ls1 := Yaml.ValueAfterKey(ls, indent, pair.1, depth).value.1;
    var more := FieldsOf(ls1, indent, keys + {pair.0}, depth);
    fs := [f] + more;
    assert fs[1..] == more;
  }

  lemma {:induction false} ValueOf(line: string, ls: seq<Line>, indent: nat, depth: nat) returns (f: Field)
    requires MatchKey(line).Ok? && MatchKey(line).value.Some?
    requires Yaml.ValueAfterKey(ls, indent, MatchKey(line).value.value.1, depth).Ok?
    ensures var (v, rest) := Yaml.ValueAfterKey(ls, indent, MatchKey(line).value.value.1, depth).value;
            && ValidField(f, depth) && f.line == line && f.key == MatchKey(line).value.value.0
            && FieldTree(f) == v && ls == FieldBody(f, indent, rest)
    decreases |ls|, 3, 0
  {
    hide Yaml.ParseNode, ParseScalar, MatchKey, ValidBlock, BlockLines, Tree, Inlined, IsPair;
    var (key, text) := MatchKey(line).value.value;
    var (v, rest) := Yaml.ValueAfterKey(ls, indent, text, depth).value;
    PairMeaning(line, key, text);
    if text == "" {
      var block := BlockOf(ls, depth);
      f := Long(line, key, ls[0].indent - indent, block);
    } else {
      InlineSeen(text, v);
      f := Short(line, key, text, v);
    }
  }

  // ---------------------------------------------------------------- whole documents

  /** The lines are those of a block that stands for `v`. */
  ghost predicate Denotes(lines: seq<Line>, v: J.Json) {
    exists b: Block, indent: nat :: ValidBlock(b, 0) && Tree(b) == v && lines == BlockLines(b, indent, [])
  }

  /** A document is accepted exactly when its lines are those of a block, and its value is the block's tree. */
  lemma ParsedExactly(input: string, v: J.Json)
    ensures Yaml.ParseYaml(input) == Ok(v) <==>
            && |Utf8.Encode(input)| <= 32 * 1024 * 1024 && 0 as char !in input && '\t' !in input
            && ReadLines(SplitLines(input)).Ok? && Denotes(ReadLines(SplitLines(input)).value, v)
  {
    hide Yaml.ParseNode, ReadLines, SplitLines, Utf8.Encode, ValidBlock, Tree, BlockLines;
    if Yaml.ParseYaml(input) == Ok(v) {
      var lines := ReadLines(SplitLines(input)).value;
      var b := BlockOf(lines, 0);
      assert lines == BlockLines(b, lines[0].indent, []);
    }
    if ReadLines(SplitLines(input)).Ok? && Denotes(ReadLines(SplitLines(input)).value, v) {
      var lines := ReadLines(SplitLines(input)).value;
      var b: Block, indent: nat :| ValidBlock(b, 0) && Tree(b) == v && lines == BlockLines(b, indent, []);
      BlockFirst(b, indent, [], 0);
      BlockReads(b, indent, [], 0);
    }
  }
}
