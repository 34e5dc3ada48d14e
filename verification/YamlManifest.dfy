/**
 Extensions of a YAML manifest. A mapping beside the dash of an item opens no level of the
 YAML parser but one of the tree, so a manifest within the parser's limit can hold an
 extension that is too high for the image, and the compiler refuses it.
 */
module YamlManifest {
  import opened Wrappers
  import opened YamlText
  import opened Yaml
  import opened YamlDocument
  import opened YamlTrees
  import opened ImageExtensions
  import J = JsonValue
  import Cbor
  import InferenceEvent
  import JsonToCbor
  import Utf8

  /** `n` lists, each of one mapping with the next list under its key; two containers to a level. */
  function Deep(n: nat): J.Json {
    if n == 0 then J.Array([]) else J.Array([J.Object([J.Member("k", Deep(n - 1))])])
  }

  lemma {:induction false} DeepIsBlockable(n: nat)
    ensures Blockable(Deep(n)) && Levels(Deep(n)) == n
  {
    if n > 0 {
      DeepIsBlockable(n - 1);
      var m := J.Member("k", Deep(n - 1));
      OneMember(m);
      var item := J.Object([m]);
      assert [item][1..] == [];
      assert ItemsLevels([item]) == Larger(ItemLevels(item), ItemsLevels([]));
      assert ItemLevels(item) == MembersLevels([m]);
    }
  }

  lemma OneMember(m: J.Member)
    requires ValidKey(m.key) && Blockable(m.value)
    ensures MembersBlockable([m], {}) && MembersLevels([m]) == Levels(m.value)
    ensures Levels(J.Object([m])) == 1 + Levels(m.value)
  {
    hide ValidKey;
    assert [m][1..] == [];
    assert MembersBlockable([], {} + {m.key});
  }

  lemma {:induction false} DeepTranslates(n: nat, depth: nat)
    ensures J.WellFormed(Deep(n)) && Height(Deep(n)) == 2 * n
    ensures JsonToCbor.Translate(Deep(n), depth).Ok? <==> depth + 2 * n <= 32
    decreases n
  {
    if n > 0 {
      DeepTranslates(n - 1, depth + 2);
      var v := Deep(n - 1);
      var m := J.Member("k", v);
      var o := J.Object([m]);
      assert [m][1..] == [] && [o][1..] == [];
      Utf8.EncodeAscii("k");
      assert Height(o) == 1 + Height(v) by {
        assert MembersHeight([]) == 0;
      }
      assert Height(Deep(n)) == 1 + Height(o) by {
        assert ItemsHeight([]) == 0;
      }
      assert J.WellFormed(o) by {
        assert J.MembersWellFormed([]);
      }
      assert J.AllWellFormed([]);
      OneMemberTranslates(m, depth + 2);
      OneItemTranslates(o, depth + 1);
    }
  }

  lemma OneMemberTranslates(m: J.Member, depth: nat)
    requires depth >= 1
    ensures JsonToCbor.Translate(J.Object([m]), depth - 1).Ok? <==> JsonToCbor.Translate(m.value, depth).Ok?
  {
    assert [m][1..] == [];
    assert JsonToCbor.TranslateMembers([], depth) == Ok([]);
    assert depth - 1 > 32 ==> JsonToCbor.Translate(m.value, depth).Err?;
  }

  lemma OneItemTranslates(v: J.Json, depth: nat)
    requires depth >= 1
    ensures JsonToCbor.Translate(J.Array([v]), depth - 1).Ok? <==> JsonToCbor.Translate(v, depth).Ok?
  {
    assert [v][1..] == [];
    assert JsonToCbor.TranslateItems([], depth) == Ok([]);
    assert depth - 1 > 32 ==> JsonToCbor.Translate(v, depth).Err?;
  }

  // ---------------------------------------------------------------- the manifest

  const NAME: string := "x.y"

  /** Sixteen levels, thirty-two containers below the extension's own: as high as the translation allows. */
  const EXTENSIONS: seq<J.Member> := [J.Member(NAME, Deep(16))]

  /** Any other fields, then the extension. */
  function Manifest(fields: seq<J.Member>): J.Json {
    J.Object(fields + [J.Member("extensions", J.Object(EXTENSIONS))])
  }

  lemma {:induction false} LastField(fields: seq<J.Member>, last: J.Member, keys: set<string>)
    requires MembersBlockable(fields, keys) && ValidKey(last.key) && Blockable(last.value)
    requires last.key !in keys && forall m <- fields :: m.key != last.key
    ensures MembersBlockable(fields + [last], keys)
    ensures MembersLevels(fields + [last]) == Larger(MembersLevels(fields), Levels(last.value))
    decreases |fields|
  {
    hide Blockable, Levels, ValidKey;
    var all := fields + [last];
    if fields == [] {
      assert all == [last] && all[1..] == [];
      assert MembersBlockable([], keys + {last.key});
    } else {
      assert all[0] == fields[0] && all[1..] == fields[1..] + [last];
      LastField(fields[1..], last, keys + {fields[0].key});
    }
  }

  /** The fields of a manifest that block printing can show, without extensions of its own. */
  predicate Fields(fields: seq<J.Member>) {
    && MembersBlockable(fields, {}) && MembersLevels(fields) < MAX_DEPTH
    && forall m <- fields :: m.key != "extensions"
  }

  lemma ManifestIsBlockable(fields: seq<J.Member>)
    requires Fields(fields)
    ensures Blockable(Manifest(fields)) && Levels(Manifest(fields)) <= MAX_DEPTH
  {
    hide Blockable, Levels, MembersBlockable, MembersLevels, Deep;
    DeepIsBlockable(16);
    assert ValidKey(NAME) && ValidKey("extensions");
    OneMember(EXTENSIONS[0]);
    ObjectLevels(EXTENSIONS);
    var last := J.Member("extensions", J.Object(EXTENSIONS));
    LastField(fields, last, {});
    ObjectLevels(fields + [last]);
  }

  lemma ObjectLevels(members: seq<J.Member>)
    requires members != []
    ensures Levels(J.Object(members)) == 1 + MembersLevels(members)
    ensures Blockable(J.Object(members)) == MembersBlockable(members, {})
  {
  }

  lemma NameIsValid()
    ensures InferenceEvent.ValidExtensionKey(NAME)
  {
    Utf8.EncodeAscii(NAME);
    assert NAME[1..] == ".y" && ".y"[1..] == "y" && "y"[1..] == "";
    assert InferenceEvent.ExtensionSegments("y", true, true);
  }

  lemma ExtensionsAreWellformed()
    ensures Wellformed(EXTENSIONS) && !LowEnough(EXTENSIONS)
  {
    hide Deep, InferenceEvent.ValidExtensionKey, JsonToCbor.Translate, Height, J.WellFormed;
    DeepTranslates(16, 0);
    NameIsValid();
    Utf8.EncodeAscii(NAME);
    var m := EXTENSIONS[0];
    assert EXTENSIONS[1..] == [] && J.MembersWellFormed([]);
    assert JsonToCbor.TranslateMembers([], 0) == Ok([]);
    assert m in EXTENSIONS && Height(m.value) == 32;
  }

  /**
   The YAML text of such a manifest parses, its extension translates at depth 0, and the
   compiler refuses the image, whatever the other fields of the manifest and the image are.
   */
  lemma YamlExtensionRefused(fields: seq<J.Member>, before: seq<Cbor.Entry>, after: seq<Cbor.Entry>)
    requires Fields(fields)
    requires Blockable(Manifest(fields)) ==> |Utf8.Encode(Print(Manifest(fields)))| <= Yaml.MAX_BYTES
    requires Cbor.Canonical(Image(before, [], after), 0)
    ensures Blockable(Manifest(fields)) && ParseYaml(Print(Manifest(fields))) == Ok(Manifest(fields))
    ensures JsonToCbor.Translate(Deep(16), 0).Ok? && Compile(before, EXTENSIONS, after) == Err(Refused)
  {
    hide Blockable, Levels, Deep, Print, ParseYaml, Utf8.Encode, Cbor.Canonical, Compile, Wellformed, LowEnough, Fields,
      JsonToCbor.Translate;
    ManifestIsBlockable(fields);
    PrintedTreeParses(Manifest(fields));
    DeepTranslates(16, 0);
    ExtensionsAreWellformed();
    CompileMeaning(before, EXTENSIONS, after);
  }

  // ---------------------------------------------------------------- the text is short

  /** The length of the plain text of some lines. */
  function Size(lines: seq<Line>): nat {
    if lines == [] then 0 else lines[0].indent + |lines[0].text| + 1 + Size(lines[1..])
  }

  lemma {:induction false} PlainSize(lines: seq<Line>)
    ensures |Join(PlainRaws(lines))| == Size(lines)
  {
    if lines != [] {
      PlainSize(lines[1..]);
      assert PlainRaws(lines)[1..] == PlainRaws(lines[1..]);
    }
  }

  lemma {:induction false} DeepSize(n: nat, indent: nat)
    requires 1 <= n && indent + 4 * n <= 100
    requires Blockable(Deep(n))
    ensures Size(NodeLines(Lay(Deep(n)), indent, [])) <= 120 * n
    decreases n
  {
    DeepIsBlockable(n - 1);
    var v := Deep(n - 1);
    var m := J.Member("k", v);
    OneMember(m);
    var o := J.Object([m]);
    assert [o][1..] == [] && [m][1..] == [];
    var e := LayEntry(m);
    assert LayEntries([m], {}) == [e];
    assert LayItem(o) == DictItem([e]);
    assert LayItems([o]) == [DictItem([e])];
    assert Lay(Deep(n)) == List([DictItem([e])]);
    ListOfOne(e, indent);
    if n > 1 {
      DeepSize(n - 1, indent + 4);
    }
  }

  lemma ListOfOne(e: Entry, indent: nat)
    ensures NodeLines(List([DictItem([e])]), indent, []) ==
            [Line(indent, "- " + EntryText(e))] + EntryBody(e, indent + 2, [])
  {
    var item := DictItem([e]);
    assert [item][1..] == [] && [e][1..] == [];
    assert ItemsLines([], indent, []) == [];
    assert ItemsLines([item], indent, []) == [Line(indent, ItemText(item))] + ItemBody(item, indent, []);
    assert EntriesLines([], indent + 2, []) == [];
  }

  lemma DictOfOne(e: Entry, indent: nat)
    ensures NodeLines(Dict([e]), indent, []) == [Line(indent, EntryText(e))] + EntryBody(e, indent, [])
  {
    assert [e][1..] == [];
    assert EntriesLines([], indent, []) == [];
  }

  lemma {:induction false} TextBytes(s: string)
    ensures |Utf8.Encode(s)| <= 4 * |s|
  {
    if s != [] {
      TextBytes(s[1..]);
    }
  }

  lemma ManifestSize()
    requires Blockable(Manifest([]))
    ensures |Utf8.Encode(Print(Manifest([])))| <= Yaml.MAX_BYTES
  {
    hide Deep, Utf8.Encode, Join, PlainRaws;
    DeepIsBlockable(16);
    assert ValidKey(NAME) && ValidKey("extensions");
    var inner := EXTENSIONS[0];
    OneMember(inner);
    var outer := J.Member("extensions", J.Object(EXTENSIONS));
    OneMember(outer);
    assert [] + [outer] == [outer] && [outer][1..] == [] && EXTENSIONS[1..] == [];
    DeepIsList(16);
    var e := NodeEntry(NAME, 2, Lay(Deep(16)));
    assert LayEntry(inner) == e && LayEntries(EXTENSIONS, {}) == [e];
    var f := NodeEntry("extensions", 2, Dict([e]));
    assert LayEntry(outer) == f && LayEntries([outer], {}) == [f];
    assert Lay(Manifest([])) == Dict([f]);
    DictOfOne(e, 2);
    DictOfOne(f, 0);
    DeepSize(16, 4);
    PlainSize(NodeLines(Lay(Manifest([])), 0, []));
    TextBytes(Print(Manifest([])));
  }

  lemma DeepIsList(n: nat)
    requires n > 0
    ensures Deep(n).Array? && Deep(n).items != []
  {
  }

  /** The extension alone is a text within the limits that the YAML parser accepts. */
  lemma DeepExtensionIsRefused(before: seq<Cbor.Entry>, after: seq<Cbor.Entry>)
    requires Cbor.Canonical(Image(before, [], after), 0)
    ensures Blockable(Manifest([])) && ParseYaml(Print(Manifest([]))) == Ok(Manifest([]))
    ensures JsonToCbor.Translate(Deep(16), 0).Ok? && Compile(before, EXTENSIONS, after) == Err(Refused)
  {
    hide Blockable, Levels, Deep, Print, ParseYaml, Utf8.Encode, Cbor.Canonical, Compile, JsonToCbor.Translate;
    NoFields();
    ManifestIsBlockable([]);
    ManifestSize();
    YamlExtensionRefused([], before, after);
  }

  lemma NoFields()
    ensures Fields([])
  {
  }
}
