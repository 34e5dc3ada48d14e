/** llama.cpp tensor names and their Knolo names. */
module LlamaNames {
  /*
   `canonical_llama_tensor`: llama.cpp tensor names and the Knolo names they stand for. A name
   is either one of a fixed table, or a prefix, a layer index of decimal digits, a dot and a known
   tail; the index is kept as text, leading zeros and all. The main results: renaming
   twice is renaming once, shapes included; renaming is injective on the names llama.cpp writes;
   and no Knolo name is taken for a llama.cpp one, so that a tensor that already has its Knolo
   name keeps its name and its shape. The renaming is the table of twelve pairs at the end.
   */
  import opened Wrappers

  const BLOCK: string := "blk."
  const LAYERS: string := "layers."

  predicate Digits(s: string) {
    s != [] && forall i :: 0 <= i < |s| ==> '0' <= s[i] <= '9'
  }

  /** `split_once('.')`. */
  function SplitAtDot(s: string): (r: Option<(string, string)>)
    ensures r.Some? ==> s == r.value.0 + ['.'] + r.value.1 && '.' !in r.value.0
  {
    if s == [] then None
    else if s[0] == '.' then Some(([], s[1..]))
    else
      match SplitAtDot(s[1..])
      case None => None
      case Some((head, tail)) => Some(([s[0]] + head, tail))
  }

  lemma {:induction false} SplitJoined(head: string, tail: string)
    requires '.' !in head
    ensures SplitAtDot(head + ['.'] + tail) == Some((head, tail))
  {
    var s := head + ['.'] + tail;
    if head == [] {
      assert s[1..] == tail;
    } else {
      assert s[0] == head[0] && s[1..] == head[1..] + ['.'] + tail;
      SplitJoined(head[1..], tail);
      assert head == [head[0]] + head[1..];
    }
  }

  /** `strip_prefix`, then `split_once('.')`, then the digit check on the index. */
  function BlockParts(prefix: string, name: string): (r: Option<(string, string)>)
    ensures r.Some? ==> Digits(r.value.0) && name == prefix + (r.value.0 + ['.'] + r.value.1)
  {
    if !(prefix <= name) then None
    else
      match SplitAtDot(name[|prefix|..])
      case None => None
      case Some((index, tail)) => if Digits(index) then Some((index, tail)) else None
  }

  function Block(prefix: string, index: string, tail: string): string {
    prefix + (index + ['.'] + tail)
  }

  lemma BlockPartsOfBlock(prefix: string, index: string, tail: string)
    requires Digits(index)
    ensures BlockParts(prefix, Block(prefix, index, tail)) == Some((index, tail))
  {
    SplitJoined(index, tail);
    assert Block(prefix, index, tail)[|prefix|..] == index + ['.'] + tail;
  }

  function TopName(name: string): Option<string> {
    if name == "token_embd.weight" then Some("embed.weight")
    else if name == "output.weight" then Some("lm_head.weight")
    else if name == "output_norm.weight" then Some("final_norm.weight")
    else None
  }

  function TailName(tail: string): Option<string> {
    if tail == "attn_norm.weight" then Some("attn_norm.weight")
    else if tail == "attn_q.weight" then Some("attn.q.weight")
    else if tail == "attn_k.weight" then Some("attn.k.weight")
    else if tail == "attn_v.weight" then Some("attn.v.weight")
    else if tail == "attn_output.weight" then Some("attn.o.weight")
    else if tail == "ffn_norm.weight" then Some("mlp_norm.weight")
    else if tail == "ffn_gate.weight" then Some("mlp.gate.weight")
    else if tail == "ffn_up.weight" then Some("mlp.up.weight")
    else if tail == "ffn_down.weight" then Some("mlp.down.weight")
    else None
  }

  /** `map_ggml_tensor`. */
  function MapGgml(name: string): Option<string> {
    if TopName(name).Some? then TopName(name)
    else
      match BlockParts(BLOCK, name)
      case None => None
      case Some((index, tail)) =>
        match TailName(tail)
        case None => None
        case Some(knolo) => Some(Block(LAYERS, index, knolo))
  }

  predicate KnoloTop(name: string) {
    name == "embed.weight" || name == "final_norm.weight" || name == "lm_head.weight"
  }

  predicate KnoloTail(tail: string) {
    || tail == "attn_norm.weight"
    || tail == "attn.q.weight"
    || tail == "attn.k.weight"
    || tail == "attn.v.weight"
    || tail == "attn.o.weight"
    || tail == "mlp_norm.weight"
    || tail == "mlp.gate.weight"
    || tail == "mlp.up.weight"
    || tail == "mlp.down.weight"
  }

  /** `knolo_weight_name`. */
  predicate KnoloName(name: string) {
    || KnoloTop(name)
    || (var parts := BlockParts(LAYERS, name); parts.Some? && KnoloTail(parts.value.1))
  }

  function Reverse<T>(s: seq<T>): seq<T> {
    if s == [] then [] else Reverse(s[1..]) + [s[0]]
  }

  /** The Knolo name and shape of a GGUF tensor, when its name is known. */
  function Canonical(name: string, shape: seq<nat>): Option<(string, seq<nat>)> {
    match MapGgml(name)
    case Some(mapped) => Some((mapped, Reverse(shape)))
    case None => if KnoloName(name) then Some((name, shape)) else None
  }

  // ---------------------------------------------------------------- theorems

  lemma TailsAreKnolo(tail: string)
    ensures TailName(tail).Some? ==> KnoloTail(TailName(tail).value)
    ensures TopName(tail).Some? ==> KnoloTop(TopName(tail).value)
  {
  }

  lemma TailsInjective(a: string, b: string)
    requires TailName(a).Some? && TailName(a) == TailName(b)
    ensures a == b
  {
  }

  lemma TopsInjective(a: string, b: string)
    requires TopName(a).Some? && TopName(a) == TopName(b)
    ensures a == b
  {
  }

  /** A Knolo name is no llama.cpp name. */
  lemma KnoloIsNotGgml(name: string)
    requires KnoloName(name)
    ensures MapGgml(name).None?
  {
    hide TailName, KnoloTail, SplitAtDot, Digits;
    if KnoloTop(name) {
      assert name[0] != 'b';
    } else {
      assert name[0] == 'l';
    }
  }

  lemma MappedIsKnolo(name: string)
    requires MapGgml(name).Some?
    ensures KnoloName(MapGgml(name).value)
  {
    hide KnoloTail, TailName, TopName, SplitAtDot, KnoloTop;
    if TopName(name).Some? {
      TailsAreKnolo(name);
    } else {
      var (index, tail) := BlockParts(BLOCK, name).value;
      TailsAreKnolo(tail);
      BlockPartsOfBlock(LAYERS, index, TailName(tail).value);
    }
  }

  /** Mapping twice is mapping once: a canonical name keeps its name and its shape. */
  lemma CanonicalIsIdempotent(name: string, shape: seq<nat>)
    requires Canonical(name, shape).Some?
    ensures var (n, s) := Canonical(name, shape).value;
            KnoloName(n) && Canonical(n, s) == Some((n, s))
  {
    hide MapGgml, KnoloName;
    if MapGgml(name).Some? {
      MappedIsKnolo(name);
    }
    KnoloIsNotGgml(Canonical(name, shape).value.0);
  }

  lemma TopIsNoBlock(name: string)
    requires KnoloTop(name)
    ensures !(LAYERS <= name)
  {
    assert name[0] == 'l' ==> name[1] == 'm';
    assert LAYERS[0] == 'l' && LAYERS[1] == 'a';
  }

  /** Distinct llama.cpp names stand for distinct Knolo names. */
  lemma MapGgmlInjective(a: string, b: string)
    requires MapGgml(a).Some? && MapGgml(a) == MapGgml(b)
    ensures a == b
  {
    hide KnoloTail, TailName, TopName, SplitAtDot, KnoloTop;
    TailsAreKnolo(a);
    TailsAreKnolo(b);
    if TopName(a).Some? && TopName(b).Some? {
      TopsInjective(a, b);
    } else if TopName(a).Some? {
      TopIsNoBlock(TopName(a).value);
      BlockStarts(b);
    } else if TopName(b).Some? {
      TopIsNoBlock(TopName(b).value);
      BlockStarts(a);
    } else {
      var (i, s) := BlockParts(BLOCK, a).value;
      var (j, t) := BlockParts(BLOCK, b).value;
      BlockPartsOfBlock(LAYERS, i, TailName(s).value);
      BlockPartsOfBlock(LAYERS, j, TailName(t).value);
      TailsInjective(s, t);
    }
  }

  lemma BlockStarts(name: string)
    requires MapGgml(name).Some? && TopName(name).None?
    ensures LAYERS <= MapGgml(name).value
  {
    hide TailName, TopName, SplitAtDot;
  }

  // ---------------------------------------------------------------- the name table

  /** The names outside the layers: llama.cpp's and Knolo's. */
  const TOPS: set<(string, string)> :=
    {("token_embd.weight", "embed.weight"),
     ("output.weight", "lm_head.weight"),
     ("output_norm.weight", "final_norm.weight")}

  /** The names inside a layer, after its index and a dot: llama.cpp's and Knolo's. */
  const TAILS: set<(string, string)> :=
    {("attn_norm.weight", "attn_norm.weight"),
     ("attn_q.weight", "attn.q.weight"),
     ("attn_k.weight", "attn.k.weight"),
     ("attn_v.weight", "attn.v.weight"),
     ("attn_output.weight", "attn.o.weight"),
     ("ffn_norm.weight", "mlp_norm.weight"),
     ("ffn_gate.weight", "mlp.gate.weight"),
     ("ffn_up.weight", "mlp.up.weight"),
     ("ffn_down.weight", "mlp.down.weight")}

  /** The two names of one weight of layer `index`. */
  predicate LayerPair(ggml: string, knolo: string, index: string, tail: (string, string)) {
    && index != "" && (forall c <- index :: '0' <= c <= '9')
    && tail in TAILS
    && ggml == "blk." + index + "." + tail.0
    && knolo == "layers." + index + "." + tail.1
  }

  /** The two names of one weight. */
  ghost predicate SameWeight(ggml: string, knolo: string) {
    (ggml, knolo) in TOPS || exists index, tail :: LayerPair(ggml, knolo, index, tail)
  }

  lemma TopTable(name: string, knolo: string)
    ensures TopName(name) == Some(knolo) <==> (name, knolo) in TOPS
    ensures KnoloTop(knolo) <==> exists ggml :: (ggml, knolo) in TOPS
  {
    assert KnoloTop(knolo) ==> (if knolo == "embed.weight" then "token_embd.weight"
                                else if knolo == "lm_head.weight" then "output.weight"
                                else "output_norm.weight", knolo) in TOPS;
  }

  lemma TailTable(name: string, knolo: string)
    ensures TailName(name) == Some(knolo) <==> (name, knolo) in TAILS
  {
  }

  lemma KnoloTailTable(knolo: string)
    ensures KnoloTail(knolo) <==> exists tail :: tail in TAILS && tail.1 == knolo
  {
    hide TailName;
    if KnoloTail(knolo) {
      assert exists tail :: tail in TAILS && tail.1 == knolo by {
        assert ("attn_norm.weight", "attn_norm.weight") in TAILS;
        assert ("attn_q.weight", "attn.q.weight") in TAILS;
        assert ("attn_k.weight", "attn.k.weight") in TAILS;
        assert ("attn_v.weight", "attn.v.weight") in TAILS;
        assert ("attn_output.weight", "attn.o.weight") in TAILS;
        assert ("ffn_norm.weight", "mlp_norm.weight") in TAILS;
        assert ("ffn_gate.weight", "mlp.gate.weight") in TAILS;
        assert ("ffn_up.weight", "mlp.up.weight") in TAILS;
        assert ("ffn_down.weight", "mlp.down.weight") in TAILS;
      }
    }
  }

  lemma DigitChars(index: string)
    ensures Digits(index) <==> index != "" && forall c <- index :: '0' <= c <= '9'
  {
    if forall c <- index :: '0' <= c <= '9' {
      assert forall i :: 0 <= i < |index| ==> index[i] in index;
    }
  }

  lemma BlockText(prefix: string, index: string, tail: string)
    ensures Block(prefix, index, tail) == prefix + index + "." + tail
  {
  }

  /** llama.cpp names are renamed by the table, whatever the index, and no other name is. */
  lemma MapGgmlMeaning(name: string, knolo: string)
    ensures MapGgml(name) == Some(knolo) <==> SameWeight(name, knolo)
  {
    hide TopName, TailName, SplitAtDot, Digits, KnoloTop;
    TopTable(name, knolo);
    if MapGgml(name) == Some(knolo) && TopName(name).None? {
      var (index, tail) := BlockParts(BLOCK, name).value;
      TailTable(tail, TailName(tail).value);
      DigitChars(index);
      BlockText(BLOCK, index, tail);
      BlockText(LAYERS, index, TailName(tail).value);
      assert LayerPair(name, knolo, index, (tail, TailName(tail).value));
    }
    if index, tail :| LayerPair(name, knolo, index, tail) {
      DigitChars(index);
      BlockText(BLOCK, index, tail.0);
      BlockText(LAYERS, index, tail.1);
      BlockPartsOfBlock(BLOCK, index, tail.0);
      TailTable(tail.0, tail.1);
      BlockIsNoTop(name);
    }
  }

  lemma BlockIsNoTop(name: string)
    requires BLOCK <= name
    ensures TopName(name).None?
  {
    assert name[0] == 'b';
  }

  /** The Knolo names are the right-hand sides of the table. */
  lemma KnoloNameMeaning(name: string)
    ensures KnoloName(name) <==> exists ggml :: SameWeight(ggml, name)
  {
    hide TopName, TailName, SplitAtDot, Digits, KnoloTop, KnoloTail;
    if KnoloTop(name) {
      TopTable("", name);
      var ggml :| (ggml, name) in TOPS;
      assert SameWeight(ggml, name);
    } else if KnoloName(name) {
      var (index, last) := BlockParts(LAYERS, name).value;
      KnoloTailTable(last);
      var tail :| tail in TAILS && tail.1 == last;
      DigitChars(index);
      BlockText(LAYERS, index, last);
      assert LayerPair("blk." + index + "." + tail.0, name, index, tail);
      assert SameWeight("blk." + index + "." + tail.0, name);
    }
    if ggml :| SameWeight(ggml, name) {
      MapGgmlMeaning(ggml, name);
      MappedIsKnolo(ggml);
    }
  }

  lemma {:induction false} ReverseAt<T>(s: seq<T>)
    ensures |Reverse(s)| == |s| && forall i :: 0 <= i < |s| ==> Reverse(s)[i] == s[|s| - 1 - i]
  {
    if s != [] {
      ReverseAt(s[1..]);
    }
  }

  /** A llama.cpp tensor takes its Knolo name and turns its shape round; a Knolo tensor stays; no other passes. */
  lemma CanonicalMeaning(name: string, shape: seq<nat>, knolo: string, turned: seq<nat>)
    ensures Canonical(name, shape) == Some((knolo, turned)) <==>
            || (SameWeight(name, knolo) && |turned| == |shape|
                && forall i :: 0 <= i < |shape| ==> turned[i] == shape[|shape| - 1 - i])
            || (name == knolo && turned == shape && exists ggml :: SameWeight(ggml, knolo))
  {
    hide MapGgml, KnoloName, SameWeight;
    MapGgmlMeaning(name, knolo);
    KnoloNameMeaning(name);
    ReverseAt(shape);
    if KnoloName(name) {
      KnoloIsNotGgml(name);
    }
    if |turned| == |shape| && forall i :: 0 <= i < |shape| ==> turned[i] == shape[|shape| - 1 - i] {
      assert turned == Reverse(shape);
    }
  }
}
