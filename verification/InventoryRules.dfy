/**
 The two projections of a GGUF file in literal terms: which tensor gives which entry, what becomes
 of the RoPE table and of a missing head, and what the list of precisions holds. They are stated
 without the functions that the two projections share.
 */
module InventoryRules {
  import opened Wrappers
  import opened LlamaNames
  import opened Inventory
  import opened Sorting
  import GgufFile
  import GgufTypes
  import Utf8

  // ---------------------------------------------------------------- one tensor

  const PRECISION_NAMES: set<(GgufTypes.TensorType, string)> :=
    {(GgufTypes.F32, "f32"), (GgufTypes.F16, "f16"), (GgufTypes.Q8_0, "q8_0"),
     (GgufTypes.Q4_K, "q4_k_m"), (GgufTypes.Q5_K, "q5_k_m"), (GgufTypes.Q6_K, "q6_k")}

  lemma PrecisionMeaning(t: GgufTypes.TensorType, dtype: string)
    ensures Precision(t) == dtype <==> (t, dtype) in PRECISION_NAMES
  {
  }

  /** An entry of an inventory: Knolo's name, the precision of the type, and the shape in Knolo's order. */
  lemma ProjectMeaning(t: GgufFile.Tensor, s: Spec)
    ensures Project(t) == Ok(s) <==>
            && (forall dim <- t.shape :: dim < 0x1_0000_0000)
            && (t.tensorType, s.dtype) in PRECISION_NAMES
            && (|| (SameWeight(t.name, s.name) && |s.shape| == |t.shape|
                    && forall i :: 0 <= i < |t.shape| ==> s.shape[i] == t.shape[|t.shape| - 1 - i])
                || (t.name == s.name && s.shape == t.shape && exists ggml :: SameWeight(ggml, s.name)))
  {
    hide Canonical, SameWeight, Precision, PRECISION_NAMES;
    CanonicalMeaning(t.name, t.shape, s.name, s.shape);
    PrecisionMeaning(t.tensorType, s.dtype);
  }

  // ---------------------------------------------------------------- the list of tensors

  /** The tensors that are weights, in file order. */
  function Weights(ts: seq<GgufFile.Tensor>): seq<GgufFile.Tensor> {
    if ts == [] then []
    else if ts[0].name == "rope_freqs.weight" then Weights(ts[1..])
    else [ts[0]] + Weights(ts[1..])
  }

  /** Each weight gives one entry, in file order; one weight without an entry fails the whole. */
  lemma {:induction false} ProjectAllMeaning(ts: seq<GgufFile.Tensor>)
    ensures ProjectAll(ts).Ok? <==> forall t <- Weights(ts) :: Project(t).Ok?
    ensures ProjectAll(ts).Ok? ==>
              && |ProjectAll(ts).value| == |Weights(ts)|
              && forall i :: 0 <= i < |Weights(ts)| ==> Project(Weights(ts)[i]) == Ok(ProjectAll(ts).value[i])
  {
    hide Project;
    if ts != [] {
      ProjectAllMeaning(ts[1..]);
      assert ts[0].name != "rope_freqs.weight" ==>
          forall t :: t in Weights(ts) <==> t == ts[0] || t in Weights(ts[1..]);
    }
  }

  /** A RoPE table may stand in the file once, and must be usable. */
  lemma {:induction false} RopeMeaning(ts: seq<GgufFile.Tensor>, usable: GgufFile.Tensor -> bool)
    ensures CheckRope(ts, usable, false).Pass? <==>
            && (forall i, j :: 0 <= i < j < |ts| ==>
                  !(ts[i].name == "rope_freqs.weight" && ts[j].name == "rope_freqs.weight"))
            && forall t <- ts :: t.name == "rope_freqs.weight" ==> usable(t)
  {
    if ts != [] {
      var tail := ts[1..];
      RopeMeaning(tail, usable);
      SeenMeaning(tail, usable);
      assert forall t :: t in ts <==> t == ts[0] || t in tail;
      assert forall i :: 0 <= i < |tail| ==> tail[i] == ts[i + 1];
      assert forall j :: 0 < j < |ts| ==> ts[j] == tail[j - 1];
    }
  }

  lemma {:induction false} SeenMeaning(ts: seq<GgufFile.Tensor>, usable: GgufFile.Tensor -> bool)
    ensures CheckRope(ts, usable, true).Pass? <==> forall t <- ts :: t.name != "rope_freqs.weight"
  {
    if ts != [] {
      SeenMeaning(ts[1..], usable);
      assert forall t :: t in ts <==> t == ts[0] || t in ts[1..];
    }
  }

  // ---------------------------------------------------------------- the head

  /** A list that has a head, or has no embedding, stays as it is. */
  lemma HeadStays(specs: seq<Spec>)
    requires (exists s <- specs :: s.name == "lm_head.weight") || forall s <- specs :: s.name != "embed.weight"
    ensures WithHead(specs) == specs
  {
    assert Find(specs, HEAD).Some? || Find(specs, EMBED).None?;
  }

  /** A missing head is the first embedding over again, under the name of the head. */
  lemma HeadIsTied(specs: seq<Spec>, k: nat)
    requires k < |specs| && specs[k].name == "embed.weight"
    requires forall i :: 0 <= i < k ==> specs[i].name != "embed.weight"
    requires forall s <- specs :: s.name != "lm_head.weight"
    ensures WithHead(specs) == specs + [Spec("lm_head.weight", specs[k].dtype, specs[k].shape)]
  {
    FindFirst(specs, "embed.weight", k);
  }

  lemma {:induction false} FindFirst(specs: seq<Spec>, name: string, k: nat)
    requires k < |specs| && specs[k].name == name && forall i :: 0 <= i < k ==> specs[i].name != name
    ensures Find(specs, name) == Some(specs[k])
  {
    if k > 0 {
      assert specs[0].name != name;
      FindFirst(specs[1..], name, k - 1);
    }
  }

  // ---------------------------------------------------------------- precisions

  lemma {:induction false} PrecisionsHold(specs: seq<Spec>, precisions: seq<string>)
    requires DistinctBy(precisions, Utf8.Encode)
    ensures var all := PrecisionsOf(specs, precisions);
            && DistinctBy(all, Utf8.Encode)
            && forall p :: p in all <==> p in precisions || exists s <- specs :: s.dtype == p
  {
    hide Utf8.Encode;
    if specs != [] {
      var added := AddPrecision(precisions, specs[0].dtype);
      AddedDistinct(precisions, specs[0].dtype);
      PrecisionsHold(specs[1..], added);
      assert forall s :: s in specs <==> s == specs[0] || s in specs[1..];
    }
  }

  lemma AddedDistinct(precisions: seq<string>, dtype: string)
    requires DistinctBy(precisions, Utf8.Encode)
    ensures DistinctBy(AddPrecision(precisions, dtype), Utf8.Encode)
  {
    hide Utf8.Encode;
    if dtype !in precisions {
      forall i | 0 <= i < |precisions|
        ensures Utf8.Encode(precisions[i]) != Utf8.Encode(dtype)
      {
        assert precisions[i] in precisions;
        if Utf8.Encode(precisions[i]) == Utf8.Encode(dtype) {
          Utf8.EncodeInjective(precisions[i], dtype);
        }
      }
    }
  }

  /** A manifest lists the weights with their head, and each of their precisions once, in order of bytes. */
  lemma ManifestMeaning(ts: seq<GgufFile.Tensor>)
    requires ManifestOf(ts).Ok?
    ensures var m := ManifestOf(ts).value;
            && ProjectAll(ts).Ok? && m.inventory == WithHead(ProjectAll(ts).value)
            && Increasing(m.precisions, Utf8.Encode)
            && forall p :: p in m.precisions <==> exists s <- ProjectAll(ts).value :: s.dtype == p
  {
    hide Sort, PrecisionsOf, WithHead, ProjectAll, Utf8.Encode, Increasing;
    var all := PrecisionsOf(ProjectAll(ts).value, []);
    PrecisionsHold(ProjectAll(ts).value, []);
    SortDistinct(all, Utf8.Encode);
  }
}
