/**
 The two paths from a parsed GGUF file to a tensor inventory, `manifest_json` and
 `project_llama_tensors`, and `require_inventory`, which compares them after `build_image` has
 sorted the first.
 */
module Inventory {
  import opened Wrappers
  import opened Bytes
  import opened LlamaNames
  import opened Sorting
  import Utf8
  import GgufTypes
  import GgufFile
  import GgufHeader

  const ROPE: string := "rope_freqs.weight"
  const HEAD: string := "lm_head.weight"
  const EMBED: string := "embed.weight"
  const U32_LIMIT: nat := 0x1_0000_0000

  /** A tensor of an inventory: `TensorSpecV1`, and what a `TensorView` says beside its place. */
  datatype Spec = Spec(name: string, dtype: string, shape: seq<nat>)

  datatype Error =
    | DimensionTooLarge | UnknownTensor | DuplicateRope | RopeInvalid
    | DuplicateTensor | MissingTensor | SpecMismatch | PrecisionMissing | UnexpectedTensor

  /** `knolo_precision`. */
  function Precision(t: GgufTypes.TensorType): string {
    match t
    case F32 => "f32"
    case F16 => "f16"
    case Q8_0 => "q8_0"
    case Q4_K => "q4_k_m"
    case Q5_K => "q5_k_m"
    case Q6_K => "q6_k"
  }

  /** One tensor under its canonical name. */
  function Project(t: GgufFile.Tensor): Result<Spec, Error> {
    if exists dim <- t.shape :: dim >= U32_LIMIT then Err(DimensionTooLarge)
    else
      match Canonical(t.name, t.shape)
      case None => Err(UnknownTensor)
      case Some((name, shape)) => Ok(Spec(name, Precision(t.tensorType), shape))
  }

  /** The tensors in file order, without the RoPE table. */
  function ProjectAll(ts: seq<GgufFile.Tensor>): Result<seq<Spec>, Error> {
    if ts == [] then Ok([])
    else if ts[0].name == ROPE then ProjectAll(ts[1..])
    else
      var first :- Project(ts[0]);
      var rest :- ProjectAll(ts[1..]);
      Ok([first] + rest)
  }

  function Find(specs: seq<Spec>, name: string): (r: Option<Spec>)
    ensures r.Some? <==> exists s <- specs :: s.name == name
    ensures r.Some? ==> r.value in specs && r.value.name == name
  {
    if specs == [] then None
    else if specs[0].name == name then Some(specs[0])
    else Find(specs[1..], name)
  }

  /** The embedding stands in for an output head that the file does not have. */
  function WithHead(specs: seq<Spec>): seq<Spec> {
    if Find(specs, HEAD).Some? || Find(specs, EMBED).None? then specs
    else specs + [Find(specs, EMBED).value.(name := HEAD)]
  }

  // ---------------------------------------------------------------- the manifest

  datatype Manifest = Manifest(inventory: seq<Spec>, precisions: seq<string>)

  function AddPrecision(precisions: seq<string>, dtype: string): seq<string> {
    if dtype in precisions then precisions else precisions + [dtype]
  }

  function PrecisionsOf(specs: seq<Spec>, precisions: seq<string>): seq<string> {
    if specs == [] then precisions else PrecisionsOf(specs[1..], AddPrecision(precisions, specs[0].dtype))
  }

  /** The inventory and the precisions that `manifest_json` writes. */
  function ManifestOf(ts: seq<GgufFile.Tensor>): Result<Manifest, Error> {
    var specs :- ProjectAll(ts);
    Ok(Manifest(WithHead(specs), Sort(PrecisionsOf(specs, []), Utf8.Encode)))
  }

  // ---------------------------------------------------------------- the projection

  /** `usable` stands for the checks on the numbers of a RoPE table. */
  function CheckRope(ts: seq<GgufFile.Tensor>, usable: GgufFile.Tensor -> bool, seen: bool): Outcome<Error> {
    if ts == [] then Pass
    else if ts[0].name != ROPE then CheckRope(ts[1..], usable, seen)
    else if seen then Fail(DuplicateRope)
    else if !usable(ts[0]) then Fail(RopeInvalid)
    else CheckRope(ts[1..], usable, true)
  }

  /** `project_llama_tensors`, without the payloads it carries along. */
  method ProjectTensors(ts: seq<GgufFile.Tensor>, usable: GgufFile.Tensor -> bool) returns (r: Result<seq<Spec>, Error>)
    ensures r.Ok? <==> ProjectAll(ts).Ok? && CheckRope(ts, usable, false).Pass?
    ensures r.Ok? ==> r.value == WithHead(ProjectAll(ts).value)
  {
    hide Project, WithHead, Prepend;
    var bodies: seq<Spec> := [];
    var hasRope := false;
    assert ts[0..] == ts;
    PrependDone(ProjectAll(ts));
    for i := 0 to |ts|
      invariant CheckRope(ts, usable, false) == CheckRope(ts[i..], usable, hasRope)
      invariant ProjectAll(ts) == Prepend(bodies, ProjectAll(ts[i..]))
    {
      assert ts[i..][0] == ts[i] && ts[i..][1..] == ts[i + 1..];
      PrependStep(bodies, ts[i..]);
      if ts[i].name == ROPE {
        if hasRope {
          return Err(DuplicateRope);
        }
        if !usable(ts[i]) {
          return Err(RopeInvalid);
        }
        hasRope := true;
      } else {
        var spec :- Project(ts[i]);
        bodies := bodies + [spec];
      }
    }
    assert ts[|ts|..] == [];
    PrependNothing(bodies);
    return Ok(WithHead(bodies));
  }

  /** The inventory loop of `manifest_json`, with its list of precisions. */
  method BuildManifest(ts: seq<GgufFile.Tensor>) returns (r: Result<Manifest, Error>)
    ensures r == ManifestOf(ts)
  {
    hide Project, WithHead, Prepend, Sort;
    var inventory: seq<Spec> := [];
    var precisions: seq<string> := [];
    assert ts[0..] == ts;
    PrependDone(ProjectAll(ts));
    for i := 0 to |ts|
      invariant precisions == PrecisionsOf(inventory, [])
      invariant ProjectAll(ts) == Prepend(inventory, ProjectAll(ts[i..]))
    {
      assert ts[i..][0] == ts[i] && ts[i..][1..] == ts[i + 1..];
      PrependStep(inventory, ts[i..]);
      if ts[i].name != ROPE {
        var spec :- Project(ts[i]);
        PrecisionsOfLast(inventory, spec, []);
        precisions := AddPrecision(precisions, spec.dtype);
        inventory := inventory + [spec];
      }
    }
    assert ts[|ts|..] == [];
    PrependNothing(inventory);
    return Ok(Manifest(WithHead(inventory), Sort(precisions, Utf8.Encode)));
  }

  function Prepend(done: seq<Spec>, rest: Result<seq<Spec>, Error>): Result<seq<Spec>, Error> {
    match rest
    case Ok(specs) => Ok(done + specs)
    case Err(error) => Err(error)
  }

  lemma PrependDone(rest: Result<seq<Spec>, Error>)
    ensures Prepend([], rest) == rest
  {
    if rest.Ok? {
      assert [] + rest.value == rest.value;
    }
  }

  lemma PrependNothing(done: seq<Spec>)
    ensures Prepend(done, Ok([])) == Ok(done)
  {
    assert done + [] == done;
  }

  lemma PrependStep(done: seq<Spec>, ts: seq<GgufFile.Tensor>)
    requires ts != []
    ensures ts[0].name == ROPE ==> ProjectAll(ts) == ProjectAll(ts[1..])
    ensures ts[0].name != ROPE && Project(ts[0]).Err? ==> Prepend(done, ProjectAll(ts)) == Err(Project(ts[0]).error)
    ensures ts[0].name != ROPE && Project(ts[0]).Ok? ==>
              Prepend(done, ProjectAll(ts)) == Prepend(done + [Project(ts[0]).value], ProjectAll(ts[1..]))
  {
    hide Project;
    if ts[0].name != ROPE && Project(ts[0]).Ok? && ProjectAll(ts[1..]).Ok? {
      ConcatAssociative(done, [Project(ts[0]).value], ProjectAll(ts[1..]).value);
    }
  }

  lemma {:induction false} PrecisionsOfLast(specs: seq<Spec>, last: Spec, precisions: seq<string>)
    ensures PrecisionsOf(specs + [last], precisions) == AddPrecision(PrecisionsOf(specs, precisions), last.dtype)
  {
    if specs == [] {
      assert ([last])[1..] == [];
    } else {
      assert (specs + [last])[1..] == specs[1..] + [last];
      PrecisionsOfLast(specs[1..], last, AddPrecision(precisions, specs[0].dtype));
    }
  }

  // ---------------------------------------------------------------- require_inventory

  predicate NamesDistinct(specs: seq<Spec>) {
    forall i, j :: 0 <= i < j < |specs| ==> specs[i].name != specs[j].name
  }

  /** What `require_inventory` accepts. */
  predicate Matches(expected: seq<Spec>, precisions: seq<string>, found: seq<Spec>) {
    && NamesDistinct(found) && NamesDistinct(expected)
    && (forall s <- expected :: s in found && s.dtype in precisions)
    && (forall s <- found :: exists e <- expected :: e.name == s.name)
  }

  /** The map of what was found lists every name with its tensor. */
  predicate Indexes(seen: map<string, Spec>, found: seq<Spec>) {
    && (forall n <- seen :: seen[n] in found && seen[n].name == n)
    && (forall s <- found :: s.name in seen && seen[s.name] == s)
  }

  lemma IndexOneMore(seen: map<string, Spec>, done: seq<Spec>, s: Spec)
    requires Indexes(seen, done) && NamesDistinct(done)
    ensures NamesDistinct(done + [s]) <==> s.name !in seen
    ensures s.name !in seen ==> Indexes(seen[s.name := s], done + [s])
  {
    var grown := done + [s];
    assert forall k :: 0 <= k < |done| ==> grown[k] == done[k] && done[k] in done;
    if s.name in seen {
      var k :| 0 <= k < |done| && done[k] == seen[s.name];
      assert grown[k].name == grown[|done|].name;
    }
  }

  lemma DistinctPrefix(specs: seq<Spec>, n: nat)
    requires n <= |specs|
    ensures NamesDistinct(specs) ==> NamesDistinct(specs[..n])
  {
  }

  method IndexByName(found: seq<Spec>) returns (r: Result<map<string, Spec>, Error>)
    ensures r.Ok? <==> NamesDistinct(found)
    ensures r.Ok? ==> Indexes(r.value, found)
  {
    var seen: map<string, Spec> := map[];
    assert NamesDistinct([]) && Indexes(seen, []);
    hide Indexes, NamesDistinct;
    for i := 0 to |found|
      invariant NamesDistinct(found[..i]) && Indexes(seen, found[..i])
    {
      assert found[..i + 1] == found[..i] + [found[i]];
      IndexOneMore(seen, found[..i], found[i]);
      DistinctPrefix(found, i + 1);
      if found[i].name in seen {
        return Err(DuplicateTensor);
      }
      seen := seen[found[i].name := found[i]];
    }
    assert found[..|found|] == found;
    return Ok(seen);
  }

  /** The loop over the expected tensors; it returns their names. */
  method CheckExpected(expected: seq<Spec>, precisions: seq<string>, seen: map<string, Spec>)
    returns (r: Result<set<string>, Error>)
    requires forall n <- seen :: seen[n].name == n
    ensures r.Ok? <==> NamesDistinct(expected)
                       && forall s <- expected :: s.name in seen && seen[s.name] == s && s.dtype in precisions
    ensures r.Ok? ==> forall n :: n in r.value <==> exists e <- expected :: e.name == n
  {
    var names: set<string> := {};
    for i := 0 to |expected|
      invariant NamesDistinct(expected[..i])
      invariant forall n :: n in names <==> exists e <- expected[..i] :: e.name == n
      invariant forall s <- expected[..i] :: s.name in seen && seen[s.name] == s && s.dtype in precisions
    {
      assert expected[..i + 1] == expected[..i] + [expected[i]];
      var spec := expected[i];
      assert spec in expected;
      if spec.name in names {
        var other :| other in expected[..i] && other.name == spec.name;
        return Err(DuplicateTensor);
      }
      assert forall k :: 0 <= k < i ==> expected[..i][k] in expected[..i];
      names := names + {spec.name};
      if spec.name !in seen {
        return Err(MissingTensor);
      }
      var actual := seen[spec.name];
      if actual.shape != spec.shape || actual.dtype != spec.dtype {
        return Err(SpecMismatch);
      }
      if spec.dtype !in precisions {
        return Err(PrecisionMissing);
      }
    }
    assert expected[..|expected|] == expected;
    return Ok(names);
  }

  lemma IndexedIsFound(seen: map<string, Spec>, found: seq<Spec>, s: Spec)
    requires Indexes(seen, found)
    ensures s.name in seen && seen[s.name] == s <==> s in found
  {
  }

  /** `require_inventory`: index what was found, look every expected tensor up, then look for the rest. */
  method RequireInventory(expected: seq<Spec>, precisions: seq<string>, found: seq<Spec>) returns (r: Outcome<Error>)
    ensures r.Pass? <==> Matches(expected, precisions, found)
  {
    hide Indexes, NamesDistinct;
    var indexed := IndexByName(found);
    if indexed.Err? {
      return Fail(indexed.error);
    }
    var seen := indexed.value;
    forall s: Spec
      ensures s.name in seen && seen[s.name] == s <==> s in found
    {
      IndexedIsFound(seen, found, s);
    }
    IndexNames(seen, found);
    var looked := CheckExpected(expected, precisions, seen);
    if looked.Err? {
      return Fail(looked.error);
    }
    var names := looked.value;
    var unseen := seen.Keys;
    while unseen != {}
      invariant unseen <= seen.Keys
      invariant forall n :: n in seen && n !in unseen ==> n in names
      decreases |unseen|
    {
      var name :| name in unseen;
      if name !in names {
        assert seen[name] in found;
        return Fail(UnexpectedTensor);
      }
      unseen := unseen - {name};
    }
    return Pass;
  }

  lemma IndexNames(seen: map<string, Spec>, found: seq<Spec>)
    requires Indexes(seen, found)
    ensures forall n <- seen :: seen[n].name == n && seen[n] in found
  {
  }

  // ---------------------------------------------------------------- the two paths agree

  function SpecName(s: Spec): seq<Byte> {
    Utf8.Encode(s.name)
  }

  /** The inventory as `build_image` stores it. */
  function Stored(inventory: seq<Spec>): seq<Spec> {
    Sort(inventory, SpecName)
  }

  lemma {:induction false} PrecisionsKept(specs: seq<Spec>, precisions: seq<string>)
    ensures forall p <- precisions :: p in PrecisionsOf(specs, precisions)
    ensures forall s <- specs :: s.dtype in PrecisionsOf(specs, precisions)
  {
    if specs != [] {
      PrecisionsKept(specs[1..], AddPrecision(precisions, specs[0].dtype));
      assert forall s :: s in specs <==> s == specs[0] || s in specs[1..];
    }
  }

  lemma HeadPrecision(specs: seq<Spec>, precisions: seq<string>)
    requires forall s <- specs :: s.dtype in precisions
    ensures forall s <- WithHead(specs) :: s.dtype in precisions
  {
  }

  /** Adding the tied head never makes two names equal. */
  lemma HeadKeepsNamesDistinct(specs: seq<Spec>)
    ensures NamesDistinct(WithHead(specs)) <==> NamesDistinct(specs)
  {
    var all := WithHead(specs);
    if all != specs {
      assert forall i :: 0 <= i < |specs| ==> all[i] == specs[i] && specs[i].name != HEAD by {
        assert forall s <- specs :: s.name != HEAD;
      }
    }
  }

  lemma DistinctIsMultiset(specs: seq<Spec>)
    ensures NamesDistinct(specs) <==> DistinctBy(specs, SpecName)
  {
    hide Utf8.Encode;
    if NamesDistinct(specs) {
      forall i, j | 0 <= i < j < |specs|
        ensures SpecName(specs[i]) != SpecName(specs[j])
      {
        if SpecName(specs[i]) == SpecName(specs[j]) {
          Utf8.EncodeInjective(specs[i].name, specs[j].name);
        }
      }
    }
  }

  lemma SortedNamesDistinct(specs: seq<Spec>)
    requires NamesDistinct(specs)
    ensures NamesDistinct(Stored(specs))
  {
    hide Utf8.Encode, Sort, Less;
    DistinctIsMultiset(specs);
    SortDistinct(specs, SpecName);
    var r := Stored(specs);
    forall i, j | 0 <= i < j < |r|
      ensures r[i].name != r[j].name
    {
      LessIrreflexive(SpecName(r[i]));
    }
  }

  /**
   Whatever GGUF file both paths accept, the stored manifest inventory passes
   `require_inventory` against the projection exactly when the canonical names of the
   tensors are pairwise distinct; the tied head matches on both sides.
   */
  lemma ManifestMatchesProjection(ts: seq<GgufFile.Tensor>)
    requires ProjectAll(ts).Ok?
    ensures var m := ManifestOf(ts).value;
            Matches(Stored(m.inventory), m.precisions, WithHead(ProjectAll(ts).value))
            <==> NamesDistinct(ProjectAll(ts).value)
  {
    hide Sort, ProjectAll, WithHead, Utf8.Encode;
    var specs := ProjectAll(ts).value;
    var m, all := ManifestOf(ts).value, WithHead(specs);
    HeadKeepsNamesDistinct(specs);
    SortKeeps(all, SpecName);
    SameMembers(Stored(all), all);
    PrecisionsKept(specs, []);
    SortKeeps(PrecisionsOf(specs, []), Utf8.Encode);
    SameMembers(m.precisions, PrecisionsOf(specs, []));
    HeadPrecision(specs, m.precisions);
    if NamesDistinct(all) {
      SortedNamesDistinct(all);
      assert forall s <- all :: s in Stored(all);
    }
  }

  // ---------------------------------------------------------------- when names are distinct

  predicate TensorNamesDistinct(ts: seq<GgufFile.Tensor>) {
    forall i, j :: 0 <= i < j < |ts| ==> ts[i].name != ts[j].name
  }

  predicate AllGgml(ts: seq<GgufFile.Tensor>) {
    forall t <- ts :: t.name == ROPE || MapGgml(t.name).Some?
  }

  lemma {:induction false} ProjectedFrom(ts: seq<GgufFile.Tensor>, i: nat) returns (k: nat)
    requires ProjectAll(ts).Ok? && i < |ProjectAll(ts).value|
    ensures i <= k < |ts| && ts[k].name != ROPE && Project(ts[k]) == Ok(ProjectAll(ts).value[i])
  {
    hide Project;
    if ts[0].name == ROPE {
      k := ProjectedFrom(ts[1..], i);
      k := k + 1;
    } else if i == 0 {
      k := 0;
    } else {
      k := ProjectedFrom(ts[1..], i - 1);
      k := k + 1;
    }
  }

  lemma {:induction false} ProjectedInOrder(ts: seq<GgufFile.Tensor>, i: nat, j: nat) returns (k: nat, l: nat)
    requires ProjectAll(ts).Ok? && i < j < |ProjectAll(ts).value|
    ensures k < l < |ts| && ts[k].name != ROPE && ts[l].name != ROPE
    ensures Project(ts[k]) == Ok(ProjectAll(ts).value[i]) && Project(ts[l]) == Ok(ProjectAll(ts).value[j])
  {
    hide Project;
    if ts[0].name == ROPE {
      k, l := ProjectedInOrder(ts[1..], i, j);
      k, l := k + 1, l + 1;
    } else if i == 0 {
      k := 0;
      l := ProjectedFrom(ts[1..], j - 1);
      l := l + 1;
    } else {
      k, l := ProjectedInOrder(ts[1..], i - 1, j - 1);
      k, l := k + 1, l + 1;
    }
  }

  /** A file whose tensors all carry llama.cpp names has distinct canonical names. */
  lemma GgmlNamesStayDistinct(ts: seq<GgufFile.Tensor>)
    requires ProjectAll(ts).Ok? && TensorNamesDistinct(ts) && AllGgml(ts)
    ensures NamesDistinct(ProjectAll(ts).value)
  {
    hide MapGgml, ProjectAll;
    var specs := ProjectAll(ts).value;
    forall i, j | 0 <= i < j < |specs|
      ensures specs[i].name != specs[j].name
    {
      var k, l := ProjectedInOrder(ts, i, j);
      assert ts[k] in ts && ts[l] in ts;
      if specs[i].name == specs[j].name {
        MapGgmlInjective(ts[k].name, ts[l].name);
      }
    }
  }

  lemma {:induction false} ProjectedTo(ts: seq<GgufFile.Tensor>, k: nat) returns (i: nat)
    requires ProjectAll(ts).Ok? && k < |ts| && ts[k].name != ROPE
    ensures i < |ProjectAll(ts).value| && Project(ts[k]) == Ok(ProjectAll(ts).value[i])
  {
    hide Project;
    if ts[0].name == ROPE {
      i := ProjectedTo(ts[1..], k - 1);
    } else if k == 0 {
      i := 0;
    } else {
      i := ProjectedTo(ts[1..], k - 1);
      i := i + 1;
    }
  }

  lemma {:induction false} ProjectedBoth(ts: seq<GgufFile.Tensor>, k: nat, l: nat) returns (i: nat, j: nat)
    requires ProjectAll(ts).Ok? && k < l < |ts| && ts[k].name != ROPE && ts[l].name != ROPE
    ensures i < j < |ProjectAll(ts).value|
    ensures Project(ts[k]) == Ok(ProjectAll(ts).value[i]) && Project(ts[l]) == Ok(ProjectAll(ts).value[j])
  {
    hide Project;
    if ts[0].name == ROPE {
      i, j := ProjectedBoth(ts[1..], k - 1, l - 1);
    } else if k == 0 {
      i := 0;
      j := ProjectedTo(ts[1..], l - 1);
      j := j + 1;
    } else {
      i, j := ProjectedBoth(ts[1..], k - 1, l - 1);
      i, j := i + 1, j + 1;
    }
  }

  /** No tensor has the Knolo name of another tensor of the file. */
  predicate SchemesApart(ts: seq<GgufFile.Tensor>) {
    forall t <- ts, u <- ts :: MapGgml(t.name) != Some(u.name)
  }

  lemma CollidingNames(ts: seq<GgufFile.Tensor>, t: GgufFile.Tensor, u: GgufFile.Tensor)
    requires ProjectAll(ts).Ok? && t in ts && u in ts && MapGgml(t.name) == Some(u.name)
    ensures !NamesDistinct(ProjectAll(ts).value)
  {
    hide MapGgml, ProjectAll, KnoloName;
    MappedIsKnolo(t.name);
    KnoloIsNotGgml(u.name);
    RopeIsNeither();
    var k :| 0 <= k < |ts| && ts[k] == t;
    var l :| 0 <= l < |ts| && ts[l] == u;
    if k < l {
      var i, j := ProjectedBoth(ts, k, l);
    } else {
      var i, j := ProjectedBoth(ts, l, k);
    }
  }

  lemma RopeIsNeither()
    ensures MapGgml(ROPE).None? && !KnoloName(ROPE)
  {
  }

  /**
   Canonical names of distinct tensor names are distinct exactly when the file does not name
   one tensor in the llama.cpp scheme and another with the Knolo name it stands for.
   */
  lemma NamesDistinctExactly(ts: seq<GgufFile.Tensor>)
    requires ProjectAll(ts).Ok? && TensorNamesDistinct(ts)
    ensures NamesDistinct(ProjectAll(ts).value) <==> SchemesApart(ts)
  {
    hide MapGgml, ProjectAll, KnoloName;
    if !SchemesApart(ts) {
      var t, u :| t in ts && u in ts && MapGgml(t.name) == Some(u.name);
      CollidingNames(ts, t, u);
    } else {
      var specs := ProjectAll(ts).value;
      forall i, j | 0 <= i < j < |specs|
        ensures specs[i].name != specs[j].name
      {
        var k, l := ProjectedInOrder(ts, i, j);
        assert ts[k] in ts && ts[l] in ts;
        if specs[i].name == specs[j].name && MapGgml(ts[k].name).Some? && MapGgml(ts[l].name).Some? {
          MapGgmlInjective(ts[k].name, ts[l].name);
        }
      }
    }
  }

  /** One tensor under each of the two names of the embedding. */
  const MIXED: seq<GgufFile.Tensor> :=
    [GgufFile.Tensor("token_embd.weight", GgufTypes.F32, [1], 0, [1, 0, 0, 0]),
     GgufFile.Tensor("embed.weight", GgufTypes.F32, [1], 32, [2, 0, 0, 0])]

  /** Both tensors project, and the manifest made from them never matches the projection. */
  lemma MixedNamesCollide()
    ensures TensorNamesDistinct(MIXED) && ProjectAll(MIXED).Ok?
    ensures var m := ManifestOf(MIXED).value;
            !Matches(Stored(m.inventory), m.precisions, WithHead(ProjectAll(MIXED).value))
  {
    hide Matches, Sort, WithHead, PrecisionsOf, ManifestOf;
    var t, u := MIXED[0], MIXED[1];
    assert MapGgml(t.name) == Some(u.name);
    KnoloIsNotGgml(u.name);
    assert Reverse([1]) == [1] by {
      assert Reverse<nat>([]) == [] && [1][1..] == [];
    }
    assert Project(t).Ok? && Project(u).Ok?;
    assert MIXED[1..] == [u] && [u][1..] == [];
    assert ProjectAll([u]).Ok?;
    CollidingNames(MIXED, t, u);
    ManifestMatchesProjection(MIXED);
  }

  lemma {:induction false} InfoNamesDistinct(ts: seq<GgufFile.Tensor>, seen: set<string>, runCaps: bool)
    requires GgufHeader.ValidInfos(GgufFile.InfosOf(ts), seen, runCaps)
    ensures TensorNamesDistinct(ts) && forall t <- ts :: t.name !in seen
    decreases |ts|
  {
    hide GgufTypes.CheckTensorName, GgufTypes.NBytes;
    if ts != [] {
      var infos := GgufFile.InfosOf(ts);
      assert infos[0].name == ts[0].name && infos[1..] == GgufFile.InfosOf(ts[1..]);
      InfoNamesDistinct(ts[1..], seen + {ts[0].name}, runCaps);
      forall i, j | 0 <= i < j < |ts|
        ensures ts[i].name != ts[j].name
      {
        assert ts[j] == ts[1..][j - 1] && ts[j] in ts[1..];
        if i > 0 {
          assert ts[i] == ts[1..][i - 1];
        }
      }
      assert forall t :: t in ts <==> t == ts[0] || t in ts[1..];
    }
  }

  /**
   For every GGUF file that parses and projects, the stored manifest inventory matches the
   projection exactly when the file keeps the two naming schemes apart.
   */
  lemma ParsedFileMatches(bytes: seq<Byte>, maxFile: nat, runCaps: bool, f: GgufFile.File)
    requires GgufFile.ParseMax(bytes, maxFile, runCaps) == Ok(f) && ProjectAll(f.tensors).Ok?
    ensures var m := ManifestOf(f.tensors).value;
            Matches(Stored(m.inventory), m.precisions, WithHead(ProjectAll(f.tensors).value))
            <==> SchemesApart(f.tensors)
  {
    hide GgufFile.ParseMax, GgufHeader.ValidInfos, ProjectAll, WithHead, Sort, GgufFile.HeaderOf, Matches, SchemesApart;
    GgufFile.ParseMeaning(bytes, maxFile, runCaps, f);
    InfoNamesDistinct(f.tensors, {}, runCaps);
    NamesDistinctExactly(f.tensors);
    ManifestMatchesProjection(f.tensors);
  }

  /**
   A GGUF file that parses and names its tensors as llama.cpp does always yields a manifest
   whose inventory matches its projection; only a file that mixes both naming schemes can fail.
   */
  lemma ParsedGgmlFileMatches(bytes: seq<Byte>, maxFile: nat, runCaps: bool, f: GgufFile.File)
    requires GgufFile.ParseMax(bytes, maxFile, runCaps) == Ok(f)
    requires ProjectAll(f.tensors).Ok? && AllGgml(f.tensors)
    ensures var m := ManifestOf(f.tensors).value;
            Matches(Stored(m.inventory), m.precisions, WithHead(ProjectAll(f.tensors).value))
  {
    hide GgufFile.ParseMax, GgufHeader.ValidInfos, ProjectAll, WithHead, Sort, GgufFile.HeaderOf, Matches;
    GgufFile.ParseMeaning(bytes, maxFile, runCaps, f);
    InfoNamesDistinct(f.tensors, {}, runCaps);
    GgmlNamesStayDistinct(f.tensors);
    ManifestMatchesProjection(f.tensors);
  }
}
