/**
 The corruption campaign of `fuzz.rs`: six mutations of every seed, a probe that identifies
 buffers, and what the counters say when no corruption was accepted.
 */
module Fuzz {
  import opened Wrappers
  import opened Bytes
  import Cbor

  const MAX_SEED_BYTES: nat := 4096
  const MUTATIONS_PER_SEED: nat := 6

  const TARGETS: seq<string> :=
    ["cbor", "kmodel", "gguf", "safetensors", "template", "tokenizer", "api", "ipc", "receipt"]

  datatype Seed = Seed(target: string, seedLabel: string, bytes: seq<Byte>)

  /** The identity of a buffer of a target, or nothing when the buffer is rejected. */
  type Probe = (string, seq<Byte>) -> Option<seq<Byte>>

  datatype Error =
    | NotNineTargets | UnknownTarget | WrongOrder | LabelMismatch | EmptySeed | SeedTooLarge
    | SeedRejected(target: string)
    | CorruptionAccepted(target: string)

  datatype Tally = Tally(rejected: nat, distinguished: nat)

  // ---------------------------------------------------------------- mutations

  function FlipLowBit(b: Byte): (r: Byte)
    ensures r != b
  {
    if b % 2 == 0 then b + 1 else b - 1
  }

  function FlipAllBits(b: Byte): (r: Byte)
    ensures r != b
  {
    255 - b
  }

  /** What the six mutations of a seed are. */
  predicate IsMutation(seed: seq<Byte>, m: seq<Byte>) {
    || m == []
    || (seed != [] && m == seed[..|seed| - 1])
    || (seed != [] && m == seed[0 := FlipLowBit(seed[0])])
    || (seed != [] && m == seed[|seed| - 1 := FlipLowBit(seed[|seed| - 1])])
    || m == seed + [0xff]
    || (seed != [] && m == seed[|seed| / 2 := FlipAllBits(seed[|seed| / 2])])
  }

  function Mutations(seed: seq<Byte>): (ms: seq<seq<Byte>>)
    ensures |ms| == MUTATIONS_PER_SEED
  {
    if seed == [] then [[], [], [], [], [0xff], []]
    else
      var last := |seed| - 1;
      [[], seed[..last], seed[0 := FlipLowBit(seed[0])], seed[last := FlipLowBit(seed[last])],
       seed + [0xff], seed[|seed| / 2 := FlipAllBits(seed[|seed| / 2])]]
  }

  /** The bit of weight `p`. */
  function Bit(b: Byte, p: nat): nat
    requires p > 0
  {
    b / p % 2
  }

  /** One edit turns the lowest bit and no other; the other edit turns all eight. */
  lemma FlipMeaning(b: Byte)
    ensures Bit(FlipLowBit(b), 1) != Bit(b, 1) && FlipLowBit(b) / 2 == b / 2
    ensures forall p :: p in {1, 2, 4, 8, 16, 32, 64, 128} ==> Bit(FlipAllBits(b), p) != Bit(b, p)
  {
    hide Bit;
    TurnedLow(b);
    TurnedHigh(b);
    forall p | p in {1, 2, 4, 8, 16, 32, 64, 128}
      ensures Bit(FlipAllBits(b), p) != Bit(b, p)
    {
      assert p == 1 || p == 2 || p == 4 || p == 8 || p == 16 || p == 32 || p == 64 || p == 128;
    }
  }

  lemma TurnedLow(b: Byte)
    ensures Bit(FlipLowBit(b), 1) != Bit(b, 1) && FlipLowBit(b) / 2 == b / 2
    ensures Bit(FlipAllBits(b), 1) != Bit(b, 1) && Bit(FlipAllBits(b), 2) != Bit(b, 2)
    ensures Bit(FlipAllBits(b), 4) != Bit(b, 4) && Bit(FlipAllBits(b), 8) != Bit(b, 8)
  {
    var r: int := FlipAllBits(b);
    assert r / 2 == 127 - b / 2 && r / 4 == 63 - b / 4 && r / 8 == 31 - b / 8;
  }

  lemma TurnedHigh(b: Byte)
    ensures Bit(FlipAllBits(b), 16) != Bit(b, 16) && Bit(FlipAllBits(b), 32) != Bit(b, 32)
    ensures Bit(FlipAllBits(b), 64) != Bit(b, 64) && Bit(FlipAllBits(b), 128) != Bit(b, 128)
  {
    var r: int := FlipAllBits(b);
    assert r / 16 == 15 - b / 16 && r / 32 == 7 - b / 32 && r / 64 == 3 - b / 64 && r / 128 == 1 - b / 128;
  }

  /** No mutation of a seed with content is the seed. */
  lemma MutationsDiffer(seed: seq<Byte>, i: nat)
    requires seed != [] && i < MUTATIONS_PER_SEED
    ensures Mutations(seed)[i] != seed && IsMutation(seed, Mutations(seed)[i])
  {
    var m := Mutations(seed)[i];
    var last, middle := |seed| - 1, |seed| / 2;
    assert i == 2 ==> m[0] != seed[0];
    assert i == 3 ==> m[last] != seed[last];
    assert i == 5 ==> m[middle] != seed[middle];
  }

  /** `fuzz_mutations`: copies of the seed, each edited in place. */
  method FuzzMutations(seed: seq<Byte>) returns (ms: seq<seq<Byte>>)
    ensures ms == Mutations(seed)
  {
    var truncated := seed;
    if truncated != [] {
      truncated := truncated[..|truncated| - 1];
    }
    var first := seed;
    if first != [] {
      first := first[0 := FlipLowBit(first[0])];
    }
    var last := seed;
    if last != [] {
      last := last[|last| - 1 := FlipLowBit(last[|last| - 1])];
    }
    var appended := seed + [0xff];
    var middle := seed;
    if middle != [] {
      var index := |middle| / 2;
      middle := middle[index := FlipAllBits(middle[index])];
    }
    assert seed == [] ==> appended == [0xff];
    ms := [[], truncated, first, last, appended, middle];
  }

  // ---------------------------------------------------------------- counting

  function CheckSeed(seed: Seed, expected: string): Outcome<Error> {
    if seed.target !in TARGETS then Fail(UnknownTarget)
    else if seed.target != expected then Fail(WrongOrder)
    else if seed.seedLabel != seed.target then Fail(LabelMismatch)
    else if seed.bytes == [] then Fail(EmptySeed)
    else if |seed.bytes| > MAX_SEED_BYTES then Fail(SeedTooLarge)
    else Pass
  }

  function CheckSeeds(seeds: seq<Seed>, expected: seq<string>): Outcome<Error>
    requires |seeds| == |expected|
  {
    if seeds == [] then Pass
    else
      match CheckSeed(seeds[0], expected[0])
      case Fail(error) => Fail(error)
      case Pass => CheckSeeds(seeds[1..], expected[1..])
  }

  /** The mutations of one seed, counted from `tally` on. */
  function CountMutations(probe: Probe, target: string, origin: seq<Byte>, ms: seq<seq<Byte>>, tally: Tally)
    : Result<Tally, Error>
  {
    if ms == [] then Ok(tally)
    else
      match probe(target, ms[0])
      case None => CountMutations(probe, target, origin, ms[1..], tally.(rejected := tally.rejected + 1))
      case Some(identity) =>
        if identity == origin then Err(CorruptionAccepted(target))
        else CountMutations(probe, target, origin, ms[1..], tally.(distinguished := tally.distinguished + 1))
  }

  function CountSeeds(probe: Probe, seeds: seq<Seed>, tally: Tally): Result<Tally, Error> {
    if seeds == [] then Ok(tally)
    else
      var seed := seeds[0];
      match probe(seed.target, seed.bytes)
      case None => Err(SeedRejected(seed.target))
      case Some(origin) =>
        var next :- CountMutations(probe, seed.target, origin, Mutations(seed.bytes), tally);
        CountSeeds(probe, seeds[1..], next)
  }

  /** `assemble`, up to the report that records the two counts. */
  function Assemble(probe: Probe, seeds: seq<Seed>): Result<Tally, Error> {
    if |seeds| != |TARGETS| then Err(NotNineTargets)
    else
      match CheckSeeds(seeds, TARGETS)
      case Fail(error) => Err(error)
      case Pass => CountSeeds(probe, seeds, Tally(0, 0))
  }

  /** `assemble` as it runs: two counters, two nested loops, out at the first accepted corruption. */
  method RunCampaign(probe: Probe, seeds: seq<Seed>) returns (r: Result<Tally, Error>)
    ensures r == Assemble(probe, seeds)
  {
    hide Mutations, CheckSeed, TARGETS;
    if |seeds| != |TARGETS| {
      return Err(NotNineTargets);
    }
    assert seeds[0..] == seeds && TARGETS[0..] == TARGETS;
    for i := 0 to |seeds|
      invariant CheckSeeds(seeds, TARGETS) == CheckSeeds(seeds[i..], TARGETS[i..])
    {
      assert seeds[i..][1..] == seeds[i + 1..] && TARGETS[i..][1..] == TARGETS[i + 1..];
      var checked := CheckSeed(seeds[i], TARGETS[i]);
      if checked.Fail? {
        return Err(checked.error);
      }
    }
    var rejected: nat, distinguished: nat := 0, 0;
    for i := 0 to |seeds|
      invariant Assemble(probe, seeds) == CountSeeds(probe, seeds[i..], Tally(rejected, distinguished))
    {
      assert seeds[i..][0] == seeds[i] && seeds[i..][1..] == seeds[i + 1..];
      var target := seeds[i].target;
      var identified := probe(target, seeds[i].bytes);
      if identified.None? {
        return Err(SeedRejected(target));
      }
      var origin := identified.value;
      var mutations := FuzzMutations(seeds[i].bytes);
      ghost var before := Tally(rejected, distinguished);
      assert mutations[0..] == mutations;
      for j := 0 to |mutations|
        invariant CountMutations(probe, target, origin, mutations, before) ==
                  CountMutations(probe, target, origin, mutations[j..], Tally(rejected, distinguished))
      {
        assert mutations[j..][0] == mutations[j] && mutations[j..][1..] == mutations[j + 1..];
        match probe(target, mutations[j]) {
          case None => rejected := rejected + 1;
          case Some(identity) =>
            if identity == origin {
              return Err(CorruptionAccepted(target));
            }
            distinguished := distinguished + 1;
        }
      }
    }
    return Ok(Tally(rejected, distinguished));
  }

  // ---------------------------------------------------------------- what the counts mean

  function Rejections(probe: Probe, target: string, ms: seq<seq<Byte>>): nat {
    if ms == [] then 0 else (if probe(target, ms[0]).None? then 1 else 0) + Rejections(probe, target, ms[1..])
  }

  function AllRejections(probe: Probe, seeds: seq<Seed>): nat {
    if seeds == [] then 0
    else Rejections(probe, seeds[0].target, Mutations(seeds[0].bytes)) + AllRejections(probe, seeds[1..])
  }

  lemma {:induction false} CountMutationsMeaning(probe: Probe, target: string, origin: seq<Byte>,
                                                 ms: seq<seq<Byte>>, tally: Tally)
    ensures var r := CountMutations(probe, target, origin, ms, tally);
            && (r.Ok? <==> forall m <- ms :: probe(target, m) != Some(origin))
            && (r.Ok? ==> r.value.rejected == tally.rejected + Rejections(probe, target, ms))
            && (r.Ok? ==> r.value.rejected + r.value.distinguished == tally.rejected + tally.distinguished + |ms|)
            && (r.Err? ==> r.error == CorruptionAccepted(target))
    decreases |ms|
  {
    if ms != [] {
      assert forall m :: m in ms <==> m == ms[0] || m in ms[1..];
      var next := if probe(target, ms[0]).None? then tally.(rejected := tally.rejected + 1)
                  else tally.(distinguished := tally.distinguished + 1);
      CountMutationsMeaning(probe, target, origin, ms[1..], next);
    }
  }

  /** A seed stands when it is accepted and none of its mutations has its identity. */
  predicate Stands(probe: Probe, seed: Seed) {
    var origin := probe(seed.target, seed.bytes);
    origin.Some? && forall m <- Mutations(seed.bytes) :: probe(seed.target, m) != origin
  }

  lemma {:induction false} CountSeedsMeaning(probe: Probe, seeds: seq<Seed>, tally: Tally)
    ensures var r := CountSeeds(probe, seeds, tally);
            && (r.Ok? <==> forall s <- seeds :: Stands(probe, s))
            && (r.Ok? ==> r.value.rejected == tally.rejected + AllRejections(probe, seeds))
            && (r.Ok? ==> r.value.rejected + r.value.distinguished ==
                          tally.rejected + tally.distinguished + MUTATIONS_PER_SEED * |seeds|)
    decreases |seeds|
  {
    hide Mutations, Rejections, CountMutations;
    if seeds != [] {
      assert forall s :: s in seeds <==> s == seeds[0] || s in seeds[1..];
      var seed := seeds[0];
      assert seed in seeds;
      var identified := probe(seed.target, seed.bytes);
      if identified.Some? {
        var counted := CountMutations(probe, seed.target, identified.value, Mutations(seed.bytes), tally);
        CountMutationsMeaning(probe, seed.target, identified.value, Mutations(seed.bytes), tally);
        assert Some(identified.value) == identified;
        assert Stands(probe, seed) <==> counted.Ok?;
        if counted.Ok? {
          CountSeedsMeaning(probe, seeds[1..], counted.value);
        }
      }
    }
  }

  /**
   The campaign succeeds exactly when every seed stands; the counters then hold every
   mutation once, the rejected ones in the first.
   */
  lemma CampaignMeaning(probe: Probe, seeds: seq<Seed>)
    requires |seeds| == |TARGETS| && CheckSeeds(seeds, TARGETS).Pass?
    ensures var r := Assemble(probe, seeds);
            && (r.Ok? <==> forall s <- seeds :: Stands(probe, s))
            && (r.Ok? ==> r.value.rejected == AllRejections(probe, seeds))
            && (r.Ok? ==> r.value.rejected + r.value.distinguished == 54)
  {
    hide Stands, AllRejections, CountSeeds;
    CountSeedsMeaning(probe, seeds, Tally(0, 0));
  }

  /** The seeds of a campaign: one for each of the nine targets in order, of 1 to 4096 bytes. */
  lemma {:induction false} SeedsMeaning(seeds: seq<Seed>, expected: seq<string>)
    requires |seeds| == |expected|
    ensures CheckSeeds(seeds, expected).Pass? <==>
            forall i :: 0 <= i < |seeds| ==>
              && seeds[i].target == seeds[i].seedLabel == expected[i] && expected[i] in TARGETS
              && 1 <= |seeds[i].bytes| <= 4096
  {
    if seeds != [] {
      SeedsMeaning(seeds[1..], expected[1..]);
      assert forall i :: 0 < i < |seeds| ==> seeds[i] == seeds[1..][i - 1] && expected[i] == expected[1..][i - 1];
    }
  }

  lemma CampaignSeeds(probe: Probe, seeds: seq<Seed>)
    requires Assemble(probe, seeds).Ok?
    ensures |seeds| == 9 && seeds[0].target == "cbor" && seeds[1].target == "kmodel" && seeds[2].target == "gguf"
    ensures seeds[3].target == "safetensors" && seeds[4].target == "template" && seeds[5].target == "tokenizer"
    ensures seeds[6].target == "api" && seeds[7].target == "ipc" && seeds[8].target == "receipt"
  {
    hide CountSeeds;
    SeedsMeaning(seeds, TARGETS);
  }

  // ---------------------------------------------------------------- faithful probes

  /** What the live probe does for the `cbor` target: decode, then write the value out again. */
  function CborIdentity(bytes: seq<Byte>): Option<seq<Byte>> {
    match Cbor.Decode(bytes)
    case Ok(v) => Some(Cbor.Encode(v))
    case Err(_) => None
  }

  /** An identity that no two accepted buffers of the target share. */
  ghost predicate FaithfulFor(probe: Probe, target: string) {
    forall a, b :: probe(target, a).Some? && probe(target, a) == probe(target, b) ==> a == b
  }

  lemma FaithfulStands(probe: Probe, seed: Seed)
    requires FaithfulFor(probe, seed.target) && seed.bytes != []
    ensures Stands(probe, seed) <==> probe(seed.target, seed.bytes).Some?
  {
    hide Mutations;
    var ms := Mutations(seed.bytes);
    forall m | m in ms && probe(seed.target, seed.bytes).Some?
      ensures probe(seed.target, m) != probe(seed.target, seed.bytes)
    {
      var i :| 0 <= i < |ms| && ms[i] == m;
      MutationsDiffer(seed.bytes, i);
    }
  }

  /** The value of a canonical document determines its bytes, so the CBOR probe is faithful. */
  lemma CborIsFaithful(probe: Probe)
    requires forall bytes :: probe("cbor", bytes) == CborIdentity(bytes)
    ensures FaithfulFor(probe, "cbor")
  {
    hide Cbor.Decode, Cbor.Encode;
    forall a, b | probe("cbor", a).Some? && probe("cbor", a) == probe("cbor", b)
      ensures a == b
    {
      Cbor.DecodeExactlyEncoding(a, Cbor.Decode(a).value);
      Cbor.DecodeExactlyEncoding(b, Cbor.Decode(b).value);
    }
  }

  lemma {:induction false} NeverAcceptedFor(probe: Probe, seeds: seq<Seed>, target: string, tally: Tally)
    requires FaithfulFor(probe, target) && forall s <- seeds :: s.bytes != []
    ensures CountSeeds(probe, seeds, tally) != Err(CorruptionAccepted(target))
    decreases |seeds|
  {
    hide Mutations, CountMutations, FaithfulFor;
    if seeds != [] {
      var seed := seeds[0];
      var identified := probe(seed.target, seed.bytes);
      if identified.Some? {
        CountMutationsMeaning(probe, seed.target, identified.value, Mutations(seed.bytes), tally);
        if seed.target == target {
          FaithfulStands(probe, seed);
        }
        var counted := CountMutations(probe, seed.target, identified.value, Mutations(seed.bytes), tally);
        if counted.Ok? {
          NeverAcceptedFor(probe, seeds[1..], target, counted.value);
        }
      }
    }
  }

  lemma {:induction false} CheckedSeedsHaveBytes(seeds: seq<Seed>, expected: seq<string>)
    requires |seeds| == |expected| && CheckSeeds(seeds, expected).Pass?
    ensures forall s <- seeds :: s.bytes != []
  {
    if seeds != [] {
      CheckedSeedsHaveBytes(seeds[1..], expected[1..]);
      assert forall s :: s in seeds <==> s == seeds[0] || s in seeds[1..];
    }
  }

  /** With the live CBOR identity the campaign never reports an accepted CBOR corruption. */
  lemma CborCorruptionIsNeverAccepted(probe: Probe, seeds: seq<Seed>)
    requires forall bytes :: probe("cbor", bytes) == CborIdentity(bytes)
    ensures Assemble(probe, seeds) != Err(CorruptionAccepted("cbor"))
  {
    hide Cbor.Decode, Cbor.Encode, CountSeeds;
    CborIsFaithful(probe);
    if |seeds| == |TARGETS| {
      if CheckSeeds(seeds, TARGETS).Pass? {
        CheckedSeedsHaveBytes(seeds, TARGETS);
        NeverAcceptedFor(probe, seeds, "cbor", Tally(0, 0));
      } else {
        CheckErrors(seeds, TARGETS);
      }
    }
  }

  lemma {:induction false} CheckErrors(seeds: seq<Seed>, expected: seq<string>)
    requires |seeds| == |expected| && CheckSeeds(seeds, expected).Fail?
    ensures !CheckSeeds(seeds, expected).error.CorruptionAccepted?
  {
    if CheckSeed(seeds[0], expected[0]).Pass? {
      CheckErrors(seeds[1..], expected[1..]);
    }
  }

  /** With faithful identities for every target, the campaign succeeds on any accepted seeds. */
  lemma FaithfulCampaignSucceeds(probe: Probe, seeds: seq<Seed>)
    requires |seeds| == |TARGETS| && CheckSeeds(seeds, TARGETS).Pass?
    requires forall s <- seeds :: FaithfulFor(probe, s.target)
    ensures Assemble(probe, seeds).Ok? <==> forall s <- seeds :: probe(s.target, s.bytes).Some?
  {
    hide Stands, FaithfulFor, Assemble, AllRejections;
    CampaignMeaning(probe, seeds);
    CheckedSeedsHaveBytes(seeds, TARGETS);
    forall s | s in seeds
      ensures Stands(probe, s) <==> probe(s.target, s.bytes).Some?
    {
      FaithfulStands(probe, s);
    }
  }
}
