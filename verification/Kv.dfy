/**
 The single-block KV store as the source keeps it: one flat slab of floats per live
 sequence for K and one for V, indexed by `(layer * block_size + token) * width` and
 written in place. Every method is proved against the step of `KvSpec` it implements.
 */
module Kv {
  import opened Wrappers
  import opened KvSpec

  // ---------------------------------------------------------------- the slab index

  function Offset(layout: Layout, layer: nat, token: nat): nat {
    (layer * layout.blockSize + token) * layout.Width()
  }

  function Slots(layout: Layout): nat {
    layout.layers * layout.blockSize * layout.Width()
  }

  lemma MulLe(a: nat, b: nat, w: nat)
    requires a <= b
    ensures a * w <= b * w
  {
  }

  lemma MulStep(a: nat, w: nat)
    ensures (a + 1) * w == a * w + w
  {
  }

  /** The slot of a valid layer and token lies inside the slab. */
  lemma OffsetInSlab(layout: Layout, layer: nat, token: nat)
    requires layer < layout.layers && token < layout.blockSize
    ensures Offset(layout, layer, token) + layout.Width() <= Slots(layout)
  {
    var i, b := layer * layout.blockSize + token, layout.blockSize;
    MulLe(layer + 1, layout.layers, b);
    MulStep(layer, b);
    assert i + 1 <= layout.layers * b;
    MulLe(i + 1, layout.layers * b, layout.Width());
    MulStep(i, layout.Width());
  }

  lemma IndexInjective(b: nat, l1: nat, t1: nat, l2: nat, t2: nat)
    requires t1 < b && t2 < b && l1 < l2
    ensures l1 * b + t1 < l2 * b + t2
  {
    MulLe(l1 + 1, l2, b);
    MulStep(l1, b);
  }

  /** Slots of different layers or tokens never share a float. */
  lemma SlotsDisjoint(layout: Layout, l1: nat, t1: nat, l2: nat, t2: nat)
    requires t1 < layout.blockSize && t2 < layout.blockSize && (l1, t1) != (l2, t2)
    ensures Offset(layout, l1, t1) + layout.Width() <= Offset(layout, l2, t2)
         || Offset(layout, l2, t2) + layout.Width() <= Offset(layout, l1, t1)
  {
    var b, w := layout.blockSize, layout.Width();
    var i, j := l1 * b + t1, l2 * b + t2;
    if l1 < l2 {
      IndexInjective(b, l1, t1, l2, t2);
    } else if l2 < l1 {
      IndexInjective(b, l2, t2, l1, t1);
    }
    if i < j {
      MulLe(i + 1, j, w);
      MulStep(i, w);
    } else {
      MulLe(j + 1, i, w);
      MulStep(j, w);
    }
  }

  function SlotOf(layout: Layout, slab: seq<F32>, layer: nat, token: nat): Vector
    requires |slab| == Slots(layout) && layer < layout.layers && token < layout.blockSize
  {
    OffsetInSlab(layout, layer, token);
    slab[Offset(layout, layer, token)..Offset(layout, layer, token) + layout.Width()]
  }

  /** The vectors a slab holds. */
  function TableOf(layout: Layout, slab: seq<F32>): Table
    requires |slab| == Slots(layout)
  {
    seq(layout.layers, l requires 0 <= l < layout.layers =>
      seq(layout.blockSize, t requires 0 <= t < layout.blockSize => SlotOf(layout, slab, l, t)))
  }

  lemma TableShaped(layout: Layout, slab: seq<F32>)
    requires |slab| == Slots(layout)
    ensures Shaped(layout, TableOf(layout, slab))
  {
    forall l, t | 0 <= l < layout.layers && 0 <= t < layout.blockSize
      ensures |TableOf(layout, slab)[l][t]| == layout.Width()
    {
      OffsetInSlab(layout, l, t);
    }
  }

  lemma ZeroSlab(layout: Layout, slab: seq<F32>)
    requires |slab| == Slots(layout) && forall i :: 0 <= i < |slab| ==> slab[i] == 0
    ensures TableOf(layout, slab) == ZeroTable(layout)
  {
    var table, zero := TableOf(layout, slab), ZeroTable(layout);
    forall l | 0 <= l < layout.layers
      ensures table[l] == zero[l]
    {
      forall t | 0 <= t < layout.blockSize
        ensures table[l][t] == zero[l][t]
      {
        OffsetInSlab(layout, l, t);
        assert SlotOf(layout, slab, l, t) == ZeroVector(layout.Width());
      }
    }
  }

  /** Two slabs that agree everywhere but on the `width` floats at `start`. */
  predicate SameOutside(slab: seq<F32>, slab': seq<F32>, start: nat, width: nat) {
    && start + width <= |slab| == |slab'|
    && slab'[..start] == slab[..start]
    && slab'[start + width..] == slab[start + width..]
  }

  /** Overwriting one slot in place changes that entry of the table and no other. */
  lemma WriteSlot(layout: Layout, slab: seq<F32>, slab': seq<F32>, layer: nat, token: nat, values: Vector)
    requires |slab| == |slab'| == Slots(layout) && |values| == layout.Width()
    requires layer < layout.layers && token < layout.blockSize
    requires SameOutside(slab, slab', Offset(layout, layer, token), layout.Width())
    requires SlotOf(layout, slab', layer, token) == values
    ensures Shaped(layout, TableOf(layout, slab))
    ensures TableOf(layout, slab') == SetSlot(TableOf(layout, slab), layer, token, values)
  {
    TableShaped(layout, slab);
    var table, table' := TableOf(layout, slab), TableOf(layout, slab');
    var expected := SetSlot(table, layer, token, values);
    forall l | 0 <= l < layout.layers
      ensures table'[l] == expected[l]
    {
      forall t | 0 <= t < layout.blockSize
        ensures table'[l][t] == expected[l][t]
      {
        if (l, t) != (layer, token) {
          OtherSlotUnchanged(layout, slab, slab', layer, token, l, t);
        }
      }
    }
  }

  lemma OtherSlotUnchanged(layout: Layout, slab: seq<F32>, slab': seq<F32>, layer: nat, token: nat, l: nat, t: nat)
    requires |slab| == |slab'| == Slots(layout)
    requires layer < layout.layers && token < layout.blockSize && l < layout.layers && t < layout.blockSize
    requires (l, t) != (layer, token)
    requires SameOutside(slab, slab', Offset(layout, layer, token), layout.Width())
    ensures SlotOf(layout, slab', l, t) == SlotOf(layout, slab, l, t)
  {
    hide Offset, Slots, SameOutside, Layout.Width;
    SlotsDisjoint(layout, l, t, layer, token);
    OffsetInSlab(layout, l, t);
    OtherSlice(slab, slab', Offset(layout, layer, token), layout.Width(), Offset(layout, l, t));
  }

  lemma OtherSlice(slab: seq<F32>, slab': seq<F32>, o: nat, w: nat, p: nat)
    requires SameOutside(slab, slab', o, w)
    requires p + w <= o || o + w <= p <= p + w <= |slab|
    ensures p + w <= |slab| == |slab'| && slab'[p..p + w] == slab[p..p + w]
  {
    if p + w <= o {
      assert slab'[..o][p..p + w] == slab'[p..p + w];
    } else {
      var after := o + w;
      assert slab'[after..][p - after..p + w - after] == slab'[p..p + w];
      assert slab[after..][p - after..p + w - after] == slab[p..p + w];
    }
  }

  // ---------------------------------------------------------------- the store

  /** `copy_from_slice` out of one slot of a slab. */
  method CopyOut(layout: Layout, slab: array<F32>, layer: nat, token: nat, out: array<F32>)
    requires slab.Length == Slots(layout) && out.Length == layout.Width() && out != slab
    requires layer < layout.layers && token < layout.blockSize
    modifies out
    ensures out[..] == TableOf(layout, slab[..])[layer][token]
  {
    hide Slots, Offset;
    OffsetInSlab(layout, layer, token);
    var offset := Offset(layout, layer, token);
    ghost var expected := SlotOf(layout, slab[..], layer, token);
    forall i | 0 <= i < out.Length {
      out[i] := slab[offset + i];
    }
    assert out[..] == expected;
  }

  /** `copy_from_slice` into one slot of a slab. */
  method CopyInto(layout: Layout, slab: array<F32>, layer: nat, token: nat, values: Vector)
    requires slab.Length == Slots(layout) && |values| == layout.Width()
    requires layer < layout.layers && token < layout.blockSize
    modifies slab
    ensures Shaped(layout, TableOf(layout, old(slab[..])))
    ensures TableOf(layout, slab[..]) == SetSlot(TableOf(layout, old(slab[..])), layer, token, values)
  {
    hide Slots, Offset;
    OffsetInSlab(layout, layer, token);
    var offset := Offset(layout, layer, token);
    forall i | 0 <= i < |values| {
      slab[offset + i] := values[i];
    }
    assert SlotOf(layout, slab[..], layer, token) == values;
    WriteSlot(layout, old(slab[..]), slab[..], layer, token, values);
  }

  /** One live sequence: its block id, its committed length and its two slabs. */
  class SequenceState {
    const blockId: nat
    var len: nat
    const k: array<F32>
    const v: array<F32>

    /** The object holds the abstract sequence `q`. */
    ghost predicate Holds(layout: Layout, q: Sequence)
      reads this, k, v
    {
      && k != v && k.Length == v.Length == Slots(layout)
      && q == Sequence(blockId, len, TableOf(layout, k[..]), TableOf(layout, v[..]))
    }

    constructor (layout: Layout, blockId: nat)
      ensures Holds(layout, Sequence(blockId, 0, ZeroTable(layout), ZeroTable(layout)))
      ensures fresh(k) && fresh(v) && this.blockId == blockId
    {
      var slots := Slots(layout);
      this.blockId := blockId;
      len := 0;
      k := new F32[slots](_ => 0);
      v := new F32[slots](_ => 0);
      new;
      ZeroSlab(layout, k[..]);
      ZeroSlab(layout, v[..]);
    }

    method Len(layout: Layout, ghost q: Sequence) returns (n: nat)
      requires Holds(layout, q)
      ensures n == q.len
    {
      n := len;
    }

    method Advance(layout: Layout, ghost q: Sequence)
      requires Holds(layout, q)
      modifies this
      ensures Holds(layout, q.(len := q.len + 1))
    {
      len := len + 1;
    }

    method Put(layout: Layout, layer: nat, token: nat, values: Vector, key: bool, ghost q: Sequence)
      requires Holds(layout, q) && |values| == layout.Width()
      requires layer < layout.layers && token < layout.blockSize
      modifies k, v
      ensures Shaped(layout, q.k) && Shaped(layout, q.v)
      ensures Holds(layout, Updated(q, layer, token, values, key))
    {
      TableShaped(layout, k[..]);
      TableShaped(layout, v[..]);
      if key {
        CopyInto(layout, k, layer, token, values);
      } else {
        CopyInto(layout, v, layer, token, values);
      }
    }

    method Get(layout: Layout, layer: nat, token: nat, out: array<F32>, key: bool, ghost q: Sequence)
      requires Holds(layout, q) && out.Length == layout.Width() && out != k && out != v
      requires layer < layout.layers && token < layout.blockSize
      modifies out
      ensures Shaped(layout, q.k) && Shaped(layout, q.v)
      ensures out[..] == if key then q.k[layer][token] else q.v[layer][token]
    {
      TableShaped(layout, k[..]);
      TableShaped(layout, v[..]);
      CopyOut(layout, if key then k else v, layer, token, out);
    }
  }

  // ---------------------------------------------------------------- the steps, case by case

  function Begun(s: Store, id: nat): Store {
    s.(nextBlock := if s.nextBlock == U32_MAX then U32_MAX else s.nextBlock + 1,
       sequences := s.sequences[id := Sequence(s.nextBlock, 0, ZeroTable(s.layout), ZeroTable(s.layout))])
  }

  lemma BeginCases(s: Store, id: nat)
    requires WellFormed(s)
    ensures if id in s.sequences then Step(s, Begin(id)) == Err(AlreadyHasBlock)
            else if |s.sequences| >= MAX_SEQUENCES then Step(s, Begin(id)) == Err(StoreFull)
            else Step(s, Begin(id)) == Ok(Begun(s, id)) && WellFormed(Begun(s, id))
  {
    if Step(s, Begin(id)).Ok? {
      StepWellFormed(s, Begin(id));
    }
  }

  lemma ReleaseCases(s: Store, id: nat)
    requires WellFormed(s)
    ensures var s' := s.(sequences := s.sequences - {id});
            if id !in s.sequences then Step(s, Release(id)) == Err(NoBlock)
            else Step(s, Release(id)) == Ok(s') && WellFormed(s')
  {
    if id in s.sequences {
      StepWellFormed(s, Release(id));
    }
  }

  lemma CommitCases(s: Store, id: nat)
    requires WellFormed(s)
    ensures if id !in s.sequences then Step(s, Commit(id)) == Err(NoBlock)
            else if s.sequences[id].len >= s.layout.blockSize then Step(s, Commit(id)) == Err(BlockFull)
            else
              var q := s.sequences[id];
              var s' := s.(sequences := s.sequences[id := q.(len := q.len + 1)]);
              Step(s, Commit(id)) == Ok(s') && WellFormed(s')
  {
    if Step(s, Commit(id)).Ok? {
      StepWellFormed(s, Commit(id));
    }
  }

  function Updated(q: Sequence, layer: nat, token: nat, values: Vector, key: bool): Sequence
    requires layer < |q.k| && layer < |q.v| && token < |q.k[layer]| && token < |q.v[layer]|
  {
    if key then q.(k := SetSlot(q.k, layer, token, values)) else q.(v := SetSlot(q.v, layer, token, values))
  }

  lemma WriteCases(s: Store, id: nat, layer: nat, token: nat, values: Vector, key: bool)
    requires WellFormed(s)
    ensures var r := Step(s, Write(id, layer, token, values, key));
            if |values| != s.layout.Width() then r == Err(WidthMismatch)
            else if CheckSlot(s.layout, layer, token).Fail? then r == Err(CheckSlot(s.layout, layer, token).error)
            else if id !in s.sequences then r == Err(NoBlock)
            else if s.sequences[id].len != token then r == Err(NotOpenToken)
            else
              var q := s.sequences[id];
              && layer < |q.k| && layer < |q.v| && token < |q.k[layer]| && token < |q.v[layer]|
              && var s' := s.(sequences := s.sequences[id := Updated(q, layer, token, values, key)]);
              && r == Ok(s') && WellFormed(s')
  {
    if Step(s, Write(id, layer, token, values, key)).Ok? {
      StepWellFormed(s, Write(id, layer, token, values, key));
    }
  }

  // ---------------------------------------------------------------- the live sequences

  type States = map<nat, SequenceState>

  predicate Apart(a: SequenceState, b: SequenceState) {
    a != b && a.k != b.k && a.k != b.v && a.v != b.k && a.v != b.v
  }

  /** Every sequence has its own state object and slabs. */
  predicate AllApart(states: States) {
    forall i, j :: i in states && j in states && i != j ==> Apart(states[i], states[j])
  }

  predicate AllIn(states: States, repr: set<object>) {
    forall i <- states :: states[i] in repr && states[i].k in repr && states[i].v in repr
  }

  /** The objects hold what the model says. */
  ghost predicate AllHold(layout: Layout, states: States, model: map<nat, Sequence>, repr: set<object>)
    requires AllIn(states, repr)
    reads repr
  {
    && states.Keys == model.Keys
    && forall i <- states :: states[i].Holds(layout, model[i])
  }

  lemma AddState(layout: Layout, states: States, model: map<nat, Sequence>, repr: set<object>,
                 id: nat, state: SequenceState, q: Sequence)
    requires AllIn(states, repr) && AllApart(states) && AllHold(layout, states, model, repr)
    requires state !in repr && state.k !in repr && state.v !in repr && state.Holds(layout, q)
    ensures var repr', states' := repr + {state, state.k, state.v}, states[id := state];
            AllIn(states', repr') && AllApart(states') && AllHold(layout, states', model[id := q], repr')
  {
    hide SequenceState.Holds;
  }

  lemma DropState(layout: Layout, states: States, model: map<nat, Sequence>, repr: set<object>, id: nat)
    requires AllIn(states, repr) && AllApart(states) && AllHold(layout, states, model, repr)
    ensures AllIn(states - {id}, repr) && AllApart(states - {id})
    ensures AllHold(layout, states - {id}, model - {id}, repr)
  {
    hide SequenceState.Holds;
  }

  /** One sequence took a new value and the others still hold theirs. */
  lemma ChangeState(layout: Layout, states: States, model: map<nat, Sequence>, repr: set<object>, id: nat, q: Sequence)
    requires AllIn(states, repr) && id in states && states.Keys == model.Keys
    requires forall i <- states :: i != id ==> states[i].Holds(layout, model[i])
    requires states[id].Holds(layout, q)
    ensures AllHold(layout, states, model[id := q], repr)
  {
    hide SequenceState.Holds;
  }

  lemma SameKeys(layout: Layout, states: States, model: map<nat, Sequence>, repr: set<object>)
    requires AllIn(states, repr) && AllHold(layout, states, model, repr)
    ensures states.Keys == model.Keys
  {
  }

  lemma OwnsState(states: States, repr: set<object>, id: nat)
    requires AllIn(states, repr) && id in states
    ensures states[id] in repr && states[id].k in repr && states[id].v in repr
  {
  }

  method LenOf(layout: Layout, states: States, ghost model: map<nat, Sequence>, ghost repr: set<object>, id: nat)
    returns (n: nat)
    requires AllIn(states, repr) && AllHold(layout, states, model, repr) && id in states
    ensures n == model[id].len
  {
    hide SequenceState.Holds;
    n := states[id].Len(layout, model[id]);
  }

  method AdvanceAt(layout: Layout, states: States, ghost model: map<nat, Sequence>, ghost repr: set<object>, id: nat)
    requires AllIn(states, repr) && AllApart(states) && AllHold(layout, states, model, repr) && id in states
    modifies states[id]
    ensures AllHold(layout, states, model[id := model[id].(len := model[id].len + 1)], repr)
  {
    hide SequenceState.Holds;
    states[id].Advance(layout, model[id]);
    forall i | i in states && i != id
      ensures states[i].Holds(layout, model[i])
    {
      assert Apart(states[i], states[id]);
      assert old(states[i].Holds(layout, model[i]));
    }
    ChangeState(layout, states, model, repr, id, model[id].(len := model[id].len + 1));
  }

  method PutAt(layout: Layout, states: States, ghost model: map<nat, Sequence>, ghost repr: set<object>, id: nat,
               layer: nat, token: nat, values: Vector, key: bool)
    requires AllIn(states, repr) && AllApart(states) && AllHold(layout, states, model, repr) && id in states
    requires |values| == layout.Width() && layer < layout.layers && token < layout.blockSize
    modifies states[id].k, states[id].v
    ensures Shaped(layout, model[id].k) && Shaped(layout, model[id].v)
    ensures AllHold(layout, states, model[id := Updated(model[id], layer, token, values, key)], repr)
  {
    hide SequenceState.Holds, Updated;
    states[id].Put(layout, layer, token, values, key, model[id]);
    forall i | i in states && i != id
      ensures states[i].Holds(layout, model[i])
    {
      assert Apart(states[i], states[id]);
      assert old(states[i].Holds(layout, model[i]));
    }
    ChangeState(layout, states, model, repr, id, Updated(model[id], layer, token, values, key));
  }

  class SingleBlockKv {
    const layout: Layout
    var nextBlock: nat
    var sequences: map<nat, SequenceState>

    /** The store this object represents, and the objects it is made of. */
    ghost var Model: Store
    ghost var Repr: set<object>

    ghost predicate Valid()
      reads this, Repr
    {
      && this !in Repr
      && WellFormed(Model) && Model.layout == layout && Model.nextBlock == nextBlock
      && AllIn(sequences, Repr) && AllApart(sequences)
      && AllHold(layout, sequences, Model.sequences, Repr)
    }

    constructor (layout: Layout)
      requires layout.Valid()
      ensures Valid() && fresh(Repr) && Model == Init(layout)
    {
      this.layout := layout;
      nextBlock := 0;
      sequences := map[];
      Model := Init(layout);
      Repr := {};
    }

    method BeginSequence(id: nat) returns (r: Outcome<Error>)
      requires Valid()
      modifies this
      ensures Valid() && fresh(Repr - old(Repr))
      ensures r.Pass? ==> Step(old(Model), Begin(id)) == Ok(Model)
      ensures r.Fail? ==> Step(old(Model), Begin(id)) == Err(r.error) && Model == old(Model)
    {
      hide WellFormed, Step, ZeroTable, AllIn, AllApart, AllHold, SequenceState.Holds;
      SameKeys(layout, sequences, Model.sequences, Repr);
      BeginCases(Model, id);
      assert |Model.sequences| == |Model.sequences.Keys| == |sequences.Keys| == |sequences|;
      if id in sequences {
        return Fail(AlreadyHasBlock);
      }
      if |sequences| >= MAX_SEQUENCES {
        return Fail(StoreFull);
      }
      var state := new SequenceState(layout, nextBlock);
      AddState(layout, sequences, Model.sequences, Repr, id, state, Begun(Model, id).sequences[id]);
      nextBlock := if nextBlock == U32_MAX then U32_MAX else nextBlock + 1;
      sequences := sequences[id := state];
      Model := Begun(Model, id);
      Repr := Repr + {state, state.k, state.v};
      r := Pass;
    }

    method ReleaseSequence(id: nat) returns (r: Outcome<Error>)
      requires Valid()
      modifies this
      ensures Valid() && fresh(Repr - old(Repr))
      ensures r.Pass? ==> Step(old(Model), Release(id)) == Ok(Model)
      ensures r.Fail? ==> Step(old(Model), Release(id)) == Err(r.error) && Model == old(Model)
    {
      hide WellFormed, Step, AllIn, AllApart, AllHold, SequenceState.Holds;
      SameKeys(layout, sequences, Model.sequences, Repr);
      ReleaseCases(Model, id);
      if id !in sequences {
        return Fail(NoBlock);
      }
      DropState(layout, sequences, Model.sequences, Repr, id);
      sequences := sequences - {id};
      Model := Model.(sequences := Model.sequences - {id});
      r := Pass;
    }

    method CommitToken(id: nat) returns (r: Result<nat, Error>)
      requires Valid()
      modifies this, Repr
      ensures Valid() && Repr == old(Repr)
      ensures r.Ok? ==> Step(old(Model), Commit(id)) == Ok(Model)
                        && id in Model.sequences && r.value == Model.sequences[id].len
      ensures r.Err? ==> Step(old(Model), Commit(id)) == Err(r.error) && Model == old(Model)
    {
      hide WellFormed, Step, AllIn, AllApart, AllHold;
      SameKeys(layout, sequences, Model.sequences, Repr);
      CommitCases(Model, id);
      if id !in sequences {
        return Err(NoBlock);
      }
      var len := LenOf(layout, sequences, Model.sequences, Repr, id);
      if len >= layout.blockSize {
        return Err(BlockFull);
      }
      OwnsState(sequences, Repr, id);
      AdvanceAt(layout, sequences, Model.sequences, Repr, id);
      ghost var q := Model.sequences[id];
      Model := Model.(sequences := Model.sequences[id := q.(len := q.len + 1)]);
      r := Ok(len + 1);
    }

    /** `write_k` when `key`, else `write_v`. */
    method WriteVector(id: nat, layer: nat, token: nat, values: Vector, key: bool) returns (r: Outcome<Error>)
      requires Valid()
      modifies this, Repr
      ensures Valid() && Repr == old(Repr)
      ensures r.Pass? ==> Step(old(Model), Write(id, layer, token, values, key)) == Ok(Model)
      ensures r.Fail? ==> Step(old(Model), Write(id, layer, token, values, key)) == Err(r.error) && Model == old(Model)
    {
      hide WellFormed, Step, AllIn, AllApart, AllHold, Updated, Shaped;
      SameKeys(layout, sequences, Model.sequences, Repr);
      WriteCases(Model, id, layer, token, values, key);
      if |values| != layout.Width() {
        return Fail(WidthMismatch);
      }
      var slot := CheckSlot(layout, layer, token);
      if slot.Fail? {
        return slot;
      }
      if id !in sequences {
        return Fail(NoBlock);
      }
      var len := LenOf(layout, sequences, Model.sequences, Repr, id);
      if token != len {
        return Fail(NotOpenToken);
      }
      OwnsState(sequences, Repr, id);
      PutAt(layout, sequences, Model.sequences, Repr, id, layer, token, values, key);
      Model := Model.(sequences := Model.sequences[id := Updated(Model.sequences[id], layer, token, values, key)]);
      r := Pass;
    }

    /** `read_k` when `key`, else `read_v`: fills `out` or leaves it alone. */
    method ReadVector(id: nat, layer: nat, token: nat, out: array<F32>, key: bool) returns (r: Outcome<Error>)
      requires Valid() && out !in Repr
      modifies out
      ensures Valid() && Model == old(Model)
      ensures r.Pass? ==> Read(Model, id, layer, token, out.Length, key) == Ok(out[..])
      ensures r.Fail? ==> Read(Model, id, layer, token, out.Length, key) == Err(r.error) && out[..] == old(out[..])
    {
      hide Shaped, SequenceState.Holds;
      if out.Length != layout.Width() {
        return Fail(WidthMismatch);
      }
      var slot := CheckSlot(layout, layer, token);
      if slot.Fail? {
        return slot;
      }
      if id !in sequences {
        return Fail(NoBlock);
      }
      var state := sequences[id];
      ghost var q := Model.sequences[id];
      var len := state.Len(layout, q);
      if token > len {
        return Fail(PastOpenToken);
      }
      state.Get(layout, layer, token, out, key, q);
      r := Pass;
    }
  }

  /** `SingleBlockKv::new`. */
  method Create(layout: Layout) returns (r: Result<SingleBlockKv, Error>)
    ensures r.Ok? <==>
            && layout.layers > 0 && layout.kvHeads > 0 && layout.headDim > 0 && layout.blockSize > 0
            && layout.dtype == "f32"
    ensures r.Ok? ==> r.value.Valid() && fresh(r.value) && fresh(r.value.Repr) && r.value.Model == Init(layout)
    ensures r.Err? ==> r.error == BadLayout
  {
    if layout.layers == 0 || layout.kvHeads == 0 || layout.headDim == 0 || layout.blockSize == 0
      || layout.dtype != "f32"
    {
      return Err(BadLayout);
    }
    var store := new SingleBlockKv(layout);
    r := Ok(store);
  }
}
