/** What the single-block KV store means. */
module KvSpec {
  /*
   What the single-block KV store means: a map from live sequences to their block id, their
   length and one K and one V vector for every (layer, token). The operations are total;
   one that fails changes nothing. The theorems are about every run of operations.
   */
  import opened Wrappers

  /** An `f32` by its bit pattern; the stores copy floats and never compute with them. */
  type F32 = bits: int | 0 <= bits < 0x1_0000_0000

  type Vector = seq<F32>
  type Table = seq<seq<Vector>>

  const MAX_SEQUENCES: nat := 8
  const U32_MAX: nat := 0xFFFF_FFFF

  datatype Layout = Layout(layers: nat, kvHeads: nat, headDim: nat, blockSize: nat, dtype: string) {
    predicate Valid() {
      layers > 0 && kvHeads > 0 && headDim > 0 && blockSize > 0 && dtype == "f32"
    }

    function Width(): nat {
      kvHeads * headDim
    }
  }

  datatype Error =
    | BadLayout | NoBlock | AlreadyHasBlock | StoreFull
    | LayerOutside | TokenOutside | WidthMismatch | NotOpenToken | PastOpenToken | BlockFull

  datatype Sequence = Sequence(block: nat, len: nat, k: Table, v: Table)

  datatype Store = Store(layout: Layout, nextBlock: nat, sequences: map<nat, Sequence>)

  datatype Op =
    | Begin(id: nat)
    | Release(id: nat)
    | Write(id: nat, layer: nat, token: nat, values: Vector, key: bool)
    | Commit(id: nat)

  // ---------------------------------------------------------------- operations

  function ZeroVector(width: nat): (v: Vector)
    ensures |v| == width && forall i :: 0 <= i < width ==> v[i] == 0
  {
    seq(width, _ => 0)
  }

  function ZeroTable(layout: Layout): Table {
    seq(layout.layers, _ => seq(layout.blockSize, _ => ZeroVector(layout.Width())))
  }

  function Init(layout: Layout): Store {
    Store(layout, 0, map[])
  }

  /** `offset`'s bounds: the layer first, then the token. */
  function CheckSlot(layout: Layout, layer: nat, token: nat): Outcome<Error> {
    if layer >= layout.layers then Fail(LayerOutside)
    else if token >= layout.blockSize then Fail(TokenOutside)
    else Pass
  }

  function SetSlot(table: Table, layer: nat, token: nat, values: Vector): Table
    requires layer < |table| && token < |table[layer]|
  {
    table[layer := table[layer][token := values]]
  }

  predicate Shaped(layout: Layout, table: Table) {
    && |table| == layout.layers
    && forall l :: 0 <= l < layout.layers ==>
         && |table[l]| == layout.blockSize
         && forall t :: 0 <= t < layout.blockSize ==> |table[l][t]| == layout.Width()
  }

  predicate WellFormed(s: Store) {
    && |s.sequences| <= MAX_SEQUENCES
    && s.nextBlock <= U32_MAX
    && forall id <- s.sequences :: Fits(s.layout, s.sequences[id])
  }

  predicate Fits(layout: Layout, q: Sequence) {
    q.len <= layout.blockSize && Shaped(layout, q.k) && Shaped(layout, q.v)
  }

  function Step(s: Store, op: Op): (r: Result<Store, Error>)
    requires WellFormed(s)
  {
    match op
    case Begin(id) =>
      if id in s.sequences then Err(AlreadyHasBlock)
      else if |s.sequences| >= MAX_SEQUENCES then Err(StoreFull)
      else
        var empty := Sequence(s.nextBlock, 0, ZeroTable(s.layout), ZeroTable(s.layout));
        Ok(s.(nextBlock := if s.nextBlock == U32_MAX then U32_MAX else s.nextBlock + 1,
              sequences := s.sequences[id := empty]))
    case Release(id) =>
      if id !in s.sequences then Err(NoBlock) else Ok(s.(sequences := s.sequences - {id}))
    case Write(id, layer, token, values, key) =>
      if |values| != s.layout.Width() then Err(WidthMismatch)
      else if CheckSlot(s.layout, layer, token).Fail? then Err(CheckSlot(s.layout, layer, token).error)
      else if id !in s.sequences then Err(NoBlock)
      else
        var q := s.sequences[id];
        if token != q.len then Err(NotOpenToken)
        else
          var q' := if key then q.(k := SetSlot(q.k, layer, token, values))
                    else q.(v := SetSlot(q.v, layer, token, values));
          Ok(s.(sequences := s.sequences[id := q']))
    case Commit(id) =>
      if id !in s.sequences then Err(NoBlock)
      else if s.sequences[id].len >= s.layout.blockSize then Err(BlockFull)
      else Ok(s.(sequences := s.sequences[id := s.sequences[id].(len := s.sequences[id].len + 1)]))
  }

  function Read(s: Store, id: nat, layer: nat, token: nat, width: nat, key: bool): Result<Vector, Error>
    requires WellFormed(s)
  {
    if width != s.layout.Width() then Err(WidthMismatch)
    else match CheckSlot(s.layout, layer, token)
      case Fail(e) => Err(e)
      case Pass =>
        if id !in s.sequences then Err(NoBlock)
        else if token > s.sequences[id].len then Err(PastOpenToken)
        else Ok(if key then s.sequences[id].k[layer][token] else s.sequences[id].v[layer][token])
  }

  lemma ZeroTableShaped(layout: Layout)
    ensures Shaped(layout, ZeroTable(layout))
  {
  }

  lemma SetSlotShaped(layout: Layout, table: Table, layer: nat, token: nat, values: Vector)
    requires Shaped(layout, table) && |values| == layout.Width()
    requires layer < layout.layers && token < layout.blockSize
    ensures Shaped(layout, SetSlot(table, layer, token, values))
  {
  }

  lemma StepWellFormed(s: Store, op: Op)
    requires WellFormed(s) && Step(s, op).Ok?
    ensures WellFormed(Step(s, op).value) && Step(s, op).value.layout == s.layout
  {
    hide Shaped, ZeroTable, SetSlot, Layout.Width;
    match op
    case Begin(id) =>
      ZeroTableShaped(s.layout);
      PlaceWellFormed(s, id, Sequence(s.nextBlock, 0, ZeroTable(s.layout), ZeroTable(s.layout)));
    case Release(id) =>
      var s' := Step(s, op).value;
      assert s'.sequences.Keys == s.sequences.Keys - {id};
      assert |s'.sequences| == |s'.sequences.Keys|;
    case Write(id, layer, token, values, key) =>
      var q := s.sequences[id];
      SetSlotShaped(s.layout, q.k, layer, token, values);
      SetSlotShaped(s.layout, q.v, layer, token, values);
      PlaceWellFormed(s, id, Step(s, op).value.sequences[id]);
    case Commit(id) =>
      PlaceWellFormed(s, id, s.sequences[id].(len := s.sequences[id].len + 1));
  }

  lemma PlaceWellFormed(s: Store, id: nat, q: Sequence)
    requires WellFormed(s) && Fits(s.layout, q)
    requires id in s.sequences || |s.sequences| < MAX_SEQUENCES
    ensures WellFormed(s.(sequences := s.sequences[id := q]))
  {
    hide Fits;
    var placed := s.sequences[id := q];
    assert placed.Keys == s.sequences.Keys + {id};
    assert id in s.sequences ==> placed.Keys == s.sequences.Keys;
    assert |placed| == |placed.Keys|;
  }

  /** One operation as a caller sees it: a failure leaves the store as it was. */
  function Apply(s: Store, op: Op): (r: Store)
    requires WellFormed(s)
    ensures WellFormed(r) && r.layout == s.layout
  {
    if Step(s, op).Ok? then
      StepWellFormed(s, op);
      Step(s, op).value
    else s
  }

  function Run(s: Store, ops: seq<Op>): (r: Store)
    requires WellFormed(s)
    ensures WellFormed(r) && r.layout == s.layout
  {
    if ops == [] then s else Apply(Run(s, ops[..|ops| - 1]), ops[|ops| - 1])
  }

  // ---------------------------------------------------------------- the last write

  function Slot(q: Sequence, layer: nat, token: nat, key: bool): Vector
    requires layer < |q.k| && layer < |q.v| && token < |q.k[layer]| && token < |q.v[layer]|
  {
    if key then q.k[layer][token] else q.v[layer][token]
  }

  /**
   The vector that the history of `ops` puts in a slot: that of the last accepted write to
   it since the sequence began, or zeros when there was none.
   */
  function LastWritten(layout: Layout, ops: seq<Op>, id: nat, layer: nat, token: nat, key: bool): Vector {
    if ops == [] then ZeroVector(layout.Width())
    else
      var before, op := ops[..|ops| - 1], ops[|ops| - 1];
      var s := Run(Init(layout), before);
      if op == Begin(id) && Step(s, op).Ok? then ZeroVector(layout.Width())
      else if Targets(op, id, layer, token, key) && Step(s, op).Ok? then op.values
      else LastWritten(layout, before, id, layer, token, key)
  }

  predicate Targets(op: Op, id: nat, layer: nat, token: nat, key: bool) {
    op.Write? && op.id == id && op.layer == layer && op.token == token && op.key == key
  }

  /** What one operation does to one slot of a sequence that is live afterwards. */
  lemma StepSlot(s: Store, op: Op, id: nat, layer: nat, token: nat, key: bool)
    requires WellFormed(s) && id in Apply(s, op).sequences
    requires layer < s.layout.layers && token < s.layout.blockSize
    ensures Fits(s.layout, Apply(s, op).sequences[id])
    ensures var now := Slot(Apply(s, op).sequences[id], layer, token, key);
            if op == Begin(id) && Step(s, op).Ok? then now == ZeroVector(s.layout.Width())
            else if Targets(op, id, layer, token, key) && Step(s, op).Ok? then now == op.values
            else id in s.sequences && now == Slot(s.sequences[id], layer, token, key)
  {
    hide ZeroVector, Layout.Width, Shaped;
    match op
    case Begin(begun) =>
      if begun == id && Step(s, op).Ok? {
        ZeroSlot(s.layout, layer, token);
      }
    case Write(written, l, t, values, _) =>
      if written == id && Step(s, op).Ok? {
        SetSlots(s.layout, s.sequences[id], l, t, values, layer, token);
      }
    case _ =>
  }

  lemma ZeroSlot(layout: Layout, layer: nat, token: nat)
    requires layer < layout.layers && token < layout.blockSize
    ensures |ZeroTable(layout)| == layout.layers && |ZeroTable(layout)[layer]| == layout.blockSize
    ensures ZeroTable(layout)[layer][token] == ZeroVector(layout.Width())
  {
  }

  lemma SetSlots(layout: Layout, q: Sequence, l: nat, t: nat, values: Vector, layer: nat, token: nat)
    requires Fits(layout, q) && l < layout.layers && t < layout.blockSize
    requires layer < layout.layers && token < layout.blockSize
    ensures |q.k| == |q.v| == layout.layers && |q.k[l]| == |q.v[l]| == |q.k[layer]| == |q.v[layer]| == layout.blockSize
    ensures SetSlot(q.k, l, t, values)[layer][token] == if (l, t) == (layer, token) then values else q.k[layer][token]
    ensures SetSlot(q.v, l, t, values)[layer][token] == if (l, t) == (layer, token) then values else q.v[layer][token]
  {
    hide Layout.Width;
  }

  /** Over every run, each slot of a live sequence holds its last accepted write, or zeros. */
  lemma {:induction false} SlotIsLastWritten(layout: Layout, ops: seq<Op>, id: nat, layer: nat, token: nat, key: bool)
    requires id in Run(Init(layout), ops).sequences && layer < layout.layers && token < layout.blockSize
    ensures Slot(Run(Init(layout), ops).sequences[id], layer, token, key)
         == LastWritten(layout, ops, id, layer, token, key)
  {
    hide Step, Apply, Fits, Slot;
    if ops != [] {
      var before, op := ops[..|ops| - 1], ops[|ops| - 1];
      var s := Run(Init(layout), before);
      StepSlot(s, op, id, layer, token, key);
      if Step(s, op).Err? || (op != Begin(id) && !Targets(op, id, layer, token, key)) {
        SlotIsLastWritten(layout, before, id, layer, token, key);
      }
    }
  }

  /** What a caller reads: the last accepted write since the sequence began, or zeros. */
  lemma ReadReturnsLastWrite(layout: Layout, ops: seq<Op>, id: nat, layer: nat, token: nat, width: nat, key: bool)
    requires Read(Run(Init(layout), ops), id, layer, token, width, key).Ok?
    ensures Read(Run(Init(layout), ops), id, layer, token, width, key).value
         == LastWritten(layout, ops, id, layer, token, key)
  {
    SlotIsLastWritten(layout, ops, id, layer, token, key);
  }

  // ---------------------------------------------------------------- committed tokens and other sequences

  /** `later` continues `earlier`: same block, no shorter, committed tokens unchanged. */
  predicate Continues(layout: Layout, earlier: Sequence, later: Sequence)
    requires Fits(layout, earlier) && Fits(layout, later)
  {
    && later.block == earlier.block
    && earlier.len <= later.len
    && forall l, t, key :: 0 <= l < layout.layers && 0 <= t < earlier.len ==>
         Slot(earlier, l, t, key) == Slot(later, l, t, key)
  }

  lemma StepContinues(s: Store, op: Op, id: nat)
    requires WellFormed(s) && id in s.sequences && op != Release(id)
    ensures id in Apply(s, op).sequences
    ensures Continues(s.layout, s.sequences[id], Apply(s, op).sequences[id])
  {
    hide ZeroTable;
  }

  /**
   Over every run without a release of the sequence: it stays live in the same block, its
   length never shrinks, and no committed token changes in any layer.
   */
  lemma {:induction false} CommittedNeverChanges(s: Store, ops: seq<Op>, id: nat)
    requires WellFormed(s) && id in s.sequences && Release(id) !in ops
    ensures id in Run(s, ops).sequences
    ensures Continues(s.layout, s.sequences[id], Run(s, ops).sequences[id])
  {
    hide Apply, Slot, Shaped;
    if ops != [] {
      var before := ops[..|ops| - 1];
      CommittedNeverChanges(s, before, id);
      StepContinues(Run(s, before), ops[|ops| - 1], id);
    }
  }

  lemma StepOthers(s: Store, op: Op, id: nat)
    requires WellFormed(s) && op.id != id
    ensures id in Apply(s, op).sequences <==> id in s.sequences
    ensures id in s.sequences ==> Apply(s, op).sequences[id] == s.sequences[id]
  {
    hide Fits, ZeroTable;
  }

  /** Over every run whose operations address other sequences, this one does not change. */
  lemma {:induction false} OthersUntouched(s: Store, ops: seq<Op>, id: nat)
    requires WellFormed(s) && forall op <- ops :: op.id != id
    ensures var r := Run(s, ops);
            && (id in r.sequences <==> id in s.sequences)
            && (id in s.sequences ==> r.sequences[id] == s.sequences[id])
  {
    hide Apply, Fits;
    if ops != [] {
      var before := ops[..|ops| - 1];
      OthersUntouched(s, before, id);
      StepOthers(Run(s, before), ops[|ops| - 1], id);
    }
  }

  // ---------------------------------------------------------------- block ids

  /** How many `begin_sequence` calls of the run succeed. */
  function Begins(s: Store, ops: seq<Op>): nat
    requires WellFormed(s)
  {
    if ops == [] then 0
    else
      var before, op := ops[..|ops| - 1], ops[|ops| - 1];
      Begins(s, before) + if op.Begin? && Step(Run(s, before), op).Ok? then 1 else 0
  }

  predicate DistinctBlocks(s: Store) {
    forall i, j :: i in s.sequences && j in s.sequences && i != j ==> s.sequences[i].block != s.sequences[j].block
  }

  predicate BlocksBelow(s: Store, n: nat) {
    forall i <- s.sequences :: s.sequences[i].block < n
  }

  /** Only a begin hands out a block id. */
  lemma OthersKeepBlocks(s: Store, op: Op)
    requires WellFormed(s) && (!op.Begin? || Step(s, op).Err?)
    ensures Apply(s, op).nextBlock == s.nextBlock
    ensures forall i <- Apply(s, op).sequences ::
              i in s.sequences && Apply(s, op).sequences[i].block == s.sequences[i].block
  {
    hide Fits, ZeroTable, SetSlot;
  }

  lemma BeginTakesNextBlock(s: Store, op: Op, n: nat)
    requires WellFormed(s) && op.Begin? && Step(s, op).Ok?
    requires BlocksBelow(s, n) && DistinctBlocks(s) && s.nextBlock == n
    ensures BlocksBelow(Apply(s, op), n + 1) && DistinctBlocks(Apply(s, op))
  {
    hide Fits, ZeroTable;
    var r := Apply(s, op);
    assert forall i <- r.sequences :: r.sequences[i].block == if i == op.id then n else s.sequences[i].block;
  }

  lemma StepBlocks(s: Store, op: Op, n: nat)
    requires WellFormed(s) && s.nextBlock == (if n <= U32_MAX then n else U32_MAX)
    requires n <= U32_MAX + 1 ==> BlocksBelow(s, n) && DistinctBlocks(s)
    ensures var r, m := Apply(s, op), n + if op.Begin? && Step(s, op).Ok? then 1 else 0;
            && r.nextBlock == (if m <= U32_MAX then m else U32_MAX)
            && (m <= U32_MAX + 1 ==> BlocksBelow(r, m) && DistinctBlocks(r))
  {
    if op.Begin? && Step(s, op).Ok? {
      if n <= U32_MAX {
        BeginTakesNextBlock(s, op, n);
      }
    } else {
      hide Step, Apply;
      OthersKeepBlocks(s, op);
    }
  }

  /** Block ids count the begins, up to saturation, so the first 2^32 begins get distinct ids. */
  lemma {:induction false} BlocksDistinct(layout: Layout, ops: seq<Op>)
    ensures var s, n := Run(Init(layout), ops), Begins(Init(layout), ops);
            && s.nextBlock == (if n < 0x1_0000_0000 then n else 0xFFFF_FFFF)
            && (n <= 0x1_0000_0000 ==> BlocksBelow(s, n) && DistinctBlocks(s))
  {
    hide Apply, Step, Fits, BlocksBelow, DistinctBlocks;
    if ops == [] {
      EmptyStoreBlocks(layout);
    } else {
      var before := ops[..|ops| - 1];
      BlocksDistinct(layout, before);
      StepBlocks(Run(Init(layout), before), ops[|ops| - 1], Begins(Init(layout), before));
    }
  }

  lemma EmptyStoreBlocks(layout: Layout)
    ensures BlocksBelow(Init(layout), 0) && DistinctBlocks(Init(layout))
  {
  }

  /** `n` times: begin sequence 0 and release it again. */
  function Cycles(n: nat): seq<Op> {
    if n == 0 then [] else Cycles(n - 1) + [Begin(0), Release(0)]
  }

  lemma RunAppend(s: Store, ops: seq<Op>, op: Op)
    requires WellFormed(s)
    ensures Run(s, ops + [op]) == Apply(Run(s, ops), op)
    ensures Begins(s, ops + [op]) == Begins(s, ops) + if op.Begin? && Step(Run(s, ops), op).Ok? then 1 else 0
  {
    assert (ops + [op])[..|ops|] == ops;
  }

  /** One begin of a sequence in an empty store, and its release. */
  lemma BeginInEmpty(layout: Layout, n: nat)
    requires n <= U32_MAX
    ensures var r := Step(Store(layout, n, map[]), Begin(0));
            && r.Ok? && r.value.sequences.Keys == {0} && r.value.sequences[0].block == n
            && r.value.nextBlock == (if n == U32_MAX then n else n + 1) && r.value.layout == layout
  {
  }

  lemma ReleaseOnly(s: Store)
    requires WellFormed(s) && s.sequences.Keys == {0}
    ensures Apply(s, Release(0)) == s.(sequences := map[])
  {
    assert (s.sequences - {0}).Keys == {};
  }

  lemma BeginSecond(s: Store)
    requires WellFormed(s) && s.sequences.Keys == {0}
    ensures var r := Step(s, Begin(1));
            r.Ok? && 0 in r.value.sequences && 1 in r.value.sequences
            && r.value.sequences[0] == s.sequences[0] && r.value.sequences[1].block == s.nextBlock
  {
    assert |s.sequences| == |s.sequences.Keys| == 1;
  }

  lemma {:induction false} CyclesRun(layout: Layout, n: nat)
    requires n <= U32_MAX
    ensures Run(Init(layout), Cycles(n)) == Store(layout, n, map[])
    ensures Begins(Init(layout), Cycles(n)) == n
  {
    hide Step, Fits, Run, Begins;
    if n == 0 {
      EmptyRun(layout);
    } else {
      CyclesRun(layout, n - 1);
      var ops := Cycles(n - 1);
      RunAppend(Init(layout), ops, Begin(0));
      RunAppend(Init(layout), ops + [Begin(0)], Release(0));
      assert Cycles(n) == ops + [Begin(0)] + [Release(0)];
      BeginInEmpty(layout, n - 1);
      ReleaseOnly(Apply(Store(layout, n - 1, map[]), Begin(0)));
    }
  }

  lemma EmptyRun(layout: Layout)
    ensures Run(Init(layout), []) == Init(layout) && Begins(Init(layout), []) == 0
  {
  }

  /** The bound is exact: begin number 2^32 + 1 can share its block id with a live sequence. */
  lemma BlocksCollideAfterSaturation(layout: Layout)
    ensures var ops := Cycles(0xFFFF_FFFF) + [Begin(0)] + [Begin(1)];
            Begins(Init(layout), ops) == 0x1_0000_0001 && !DistinctBlocks(Run(Init(layout), ops))
  {
    hide Step, Fits, Run, Begins, Cycles;
    var ops, s := Cycles(U32_MAX), Store(layout, U32_MAX, map[]);
    CyclesRun(layout, U32_MAX);
    RunAppend(Init(layout), ops, Begin(0));
    RunAppend(Init(layout), ops + [Begin(0)], Begin(1));
    BeginInEmpty(layout, U32_MAX);
    var s1 := Apply(s, Begin(0));
    BeginSecond(s1);
    var s2 := Apply(s1, Begin(1));
    assert s2.sequences[0].block == s2.sequences[1].block == U32_MAX;
  }
}
