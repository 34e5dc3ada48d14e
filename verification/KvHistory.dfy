/** When the KV store operations succeed. */
module KvHistory {
  /*
   When the operations of the KV store succeed, told from the history of operations alone: each
   live sequence has so many committed tokens, and nothing else decides.
   */
  import opened Wrappers
  import opened KvSpec

  /** The live sequences and how many tokens each has committed since it began. */
  type Counts = map<nat, nat>

  predicate Accepts(layout: Layout, m: Counts, op: Op) {
    match op
    case Begin(id) => id !in m && |m| < 8
    case Release(id) => id in m
    case Write(id, layer, token, values, _) =>
      && |values| == layout.kvHeads * layout.headDim
      && layer < layout.layers && token < layout.blockSize
      && id in m && token == m[id]
    case Commit(id) => id in m && m[id] < layout.blockSize
  }

  function Counted(layout: Layout, m: Counts, op: Op): Counts {
    if !Accepts(layout, m, op) then m
    else
      match op
      case Begin(id) => m[id := 0]
      case Release(id) => m - {id}
      case Write(_, _, _, _, _) => m
      case Commit(id) => m[id := m[id] + 1]
  }

  /** The counts after a history. */
  function History(layout: Layout, ops: seq<Op>): Counts {
    if ops == [] then map[] else Counted(layout, History(layout, ops[..|ops| - 1]), ops[|ops| - 1])
  }

  /** A store holds exactly the sequences of the counts, at their lengths. */
  predicate Shows(s: Store, m: Counts) {
    s.sequences.Keys == m.Keys && forall id <- m :: s.sequences[id].len == m[id]
  }

  lemma SameSize(s: Store, m: Counts)
    requires Shows(s, m)
    ensures |s.sequences| == |m|
  {
    assert |s.sequences| == |s.sequences.Keys| && |m| == |m.Keys|;
  }

  lemma StepAccepts(s: Store, m: Counts, op: Op)
    requires WellFormed(s) && Shows(s, m)
    ensures Step(s, op).Ok? <==> Accepts(s.layout, m, op)
  {
    hide Shaped, ZeroTable, SetSlot;
    SameSize(s, m);
  }

  lemma StepShows(s: Store, m: Counts, op: Op)
    requires WellFormed(s) && Shows(s, m)
    ensures Shows(Apply(s, op), Counted(s.layout, m, op))
  {
    hide Shaped, ZeroTable, SetSlot, WellFormed, Layout.Width;
    StepAccepts(s, m, op);
    var s', m' := Apply(s, op), Counted(s.layout, m, op);
    if Step(s, op).Ok? {
      assert s'.sequences.Keys == m'.Keys;
    }
  }

  /** Over every run the store has the live sequences and the lengths of the history. */
  lemma {:induction false} RunShows(layout: Layout, ops: seq<Op>)
    ensures Shows(Run(Init(layout), ops), History(layout, ops))
  {
    hide Shows, Apply, Counted;
    if ops == [] {
      assert Shows(Init(layout), map[]) by {
        EmptyShows(layout);
      }
    } else {
      var before, op := ops[..|ops| - 1], ops[|ops| - 1];
      RunShows(layout, before);
      StepShows(Run(Init(layout), before), History(layout, before), op);
    }
  }

  lemma EmptyShows(layout: Layout)
    ensures Shows(Init(layout), map[])
  {
  }

  /** After any history, an operation succeeds exactly when the counts accept it. */
  lemma SucceedsExactly(layout: Layout, ops: seq<Op>, op: Op)
    ensures Step(Run(Init(layout), ops), op).Ok? <==> Accepts(layout, History(layout, ops), op)
  {
    hide Step, Accepts, Shows;
    RunShows(layout, ops);
    StepAccepts(Run(Init(layout), ops), History(layout, ops), op);
  }

  /**
   After any history, a read succeeds exactly when the width is the layout's, the slot exists,
   the sequence is live and the token is committed or the open one; it then returns the last
   accepted write to the slot, or zeros.
   */
  lemma ReadsExactly(layout: Layout, ops: seq<Op>, id: nat, layer: nat, token: nat, width: nat, key: bool)
    ensures var r, m := Read(Run(Init(layout), ops), id, layer, token, width, key), History(layout, ops);
            && (r.Ok? <==>
                  && width == layout.kvHeads * layout.headDim
                  && layer < layout.layers && token < layout.blockSize
                  && id in m && token <= m[id])
            && (r.Ok? ==> r.value == LastWritten(layout, ops, id, layer, token, key))
  {
    hide Run, LastWritten, History;
    RunShows(layout, ops);
    var s := Run(Init(layout), ops);
    if Read(s, id, layer, token, width, key).Ok? {
      ReadReturnsLastWrite(layout, ops, id, layer, token, width, key);
    }
  }

  /** What is written is read back at once, before any commit, and so it is after the commit. */
  lemma WrittenIsRead(layout: Layout, ops: seq<Op>, w: Op)
    requires w.Write? && Accepts(layout, History(layout, ops), w)
    ensures var width := layout.kvHeads * layout.headDim;
            && Read(Run(Init(layout), ops + [w]), w.id, w.layer, w.token, width, w.key) == Ok(w.values)
            && Read(Run(Init(layout), ops + [w] + [Commit(w.id)]), w.id, w.layer, w.token, width, w.key) == Ok(w.values)
  {
    hide Run, LastWritten, History, Accepts, Counted, Step, Read;
    var width := layout.kvHeads * layout.headDim;
    var a := ops + [w];
    var b := a + [Commit(w.id)];
    LastOf(layout, ops, w);
    LastOf(layout, a, Commit(w.id));
    SucceedsExactly(layout, ops, w);
    OpenAfterWrite(layout, ops, w);
    ReadsExactly(layout, a, w.id, w.layer, w.token, width, w.key);
    ReadsExactly(layout, b, w.id, w.layer, w.token, width, w.key);
    LastWrittenNow(layout, ops, w);
    CommitKeepsWritten(layout, a, w.id, w.layer, w.token, w.key);
  }

  lemma LastOf(layout: Layout, ops: seq<Op>, op: Op)
    ensures History(layout, ops + [op]) == Counted(layout, History(layout, ops), op)
  {
    assert (ops + [op])[..|ops|] == ops;
  }

  lemma OpenAfterWrite(layout: Layout, ops: seq<Op>, w: Op)
    requires w.Write? && Accepts(layout, History(layout, ops), w)
    ensures var m := History(layout, ops);
            && w.layer < layout.layers && w.token < layout.blockSize && w.id in m && m[w.id] == w.token
            && Counted(layout, m, w) == m
            && Counted(layout, m, Commit(w.id)) == m[w.id := w.token + 1]
  {
    hide History;
  }

  lemma LastWrittenNow(layout: Layout, ops: seq<Op>, w: Op)
    requires w.Write? && Step(Run(Init(layout), ops), w).Ok?
    ensures LastWritten(layout, ops + [w], w.id, w.layer, w.token, w.key) == w.values
  {
    hide Run, Step;
    assert (ops + [w])[..|ops|] == ops;
  }

  lemma CommitKeepsWritten(layout: Layout, ops: seq<Op>, id: nat, layer: nat, token: nat, key: bool)
    ensures LastWritten(layout, ops + [Commit(id)], id, layer, token, key)
         == LastWritten(layout, ops, id, layer, token, key)
  {
    hide Run, Step;
    assert (ops + [Commit(id)])[..|ops|] == ops;
  }
}
