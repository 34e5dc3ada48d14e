/** Runs of one journal, on disk and in memory. */
module JournalRuns {
  /*
   Runs of one journal: the disk and the memory that any sequence of `append` calls reaches.
   Every state a run can reach keeps its memory equal to what `read_chain` finds on disk, up to
   the six digits of a file name; a run that starts at `accepted` and ends in a terminal event
   verifies; and two verified chains of one request with the same terminal root are the same
   chain, unless two of their own events collide under the digest.
   */
  import opened Wrappers
  import opened Bytes
  import opened Digests
  import opened InferenceEvent
  import opened JournalSpec
  import Utf8

  // ---------------------------------------------------------------- one journal

  /** What a `Journal` holds, with the directory it writes to. */
  datatype State = State(dir: Dir, previous: Option<Digest>, nextIndex: nat)

  const FRESH: State := State(map[], None, 0)

  /** The event an append writes. */
  function NextEvent(id: string, st: State, name: string, payload: Digest): InferenceEvent.Event {
    InferenceEvent.Event(id, 1, name, st.previous, payload, [])
  }

  /** `append`, when the file is written. */
  function Append(h: Hash, id: string, st: State, name: string, payload: Digest): Result<State, Error> {
    var e := NextEvent(id, st, name, payload);
    if !InferenceEvent.Valid(e) then Err(InvalidEvent)
    else Ok(State(st.dir[FileName(st.nextIndex, name) := EventBytes(e)], Some(Root(h, e)), st.nextIndex + 1))
  }

  function AtMost(n: nat, limit: nat): nat {
    if n <= limit then n else limit
  }

  /** The state reached by appending `es`: the listing shows the first million of them. */
  ghost predicate Reached(h: Hash, id: string, st: State, es: seq<InferenceEvent.Event>) {
    && st.nextIndex == |es|
    && st.previous == Before(h, es, |es|)
    && Linked(h, id, es)
    && Lists(st.dir, es[..AtMost(|es|, INDEX_LIMIT)])
    && Named(EventNames(st.dir), es)
  }

  /** The listed files carry the names that `append` gave them. */
  ghost predicate Named(names: seq<Name>, es: seq<InferenceEvent.Event>) {
    |names| <= |es| && forall i :: 0 <= i < |names| ==> names[i] == FileName(i, es[i].name)
  }

  lemma FreshIsReached(h: Hash, id: string)
    ensures Reached(h, id, FRESH, [])
  {
    hide EventNames;
    ListingUnique(FRESH.dir, []);
  }

  lemma LinkOneMore(h: Hash, id: string, es: seq<InferenceEvent.Event>, e: InferenceEvent.Event)
    requires Linked(h, id, es) && e.requestId == id && e.previous == Before(h, es, |es|)
    ensures Linked(h, id, es + [e])
  {
    hide Root;
    forall i | 0 <= i < |es + [e]|
      ensures Follows(h, id, es + [e], i)
    {
      if i < |es| {
        assert Follows(h, id, es, i);
      }
    }
  }

  lemma AppendReaches(h: Hash, id: string, st: State, es: seq<InferenceEvent.Event>, name: string, payload: Digest)
    requires Reached(h, id, st, es) && Append(h, id, st, name, payload).Ok?
    ensures Reached(h, id, Append(h, id, st, name, payload).value, es + [NextEvent(id, st, name, payload)])
  {
    hide Root, EventBytes, FileName, Lists, Linked, EventNames;
    var e := NextEvent(id, st, name, payload);
    LinkOneMore(h, id, es, e);
    ListedLength(st.dir, es[..AtMost(|es|, INDEX_LIMIT)]);
    if |es| < INDEX_LIMIT {
      assert es[..AtMost(|es|, INDEX_LIMIT)] == es;
      AppendIsStored(st.dir, es, e);
      AppendIsListed(st.dir, es, e.name, EventBytes(e));
      assert (es + [e])[..AtMost(|es| + 1, INDEX_LIMIT)] == es + [e];
    } else {
      var listed := es[..INDEX_LIMIT];
      assert (es + [e])[..AtMost(|es| + 1, INDEX_LIMIT)] == listed;
      AppendFarPastLimit(st.dir, listed, |es|, e);
    }
  }

  lemma AppendFarPastLimit(dir: Dir, es: seq<InferenceEvent.Event>, index: nat, e: InferenceEvent.Event)
    requires Lists(dir, es) && Appendable(e) && |es| == INDEX_LIMIT <= index
    ensures var after := dir[FileName(index, e.name) := EventBytes(e)];
            EventNames(after) == EventNames(dir) && Lists(after, es)
  {
    hide FileName, EventBytes;
    FileNameShape(index, e.name);
    OtherFileKeepsEvents(dir, es, FileName(index, e.name), EventBytes(e));
  }

  /**
   What a new process reads from disk is the head the journal holds in memory exactly as
   long as six digits number the events.
   */
  lemma DiskAgreesWithMemory(h: Hash, id: string, st: State, es: seq<InferenceEvent.Event>)
    requires Reached(h, id, st, es) && es != []
    ensures var names := EventNames(st.dir);
            && ReadChain(h, st.dir, id, names).Ok?
            && (var chain := ReadChain(h, st.dir, id, names).value;
                (Some(chain.previous) == st.previous && chain.nextIndex == st.nextIndex) <==> |es| <= INDEX_LIMIT)
  {
    hide Root, EventNames, Holds, ReadEvents, Linked, Stored;
    var listed := es[..AtMost(|es|, INDEX_LIMIT)];
    assert Linked(h, id, listed) by {
      LinkedPrefix(h, id, es, |listed|);
    }
    ReadEventsMeaning(h, st.dir, id, EventNames(st.dir), listed);
    assert ReadEvents(h, st.dir, id, EventNames(st.dir), 0, None) == Ok(listed);
  }

  lemma AcceptedSuffix()
    ensures EndsWith(FileName(0, "accepted"), ACCEPTED_SUFFIX)
  {
    hide Digits, Utf8.Encode;
    var name := "accepted";
    Utf8.EncodeAscii(name);
    var bs: seq<Byte> := [0x61, 0x63, 0x63, 0x65, 0x70, 0x74, 0x65, 0x64];
    assert Utf8.Encode(name) == bs;
    var f := FileName(0, name);
    assert f == Digits(0, 6) + ACCEPTED_SUFFIX;
    assert f[|f| - |ACCEPTED_SUFFIX|..] == ACCEPTED_SUFFIX;
  }

  /** The chain that a run leaves on disk, up to a million events. */
  lemma ReachedChain(h: Hash, id: string, st: State, es: seq<InferenceEvent.Event>)
    requires Reached(h, id, st, es) && 0 < |es| <= INDEX_LIMIT
    ensures ReadChain(h, st.dir, id, EventNames(st.dir)) == Ok(ChainOf(h, EventNames(st.dir), es))
    ensures |EventNames(st.dir)| == |es| && EventNames(st.dir)[0] == FileName(0, es[0].name)
  {
    hide Root, EventNames, Holds, ReadEvents, Linked, FileName;
    assert es[..AtMost(|es|, INDEX_LIMIT)] == es;
    ReadEventsMeaning(h, st.dir, id, EventNames(st.dir), es);
  }

  /** A chain of at most a million events that was accepted first and ended last. */
  predicate Finished(es: seq<InferenceEvent.Event>) {
    0 < |es| <= INDEX_LIMIT && es[0].name == "accepted" && Terminal(es[|es| - 1].name)
  }

  /**
   A journal that was accepted first and ended last verifies, and its root is the one the
   journal holds in memory.
   */
  lemma FinishedRunVerifies(h: Hash, id: string, calls: seq<Call>)
    requires Finished(History(h, id, FRESH, calls))
    ensures var st := Run(h, id, FRESH, calls);
            st.previous.Some? && VerifyJournal(h, st.dir, id) == Ok(st.previous.value)
  {
    hide Root, EventNames, ReadChain, Run, History, FileName, Lists, Linked, EndsWith;
    var es := History(h, id, FRESH, calls);
    FreshIsReached(h, id);
    RunReaches(h, id, FRESH, [], calls);
    assert [] + es == es;
    ReachedChain(h, id, Run(h, id, FRESH, calls), es);
    AcceptedSuffix();
  }

  lemma LinkedPrefix(h: Hash, id: string, es: seq<InferenceEvent.Event>, n: nat)
    requires Linked(h, id, es) && n <= |es|
    ensures Linked(h, id, es[..n])
  {
    hide Root;
    forall i | 0 <= i < n
      ensures Follows(h, id, es[..n], i)
    {
      assert Follows(h, id, es, i);
    }
  }

  // ---------------------------------------------------------------- runs

  /** One call on a journal; `written` tells whether the file system took the file. */
  datatype Call =
    | Event(name: string, payload: Digest, written: bool)
    | Sampler(bytes: seq<Byte>, written: bool)

  const SAMPLER: Name := [0x73, 0x61, 0x6d, 0x70, 0x6c, 0x65, 0x72, 0x2d, 0x70, 0x6c, 0x61, 0x6e] + SUFFIX

  /** A failed call leaves the journal and its directory as they were. */
  function Step(h: Hash, id: string, st: State, call: Call): State {
    match call
    case Event(name, payload, written) =>
      (match Append(h, id, st, name, payload)
       case Err(_) => st
       case Ok(next) => if written then next else st)
    case Sampler(bytes, written) =>
      if written then st.(dir := st.dir[SAMPLER := bytes]) else st
  }

  function Run(h: Hash, id: string, st: State, calls: seq<Call>): State
    decreases |calls|
  {
    if calls == [] then st else Run(h, id, Step(h, id, st, calls[0]), calls[1..])
  }

  /** The event that a call adds to the history, if it adds one. */
  function Added(h: Hash, id: string, st: State, call: Call): seq<InferenceEvent.Event> {
    if call.Event? && call.written && Append(h, id, st, call.name, call.payload).Ok?
    then [NextEvent(id, st, call.name, call.payload)]
    else []
  }

  /** The events a run has appended. */
  function History(h: Hash, id: string, st: State, calls: seq<Call>): seq<InferenceEvent.Event>
    decreases |calls|
  {
    if calls == [] then []
    else Added(h, id, st, calls[0]) + History(h, id, Step(h, id, st, calls[0]), calls[1..])
  }

  lemma StepReaches(h: Hash, id: string, st: State, es: seq<InferenceEvent.Event>, call: Call)
    requires Reached(h, id, st, es)
    ensures Reached(h, id, Step(h, id, st, call), es + Added(h, id, st, call))
  {
    hide Root, EventBytes, FileName, Lists, Linked, Append;
    assert es + [] == es;
    match call
    case Event(name, payload, written) =>
      if written && Append(h, id, st, name, payload).Ok? {
        AppendReaches(h, id, st, es, name, payload);
      }
    case Sampler(bytes, _) =>
      assert SAMPLER[6] == 0x72;
      assert !EventName(SAMPLER);
      OtherFileKeepsEvents(st.dir, es[..AtMost(|es|, INDEX_LIMIT)], SAMPLER, bytes);
  }

  lemma {:induction false} RunReaches(h: Hash, id: string, st: State, es: seq<InferenceEvent.Event>, calls: seq<Call>)
    requires Reached(h, id, st, es)
    ensures Reached(h, id, Run(h, id, st, calls), es + History(h, id, st, calls))
    decreases |calls|
  {
    hide Reached, Step, Added;
    if calls == [] {
      assert es + [] == es;
    } else {
      var added := Added(h, id, st, calls[0]);
      StepReaches(h, id, st, es, calls[0]);
      RunReaches(h, id, Step(h, id, st, calls[0]), es + added, calls[1..]);
      ConcatAssociative(es, added, History(h, id, Step(h, id, st, calls[0]), calls[1..]));
    }
  }

  /**
   After `create` and any appends and sampler writes, failed ones included, the directory
   reads back as the in-memory head, as long as no more than a million events were appended.
   */
  lemma RunAgreesWithDisk(h: Hash, id: string, calls: seq<Call>)
    requires History(h, id, FRESH, calls) != []
    ensures var st := Run(h, id, FRESH, calls);
            var names := EventNames(st.dir);
            && ReadChain(h, st.dir, id, names).Ok?
            && (var chain := ReadChain(h, st.dir, id, names).value;
                (Some(chain.previous) == st.previous && chain.nextIndex == st.nextIndex)
                <==> |History(h, id, FRESH, calls)| <= INDEX_LIMIT)
  {
    hide Root, EventNames, ReadChain, Reached, Run, History;
    FreshIsReached(h, id);
    RunReaches(h, id, FRESH, [], calls);
    var es := History(h, id, FRESH, calls);
    assert [] + es == es;
    DiskAgreesWithMemory(h, id, Run(h, id, FRESH, calls), es);
  }

  // ---------------------------------------------------------------- commitment

  /** An event of each chain, both with the same root though their root inputs differ. */
  ghost predicate Collide(h: Hash, ds: seq<InferenceEvent.Event>, es: seq<InferenceEvent.Event>) {
    exists i, j :: 0 <= i < |ds| && 0 <= j < |es| && CollideAt(h, ds[i], es[j])
  }

  predicate CollideAt(h: Hash, d: InferenceEvent.Event, e: InferenceEvent.Event) {
    RootInput(d) != RootInput(e) && h(RootInput(d)) == h(RootInput(e))
  }

  /** Equal roots of two stored events: the same event, or two inputs that collide. */
  lemma SameRootSameEvent(h: Hash, a: Dir, m: Name, i: nat, d: InferenceEvent.Event,
                          b: Dir, n: Name, j: nat, e: InferenceEvent.Event)
    requires Holds(a, m, i, d) && Holds(b, n, j, e) && Root(h, d) == Root(h, e)
    ensures d == e || CollideAt(h, d, e)
  {
    hide RootInput, ParseEvent, Digits, Trim;
    if RootInput(d) == RootInput(e) {
      RootInputInjective(a[m], b[n]);
    }
  }

  /** Two stored, linked chains whose last roots agree are the same chain, or some of their events collide. */
  lemma {:induction false} ChainsAgree(h: Hash, a: Dir, as_: seq<Name>, id: string, ds: seq<InferenceEvent.Event>,
                                       b: Dir, bs: seq<Name>, jd: string, es: seq<InferenceEvent.Event>)
    requires Stored(a, as_, ds) && Stored(b, bs, es) && Linked(h, id, ds) && Linked(h, jd, es)
    requires Before(h, ds, |ds|) == Before(h, es, |es|)
    ensures ds == es || Collide(h, ds, es)
  {
    hide Holds, CollideAt, Root;
    if ds != [] {
      var m, n := |ds| - 1, |es| - 1;
      assert Follows(h, id, ds, m) && Follows(h, jd, es, n);
      SameRootSameEvent(h, a, as_[m], m, ds[m], b, bs[n], n, es[n]);
      if ds[m] == es[n] {
        LinkedPrefix(h, id, ds, m);
        LinkedPrefix(h, jd, es, n);
        assert forall i :: 0 <= i < m ==> Holds(a, as_[i], i, ds[i]);
        assert Stored(a, as_[..m], ds[..m]) && Stored(b, bs[..n], es[..n]);
        assert Before(h, ds[..m], m) == Before(h, ds, m) && Before(h, es[..n], n) == Before(h, es, n);
        ChainsAgree(h, a, as_[..m], id, ds[..m], b, bs[..n], jd, es[..n]);
        if ds[..m] == es[..n] {
          assert ds == ds[..m] + [ds[m]] && es == es[..n] + [es[n]];
        } else {
          CollideLater(h, ds, m, es, n);
        }
      }
    }
  }

  lemma CollideLater(h: Hash, ds: seq<InferenceEvent.Event>, m: nat, es: seq<InferenceEvent.Event>, n: nat)
    requires m <= |ds| && n <= |es| && Collide(h, ds[..m], es[..n])
    ensures Collide(h, ds, es)
  {
    hide CollideAt;
    var i, j :| 0 <= i < m && 0 <= j < n && CollideAt(h, ds[..m][i], es[..n][j]);
    assert CollideAt(h, ds[i], es[j]);
  }

  /** The events of a journal that verifies. */
  ghost function EventsOf(h: Hash, dir: Dir, id: string): seq<InferenceEvent.Event>
    requires VerifyJournal(h, dir, id).Ok?
  {
    ReadEvents(h, dir, id, EventNames(dir), 0, None).value
  }

  /**
   The terminal root commits to the whole history: two directories that verify to the same
   root, under any request ids, hold the same events of the same request, unless the hash
   gives one digest to two different root inputs among the events of these two journals.
   */
  lemma TerminalRootCommits(h: Hash, a: Dir, id: string, b: Dir, jd: string)
    requires VerifyJournal(h, a, id).Ok? && VerifyJournal(h, a, id) == VerifyJournal(h, b, jd)
    ensures var ds, es := EventsOf(h, a, id), EventsOf(h, b, jd);
            (id == jd && ds == es) || Collide(h, ds, es)
  {
    hide EventNames, ReadEvents, Root, Holds, Collide;
    var ds, es := EventsOf(h, a, id), EventsOf(h, b, jd);
    ReadEventsMeaning(h, a, id, EventNames(a), ds);
    ReadEventsMeaning(h, b, jd, EventNames(b), es);
    ChainsAgree(h, a, EventNames(a), id, ds, b, EventNames(b), jd, es);
    assert Follows(h, id, ds, 0) && Follows(h, jd, es, 0);
  }
}
