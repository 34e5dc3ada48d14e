/** When a journal has ended, by name. */
module JournalOutcomes {
  /*
   When a journal counts as ended, in the literal names of its events and files, and what
   recovery does in each case.
   */
  import opened Wrappers
  import opened Bytes
  import opened Digests
  import opened InferenceEvent
  import opened JournalSpec
  import opened JournalRuns
  import opened JournalRecovery
  import Utf8

  /** The names after which nothing more is expected, and the others. */
  const ENDINGS: set<string> := {"completed", "failed", "cancelled"}
  const ONGOING: set<string> := {"accepted", "prefill", "token"}

  /** The name of the first event file ends in `.accepted.cbor`. */
  predicate StartsAccepted(first: Name) {
    EndsWith(first, Utf8.Encode(".accepted.cbor"))
  }

  lemma SuffixBytes()
    ensures Utf8.Encode(".accepted.cbor") == ACCEPTED_SUFFIX
  {
    hide Utf8.Encode;
    var text := ".accepted.cbor";
    Utf8.EncodeAscii(text);
    var bs: seq<Byte> := [0x2e, 0x61, 0x63, 0x63, 0x65, 0x70, 0x74, 0x65, 0x64, 0x2e, 0x63, 0x62, 0x6f, 0x72];
    assert Utf8.Encode(text) == bs;
    assert ACCEPTED_SUFFIX == bs;
  }

  /** Every stored event has one of the six names. */
  lemma StoredNames(dir: Dir, names: seq<Name>, es: seq<InferenceEvent.Event>, i: nat)
    requires Stored(dir, names, es) && i < |es|
    ensures es[i].name in ENDINGS + ONGOING
  {
    hide Digits, Trim, ParseEvent;
    assert Holds(dir, names[i], i, es[i]);
    ParsedIsValid(dir[names[i]]);
  }

  /** A chain on disk, named by its first file and its last event. */
  ghost predicate Chained(h: Hash, dir: Dir, id: string, es: seq<InferenceEvent.Event>) {
    es != [] && Lists(dir, es) && Linked(h, id, es)
  }

  /** The two flags of a chain, in literal names. */
  lemma Flags(h: Hash, names: seq<Name>, es: seq<InferenceEvent.Event>)
    requires |names| == |es| && es != []
    ensures var chain := ChainOf(h, names, es);
            && (chain.terminal <==> es[|es| - 1].name in ENDINGS)
            && (chain.startedAccepted <==> StartsAccepted(names[0]))
            && chain.previous == Root(h, es[|es| - 1])
  {
    hide Root, EndsWith, Utf8.Encode;
    SuffixBytes();
  }

  lemma ChainedReads(h: Hash, dir: Dir, id: string, es: seq<InferenceEvent.Event>)
    requires Chained(h, dir, id, es)
    ensures es != [] && |EventNames(dir)| == |es|
    ensures var read := ReadChain(h, dir, id, EventNames(dir));
            && read.Ok?
            && (read.value.terminal <==> es[|es| - 1].name in ENDINGS)
            && (read.value.startedAccepted <==> StartsAccepted(EventNames(dir)[0]))
            && read.value.previous == Root(h, es[|es| - 1])
    ensures es[|es| - 1].name in ENDINGS <==> es[|es| - 1].name !in ONGOING
  {
    hide EventNames, ReadChain, ChainOf, Linked, Holds, Root, StartsAccepted;
    ChainIsRead(h, dir, id, es);
    StoredNames(dir, EventNames(dir), es, |es| - 1);
    Flags(h, EventNames(dir), es);
  }

  /** A chain verifies exactly when it starts at `accepted` and ends in one of three events. */
  lemma VerifiesExactly(h: Hash, dir: Dir, id: string, es: seq<InferenceEvent.Event>)
    requires Chained(h, dir, id, es)
    ensures es != [] && EventNames(dir) != []
    ensures VerifyJournal(h, dir, id).Ok? <==>
            StartsAccepted(EventNames(dir)[0]) && es[|es| - 1].name in ENDINGS
    ensures VerifyJournal(h, dir, id).Ok? ==> VerifyJournal(h, dir, id).value == Root(h, es[|es| - 1])
  {
    hide EventNames, ReadChain, Chained, Root, StartsAccepted;
    ChainedReads(h, dir, id, es);
  }

  /**
   Recovery of an accepted chain, case by case: it leaves the directory alone and counts
   nothing exactly when the chain has ended, and otherwise seals it with a `failed` event.
   */
  lemma RecoversExactly(h: Hash, dir: Dir, id: string, es: seq<InferenceEvent.Event>, lost: Digest)
    requires Chained(h, dir, id, es) && StartsAccepted(EventNames(dir)[0])
    ensures RecoverOne(h, dir, id, lost).Ok?
    ensures RecoverOne(h, dir, id, lost) == Ok(Recovered(Some(dir), 0)) <==> es[|es| - 1].name in ENDINGS
    ensures ReadChain(h, dir, id, EventNames(dir)).Ok?
            && (RecoverOne(h, dir, id, lost) == Ok(Recovered(Some(SealedDir(h, dir, id, lost)), 1))
                <==> es[|es| - 1].name in ONGOING)
  {
    hide EventNames, ReadChain, Chained, Root, StartsAccepted, SealedDir, Append;
    ChainedReads(h, dir, id, es);
    if es[|es| - 1].name in ONGOING {
      OpenIsSealed(h, dir, id, lost);
    }
  }

  /** A chain that does not start at `accepted` is an error and stays as it is. */
  lemma UnacceptedIsRefused(h: Hash, dir: Dir, id: string, es: seq<InferenceEvent.Event>, lost: Digest)
    requires Chained(h, dir, id, es) && !StartsAccepted(EventNames(dir)[0])
    ensures RecoverOne(h, dir, id, lost) == Err(NotSealed)
  {
    hide EventNames, ReadChain, Chained, Root, StartsAccepted, SealedDir, Append;
    ChainedReads(h, dir, id, es);
  }
}
