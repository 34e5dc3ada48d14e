/** What recovery leaves on the disk. */
module JournalRecovery {
  /*
   `recover_open_journals`: what it leaves on disk, and what a second run does. The file has
   three parts: one journal (an open chain is sealed by exactly one `failed` event, a sealed one
   is left alone), the loop over all journals (what is recovered before the first failure and
   what is untouched after it), and the chain of a million events that six digits cannot seal,
   which every run writes to and counts again.
   */
  import opened Wrappers
  import opened Bytes
  import opened Digests
  import opened InferenceEvent
  import opened JournalSpec
  import opened JournalRuns
  import opened Sorting
  import Utf8

  const U32_MAX: nat := 0xffff_ffff

  /** What `recover_one` leaves: no directory, or a directory, and how many chains it sealed. */
  datatype Recovered = Recovered(dir: Option<Dir>, count: nat)

  ghost function RecoverOne(h: Hash, dir: Dir, id: string, lost: Digest): (r: Result<Recovered, Error>)
    ensures r.Ok? ==> r.value.count <= 1
  {
    var names := EventNames(dir);
    if names == [] then Ok(Recovered(None, 0))
    else
      var chain :- ReadChain(h, dir, id, names);
      if chain.terminal && chain.startedAccepted then Ok(Recovered(Some(dir), 0))
      else if !chain.startedAccepted then Err(NotSealed)
      else
        var st :- Append(h, id, State(dir, Some(chain.previous), chain.nextIndex), "failed", lost);
        Ok(Recovered(Some(st.dir), 1))
  }

  /** The chain reads, starts at `accepted` and has not ended. */
  ghost predicate Open(h: Hash, dir: Dir, id: string) {
    var chain := ReadChain(h, dir, id, EventNames(dir));
    chain.Ok? && chain.value.startedAccepted && !chain.value.terminal
  }

  /** Six digits can still number the event that seals the chain. */
  ghost predicate Numbered(dir: Dir) {
    |EventNames(dir)| < INDEX_LIMIT
  }

  /** The event that seals an open chain. */
  ghost function Sealing(h: Hash, dir: Dir, id: string, lost: Digest): InferenceEvent.Event
    requires ReadChain(h, dir, id, EventNames(dir)).Ok?
  {
    InferenceEvent.Event(id, 1, "failed", Some(ReadChain(h, dir, id, EventNames(dir)).value.previous), lost, [])
  }

  ghost function SealedDir(h: Hash, dir: Dir, id: string, lost: Digest): Dir
    requires ReadChain(h, dir, id, EventNames(dir)).Ok?
  {
    dir[FileName(|EventNames(dir)|, "failed") := EventBytes(Sealing(h, dir, id, lost))]
  }

  lemma ReadChainMeaning(h: Hash, dir: Dir, id: string) returns (es: seq<InferenceEvent.Event>)
    requires ReadChain(h, dir, id, EventNames(dir)).Ok?
    ensures es != [] && Lists(dir, es) && Linked(h, id, es)
    ensures ReadChain(h, dir, id, EventNames(dir)).value == ChainOf(h, EventNames(dir), es)
  {
    hide EventNames, ReadEvents, ChainOf, Linked, Stored;
    es := ReadEvents(h, dir, id, EventNames(dir), 0, None).value;
    ReadEventsMeaning(h, dir, id, EventNames(dir), es);
  }

  lemma ChainIsRead(h: Hash, dir: Dir, id: string, es: seq<InferenceEvent.Event>)
    requires es != [] && Lists(dir, es) && Linked(h, id, es)
    ensures ReadChain(h, dir, id, EventNames(dir)) == Ok(ChainOf(h, EventNames(dir), es))
  {
    hide EventNames, ReadEvents, ChainOf, Linked, Holds;
    ReadEventsMeaning(h, dir, id, EventNames(dir), es);
  }

  /** An open chain of a valid request is always sealed: recovery of it cannot fail. */
  lemma OpenIsSealed(h: Hash, dir: Dir, id: string, lost: Digest)
    requires Open(h, dir, id)
    ensures ValidRequestId(id)
    ensures RecoverOne(h, dir, id, lost) == Ok(Recovered(Some(SealedDir(h, dir, id, lost)), 1))
  {
    hide EventNames, ReadEvents, EventBytes, FileName, ValidRequestId, Linked, Stored;
    var es := ReadChainMeaning(h, dir, id);
    OwnerIsValid(h, dir, id, es);
    assert |EventNames(dir)| == |es| by {
      ListedLength(dir, es);
    }
  }

  lemma OwnerIsValid(h: Hash, dir: Dir, id: string, es: seq<InferenceEvent.Event>)
    requires es != [] && Lists(dir, es) && Linked(h, id, es)
    ensures ValidRequestId(id)
  {
    hide EventNames, ParseEvent, Digits, Trim, ValidRequestId, Root;
    assert Holds(dir, EventNames(dir)[0], 0, es[0]);
    assert Follows(h, id, es, 0);
    ParsedIsValid(dir[EventNames(dir)[0]]);
  }

  lemma ParsedIsValid(bytes: seq<Byte>)
    requires ParseEvent(bytes).Some?
    ensures InferenceEvent.Valid(ParseEvent(bytes).value)
  {
  }

  lemma SealedReads(h: Hash, dir: Dir, id: string, lost: Digest, es: seq<InferenceEvent.Event>)
    requires Open(h, dir, id) && Numbered(dir)
    requires es != [] && Lists(dir, es) && Linked(h, id, es)
    requires ReadChain(h, dir, id, EventNames(dir)) == Ok(ChainOf(h, EventNames(dir), es))
    ensures var after, e := SealedDir(h, dir, id, lost), Sealing(h, dir, id, lost);
            && EventNames(after) == EventNames(dir) + [FileName(|es|, "failed")]
            && FileName(|es|, "failed") !in dir
            && ReadChain(h, after, id, EventNames(after)) == Ok(ChainOf(h, EventNames(after), es + [e]))
  {
    hide EventNames, ReadEvents, ReadChain, EventBytes, FileName, Linked, Holds, Root, ValidRequestId;
    var e := Sealing(h, dir, id, lost);
    OwnerIsValid(h, dir, id, es);
    AppendIsListed(dir, es, "failed", EventBytes(e));
    AppendIsStored(dir, es, e);
    LinkOneMore(h, id, es, e);
    ChainIsRead(h, SealedDir(h, dir, id, lost), id, es + [e]);
  }

  /**
   Sealing an open chain adds one file and changes none; the chain then verifies, and
   recovering it again changes nothing.
   */
  lemma SealedVerifies(h: Hash, dir: Dir, id: string, lost: Digest)
    requires Open(h, dir, id) && Numbered(dir)
    ensures var after := SealedDir(h, dir, id, lost);
            && FileName(|EventNames(dir)|, "failed") !in dir
            && EventNames(after) == EventNames(dir) + [FileName(|EventNames(dir)|, "failed")]
            && VerifyJournal(h, after, id) == Ok(Root(h, Sealing(h, dir, id, lost)))
            && RecoverOne(h, after, id, lost) == Ok(Recovered(Some(after), 0))
  {
    hide EventNames, ReadEvents, ReadChain, EventBytes, FileName, Linked, Holds, Root;
    var es := ReadChainMeaning(h, dir, id);
    SealedReads(h, dir, id, lost, es);
    ListedLength(dir, es);
  }

  /**
   With one million events the sealing file is no event file: the chain stays open, does
   not verify, and every later run writes the same file and counts it again.
   */
  lemma TooLongStaysOpen(h: Hash, dir: Dir, id: string, lost: Digest)
    requires Open(h, dir, id) && !Numbered(dir)
    ensures var after := SealedDir(h, dir, id, lost);
            && |EventNames(dir)| == INDEX_LIMIT
            && EventNames(after) == EventNames(dir)
            && VerifyJournal(h, after, id) == Err(NotSealed)
            && RecoverOne(h, after, id, lost) == Ok(Recovered(Some(after), 1))
  {
    hide EventNames, ReadEvents, ReadChain, EventBytes, FileName, Linked, Holds, Root, Stored, ValidRequestId;
    var es := ReadChainMeaning(h, dir, id);
    var after := SealedDir(h, dir, id, lost);
    ListedLength(dir, es);
    ListedBelowLimit(dir, es);
    OwnerIsValid(h, dir, id, es);
    AppendFarPastLimit(dir, es, |es|, Sealing(h, dir, id, lost));
    ChainIsRead(h, after, id, es);
    OpenIsSealed(h, after, id, lost);
    assert SealedDir(h, after, id, lost) == after;
  }

  /** Recovery seals an open chain for good exactly when six digits number the new event. */
  lemma SealsExactlyWhenNumbered(h: Hash, dir: Dir, id: string, lost: Digest)
    requires Open(h, dir, id)
    ensures VerifyJournal(h, SealedDir(h, dir, id, lost), id).Ok? <==> Numbered(dir)
  {
    hide EventNames, ReadChain, VerifyJournal, RecoverOne, SealedDir;
    if Numbered(dir) {
      SealedVerifies(h, dir, id, lost);
    } else {
      TooLongStaysOpen(h, dir, id, lost);
    }
  }

  /** An open chain that has used up its six digits. */
  ghost predicate Exhausted(h: Hash, dir: Dir, id: string) {
    Open(h, dir, id) && !Numbered(dir)
  }

  /** One journal, recovered: untouched if it was sealed, sealed if it was open. */
  lemma RecoveredOnce(h: Hash, dir: Dir, id: string, lost: Digest)
    requires RecoverOne(h, dir, id, lost).Ok?
    ensures var r := RecoverOne(h, dir, id, lost).value;
            && (r.dir.None? <==> EventNames(dir) == [])
            && (r.count == 1 <==> Open(h, dir, id))
            && (Open(h, dir, id) ==> r.dir.Some?)
            && (r.dir.Some? ==> r.dir.value == if Open(h, dir, id) then SealedDir(h, dir, id, lost) else dir)
  {
    hide EventNames, ReadEvents, SealedDir, Append;
    if Open(h, dir, id) {
      OpenIsSealed(h, dir, id, lost);
    }
  }

  /** Recovering what recovery left: nothing changes, and only exhausted chains count again. */
  lemma RecoveredTwice(h: Hash, dir: Dir, id: string, lost: Digest)
    requires RecoverOne(h, dir, id, lost).Ok? && EventNames(dir) != []
    ensures var after := RecoverOne(h, dir, id, lost).value.dir.value;
            && RecoverOne(h, after, id, lost) == Ok(Recovered(Some(after), if Exhausted(h, dir, id) then 1 else 0))
            && (VerifyJournal(h, after, id).Ok? <==> !Exhausted(h, dir, id))
  {
    hide EventNames, ReadChain, SealedDir, Append;
    RecoveredOnce(h, dir, id, lost);
    if Open(h, dir, id) {
      OpenIsSealed(h, dir, id, lost);
      if Numbered(dir) {
        SealedVerifies(h, dir, id, lost);
      } else {
        TooLongStaysOpen(h, dir, id, lost);
      }
    }
  }

  // ---------------------------------------------------------------- all journals

  /** The `journals` directory: one directory per request. */
  type Home = map<string, Dir>

  function Place(home: Home, id: string, dir: Option<Dir>): Home {
    if dir.Some? then home[id := dir.value] else home - {id}
  }

  function AddSaturating(a: nat, b: nat): nat {
    if a + b <= U32_MAX then a + b else U32_MAX
  }

  /** Whether the change that recovery makes to the journal of an id reaches the disk. */
  type Disk = string -> bool

  const WORKING: Disk := _ => true

  /**
   `recover_one`: it fails, changing nothing, when a directory to remove or an event to write does
   not reach the disk.
   */
  ghost function Try(h: Hash, dir: Dir, id: string, lost: Digest, written: bool): (r: Result<Recovered, Error>)
    ensures r.Ok? ==> r == RecoverOne(h, dir, id, lost)
    ensures r.Err? && written ==> r == RecoverOne(h, dir, id, lost)
  {
    match RecoverOne(h, dir, id, lost)
    case Err(error) => Err(error)
    case Ok(r) => if !written && (r.dir.None? || r.count == 1) then Err(WriteFailed) else Ok(r)
  }

  /** The loop of `recover_open_journals`; it stops at the first journal that fails. */
  ghost function RecoverIds(h: Hash, home: Home, ids: seq<string>, lost: Digest, disk: Disk, count: nat)
    : (Home, Result<nat, Error>)
    requires forall id <- ids :: id in home
    requires NoRepeats(ids)
    decreases |ids|
  {
    if ids == [] then (home, Ok(count))
    else
      match Try(h, home[ids[0]], ids[0], lost, disk(ids[0]))
      case Err(error) => (home, Err(error))
      case Ok(r) =>
        assert forall id <- ids[1..] :: id != ids[0];
        RecoverIds(h, Place(home, ids[0], r.dir), ids[1..], lost, disk, AddSaturating(count, r.count))
  }

  ghost predicate NoRepeats(ids: seq<string>) {
    forall i, j :: 0 <= i < j < |ids| ==> ids[i] != ids[j]
  }

  ghost function IdsInOrder(home: Home): (ids: seq<string>)
    ensures NoRepeats(ids) && forall id :: id in ids <==> id in home
  {
    IdsAreKeys(home);
    InOrder(home.Keys, Utf8.Encode)
  }

  lemma IdsAreKeys(home: Home)
    ensures var ids := InOrder(home.Keys, Utf8.Encode);
            NoRepeats(ids) && forall id :: id in ids <==> id in home
    ensures Increasing(InOrder(home.Keys, Utf8.Encode), Utf8.Encode)
  {
    hide Utf8.Encode, Less, InOrder;
    forall x, y | x in home.Keys && y in home.Keys && Utf8.Encode(x) == Utf8.Encode(y)
      ensures x == y
    {
      Utf8.EncodeInjective(x, y);
    }
    InOrderIs(home.Keys, Utf8.Encode);
    var ids := InOrder(home.Keys, Utf8.Encode);
    forall i, j | 0 <= i < j < |ids|
      ensures ids[i] != ids[j]
    {
      LessIrreflexive(Utf8.Encode(ids[i]));
    }
  }

  ghost function RecoverAll(h: Hash, home: Home, lost: Digest, disk: Disk): (Home, Result<nat, Error>) {
    if exists id <- home :: !ValidRequestId(id) then (home, Err(BadRequestId))
    else RecoverIds(h, home, IdsInOrder(home), lost, disk, 0)
  }

  /** The directory recovery leaves of one journal; a journal that fails keeps its own. */
  ghost function Left(h: Hash, dir: Dir, id: string, lost: Digest): Option<Dir> {
    match RecoverOne(h, dir, id, lost)
    case Ok(r) => r.dir
    case Err(_) => Some(dir)
  }

  /** Every journal of `done` recovered, every other one as it was. */
  ghost function Settled(h: Hash, home: Home, done: seq<string>, lost: Digest): Home {
    map id | id in home && (id in done ==> Left(h, home[id], id, lost).Some?) ::
      if id in done then Left(h, home[id], id, lost).value else home[id]
  }

  ghost function OpenCount(h: Hash, home: Home, ids: seq<string>): nat
    requires forall id <- ids :: id in home
  {
    if ids == [] then 0 else (if Open(h, home[ids[0]], ids[0]) then 1 else 0) + OpenCount(h, home, ids[1..])
  }

  /** The journals up to the first failure are recovered; the rest are untouched. */
  ghost function Reach(h: Hash, home: Home, ids: seq<string>, lost: Digest, disk: Disk): (k: nat)
    requires forall id <- ids :: id in home
    ensures k <= |ids|
  {
    if ids == [] || Try(h, home[ids[0]], ids[0], lost, disk(ids[0])).Err? then 0
    else 1 + Reach(h, home, ids[1..], lost, disk)
  }

  lemma {:induction false} ReachIs(h: Hash, home: Home, ids: seq<string>, lost: Digest, disk: Disk)
    requires forall id <- ids :: id in home
    ensures var k := Reach(h, home, ids, lost, disk);
            && (forall i :: 0 <= i < k ==> Try(h, home[ids[i]], ids[i], lost, disk(ids[i])).Ok?)
            && (k < |ids| ==> Try(h, home[ids[k]], ids[k], lost, disk(ids[k])).Err?)
  {
    hide Try, RecoverOne;
    if ids != [] && Try(h, home[ids[0]], ids[0], lost, disk(ids[0])).Ok? {
      ReachIs(h, home, ids[1..], lost, disk);
      var k := Reach(h, home, ids[1..], lost, disk);
      forall i | 0 <= i < 1 + k
        ensures Try(h, home[ids[i]], ids[i], lost, disk(ids[i])).Ok?
      {
        if i > 0 {
          assert ids[1..][i - 1] == ids[i];
        }
      }
    }
  }

  /** Only the directories of the listed journals matter. */
  lemma {:induction false} SameDirsSameReach(h: Hash, a: Home, b: Home, ids: seq<string>, lost: Digest, disk: Disk)
    requires forall id <- ids :: id in a && id in b && a[id] == b[id]
    ensures Reach(h, a, ids, lost, disk) == Reach(h, b, ids, lost, disk)
    ensures OpenCount(h, a, ids) == OpenCount(h, b, ids)
  {
    hide Try, RecoverOne, Open;
    if ids != [] {
      assert ids[0] in ids;
      SameDirsSameReach(h, a, b, ids[1..], lost, disk);
    }
  }

  lemma SettleFirst(h: Hash, home: Home, ids: seq<string>, lost: Digest, k: nat)
    requires NoRepeats(ids) && (forall id <- ids :: id in home) && 1 <= k <= |ids|
    ensures var next := Place(home, ids[0], Left(h, home[ids[0]], ids[0], lost));
            && (forall id <- ids[1..] :: id in next && next[id] == home[id])
            && Settled(h, next, ids[1..][..k - 1], lost) == Settled(h, home, ids[..k], lost)
  {
    hide Left;
    var tail := ids[1..];
    var next := Place(home, ids[0], Left(h, home[ids[0]], ids[0], lost));
    forall id | id in tail
      ensures id in next && id != ids[0] && next[id] == home[id]
    {
      var i :| 0 <= i < |tail| && tail[i] == id;
      assert ids[i + 1] == id;
    }
    assert ids[..k] == [ids[0]] + tail[..k - 1];
    assert forall id <- tail[..k - 1] :: id in tail;
  }

  /**
   The result of the whole loop, successful or not: the journals before the first failure
   are recovered, the others keep their bytes, and the count is that of the open chains.
   */
  ghost function LoopResult(h: Hash, home: Home, ids: seq<string>, lost: Digest, disk: Disk, count: nat)
    : (Home, Result<nat, Error>)
    requires forall id <- ids :: id in home
  {
    var k := Reach(h, home, ids, lost, disk);
    (Settled(h, home, ids[..k], lost),
     if k == |ids| then Ok(AddSaturating(count, OpenCount(h, home, ids)))
     else Err(Failure(h, home[ids[k]], ids[k], lost, disk)))
  }

  ghost function Failure(h: Hash, dir: Dir, id: string, lost: Digest, disk: Disk): Error {
    match Try(h, dir, id, lost, disk(id))
    case Ok(_) => NoEvents
    case Err(error) => error
  }

  /** The result from the second journal on, when the first one recovers. */
  lemma ResultAfterFirst(h: Hash, home: Home, ids: seq<string>, lost: Digest, disk: Disk, count: nat)
    requires NoRepeats(ids) && (forall id <- ids :: id in home) && ids != []
    requires Try(h, home[ids[0]], ids[0], lost, disk(ids[0])).Ok?
    ensures var r := Try(h, home[ids[0]], ids[0], lost, disk(ids[0])).value;
            var next := Place(home, ids[0], r.dir);
            && (forall id <- ids[1..] :: id in next)
            && LoopResult(h, next, ids[1..], lost, disk, AddSaturating(count, r.count)) ==
               LoopResult(h, home, ids, lost, disk, count)
  {
    hide Try, RecoverOne, Open, Settled, Place, EventNames, SealedDir, Failure;
    var k, tail := Reach(h, home, ids, lost, disk), ids[1..];
    var r := Try(h, home[ids[0]], ids[0], lost, disk(ids[0])).value;
    var next := Place(home, ids[0], r.dir);
    RecoveredOnce(h, home[ids[0]], ids[0], lost);
    AtMostOne(h, home[ids[0]], ids[0], lost);
    SettleFirst(h, home, ids, lost, k);
    SameDirsSameReach(h, home, next, tail, lost, disk);
    assert Reach(h, next, tail, lost, disk) == k - 1;
    assert k < |ids| ==> tail[k - 1] == ids[k] && ids[k] in tail;
  }

  lemma {:induction false} LoopIs(h: Hash, home: Home, ids: seq<string>, lost: Digest, disk: Disk, count: nat)
    requires NoRepeats(ids) && (forall id <- ids :: id in home) && count <= U32_MAX
    ensures RecoverIds(h, home, ids, lost, disk, count) == LoopResult(h, home, ids, lost, disk, count)
    decreases |ids|
  {
    hide Try, RecoverOne, LoopResult, Place;
    if ids == [] || Try(h, home[ids[0]], ids[0], lost, disk(ids[0])).Err? {
      ResultAtFailure(h, home, ids, lost, disk, count);
    } else {
      var r := Try(h, home[ids[0]], ids[0], lost, disk(ids[0])).value;
      ResultAfterFirst(h, home, ids, lost, disk, count);
      LoopIs(h, Place(home, ids[0], r.dir), ids[1..], lost, disk, AddSaturating(count, r.count));
    }
  }

  lemma ResultAtFailure(h: Hash, home: Home, ids: seq<string>, lost: Digest, disk: Disk, count: nat)
    requires forall id <- ids :: id in home
    requires ids == [] || Try(h, home[ids[0]], ids[0], lost, disk(ids[0])).Err?
    requires count <= U32_MAX
    ensures LoopResult(h, home, ids, lost, disk, count) ==
            (home, if ids == [] then Ok(count) else Err(Try(h, home[ids[0]], ids[0], lost, disk(ids[0])).error))
  {
    hide Try, RecoverOne, Open, Settled;
    SettleNone(h, home, lost);
    assert ids[..0] == [];
  }

  lemma AtMostOne(h: Hash, dir: Dir, id: string, lost: Digest)
    ensures RecoverOne(h, dir, id, lost).Ok? ==> RecoverOne(h, dir, id, lost).value.count <= 1
  {
  }

  lemma SettleNone(h: Hash, home: Home, lost: Digest)
    ensures Settled(h, home, [], lost) == home
  {
  }

  // ---------------------------------------------------------------- main results

  lemma {:induction false} OpenCountIs(h: Hash, home: Home, ids: seq<string>)
    requires NoRepeats(ids) && forall id <- ids :: id in home
    ensures OpenCount(h, home, ids) == |set id | id in ids && Open(h, home[id], id)|
  {
    hide Open;
    var all := set id | id in ids && Open(h, home[id], id);
    if ids == [] {
      assert all == {};
    } else {
      OpenCountIs(h, home, ids[1..]);
      var tail := set id | id in ids[1..] && Open(h, home[id], id);
      assert ids[0] !in ids[1..];
      assert all == if Open(h, home[ids[0]], ids[0]) then tail + {ids[0]} else tail;
    }
  }

  ghost predicate AllValid(home: Home) {
    forall id <- home :: ValidRequestId(id)
  }

  ghost predicate AllRecover(h: Hash, home: Home, lost: Digest, disk: Disk) {
    forall id <- home :: Try(h, home[id], id, lost, disk(id)).Ok?
  }

  /** Recovery stopped at the first journal that fails: those before it are recovered, the others untouched. */
  ghost predicate StopsAt(h: Hash, home: Home, lost: Digest, disk: Disk, after: Home, error: Error) {
    var ids := IdsInOrder(home);
    exists k ::
      0 <= k < |ids| && FailsFirst(h, home, ids, lost, disk, k, error) && after == Settled(h, home, ids[..k], lost)
  }

  ghost predicate FailsFirst(h: Hash, home: Home, ids: seq<string>, lost: Digest, disk: Disk, k: nat, error: Error)
    requires k < |ids| && forall id <- ids :: id in home
  {
    && (forall i :: 0 <= i < k ==> Try(h, home[ids[i]], ids[i], lost, disk(ids[i])).Ok?)
    && Try(h, home[ids[k]], ids[k], lost, disk(ids[k])) == Err(error)
  }

  lemma LoopStops(h: Hash, home: Home, lost: Digest, disk: Disk)
    ensures var (after, r) := LoopResult(h, home, IdsInOrder(home), lost, disk, 0);
            r.Err? ==> StopsAt(h, home, lost, disk, after, r.error)
  {
    hide Try, RecoverOne, Settled, IdsInOrder;
    var ids := IdsInOrder(home);
    var k := Reach(h, home, ids, lost, disk);
    var (after, r) := LoopResult(h, home, ids, lost, disk, 0);
    ReachIs(h, home, ids, lost, disk);
    if r.Err? {
      assert FailsFirst(h, home, ids, lost, disk, k, r.error);
    }
  }

  /**
   Recovery succeeds exactly when every directory is a request whose journal recovers, with
   every write it needs. A bad name stops it before any change; any other failure leaves the
   journals before the failing one recovered and changes no other.
   */
  lemma RecoverAllMeaning(h: Hash, home: Home, lost: Digest, disk: Disk)
    ensures var (after, r) := RecoverAll(h, home, lost, disk);
            && (r.Ok? <==> AllValid(home) && AllRecover(h, home, lost, disk))
            && (!AllValid(home) ==> after == home)
            && (r.Ok? ==> after == Settled(h, home, IdsInOrder(home), lost))
            && (r.Ok? ==>
                  var open := |set id | id in home && Open(h, home[id], id)|;
                  r.value == if open <= 0xffff_ffff then open else 0xffff_ffff)
            && (r.Err? && AllValid(home) ==> StopsAt(h, home, lost, disk, after, r.error))
  {
    hide StopsAt, Try, RecoverOne, Open, Settled, ValidRequestId, IdsInOrder, RecoverIds, LoopResult, Left;
    if AllValid(home) {
      var ids := IdsInOrder(home);
      IdsListHome(home);
      LoopIs(h, home, ids, lost, disk, 0);
      LoopSucceeds(h, home, ids, lost, disk);
      LoopStops(h, home, lost, disk);
      OpenCountIs(h, home, ids);
      assert (set id | id in ids && Open(h, home[id], id)) == (set id | id in home && Open(h, home[id], id));
    }
  }

  lemma IdsListHome(home: Home)
    ensures NoRepeats(IdsInOrder(home)) && forall id :: id in IdsInOrder(home) <==> id in home
  {
  }

  lemma LoopSucceeds(h: Hash, home: Home, ids: seq<string>, lost: Digest, disk: Disk)
    requires forall id :: id in ids <==> id in home
    ensures var (after, r) := LoopResult(h, home, ids, lost, disk, 0);
            && (r.Ok? <==> AllRecover(h, home, lost, disk))
            && (r.Ok? ==> after == Settled(h, home, ids, lost) && r.value == AddSaturating(0, OpenCount(h, home, ids)))
  {
    hide Try, RecoverOne, Open, Settled;
    ReachIs(h, home, ids, lost, disk);
    var k := Reach(h, home, ids, lost, disk);
    if k == |ids| {
      assert ids[..|ids|] == ids;
      forall id | id in home
        ensures Try(h, home[id], id, lost, disk(id)).Ok?
      {
        assert id in ids;
      }
    } else {
      assert ids[k] in ids;
    }
  }

  /** What one successful recovery does to every journal of the home. */
  ghost predicate Kept(h: Hash, home: Home, after: Home, id: string, lost: Digest)
    requires id in home
  {
    var dir := home[id];
    && (id in after <==> EventNames(dir) != [])
    && (id in after && !Open(h, dir, id) ==> after[id] == dir)
    && (Open(h, dir, id) ==> after[id] == SealedDir(h, dir, id, lost))
    && (Open(h, dir, id) && Numbered(dir) ==> FileName(|EventNames(dir)|, "failed") !in dir)
    && (id in after ==> (VerifyJournal(h, after[id], id).Ok? <==> !Exhausted(h, dir, id)))
  }

  lemma LeftIsKept(h: Hash, home: Home, after: Home, id: string, lost: Digest)
    requires id in home && RecoverOne(h, home[id], id, lost).Ok?
    requires id in after <==> Left(h, home[id], id, lost).Some?
    requires id in after ==> after[id] == Left(h, home[id], id, lost).value
    ensures Kept(h, home, after, id, lost)
    ensures id in after ==>
              RecoverOne(h, after[id], id, lost) ==
              Ok(Recovered(Some(after[id]), if Exhausted(h, home[id], id) then 1 else 0))
  {
    hide EventNames, ReadChain, SealedDir, VerifyJournal, RecoverOne;
    RecoveredOnce(h, home[id], id, lost);
    if id in after {
      RecoveredTwice(h, home[id], id, lost);
      if Open(h, home[id], id) && Numbered(home[id]) {
        SealedVerifies(h, home[id], id, lost);
      }
    }
  }

  /**
   After recovery succeeds: directories without events are gone, sealed chains are byte for
   byte as they were, each open chain has gained its `failed` event and nothing else, and
   every journal left verifies unless six digits were used up.
   */
  lemma RecoverySettles(h: Hash, home: Home, lost: Digest, disk: Disk)
    requires RecoverAll(h, home, lost, disk).1.Ok?
    ensures var after := RecoverAll(h, home, lost, disk).0;
            && (forall id <- after :: id in home)
            && (forall id <- home :: Kept(h, home, after, id, lost))
  {
    hide Try, RecoverOne, Kept, RecoverAll, Left;
    RecoverAllMeaning(h, home, lost, disk);
    var after := RecoverAll(h, home, lost, disk).0;
    forall id | id in home
      ensures Kept(h, home, after, id, lost)
    {
      LeftIsKept(h, home, after, id, lost);
    }
  }

  /**
   A second run changes nothing, whether or not its writes reach the disk; it returns zero
   exactly when no chain had used up its six digits.
   */
  lemma SecondRunIsIdle(h: Hash, home: Home, lost: Digest, disk: Disk, again: Disk)
    requires RecoverAll(h, home, lost, disk).1.Ok?
    ensures var after := RecoverAll(h, home, lost, disk).0;
            && RecoverAll(h, after, lost, again).0 == after
            && RecoverAll(h, after, lost, WORKING).1.Ok?
            && (RecoverAll(h, after, lost, again).1 == Ok(0) <==> forall id <- home :: !Exhausted(h, home[id], id))
  {
    hide Try, RecoverOne, Kept, RecoverAll, Left, Exhausted, Open, IdsInOrder, EventNames, StopsAt;
    RecoverAllMeaning(h, home, lost, disk);
    var after := RecoverAll(h, home, lost, disk).0;
    forall id | id in home
      ensures id in after ==>
                RecoverOne(h, after[id], id, lost) ==
                Ok(Recovered(Some(after[id]), if Exhausted(h, home[id], id) then 1 else 0))
      ensures id !in after ==> !Exhausted(h, home[id], id)
    {
      LeftIsKept(h, home, after, id, lost);
      if id !in after {
        GoneWasNotOpen(h, home, after, id, lost);
      }
    }
    assert AllValid(after);
    assert AllRecover(h, after, lost, WORKING);
    RecoverAllMeaning(h, after, lost, WORKING);
    SettledRunKeeps(h, after, lost, again);
    SettledAgain(h, after, IdsInOrder(after), lost);
    NoneExhausted(h, home, after, lost, again);
    RecoverAllMeaning(h, after, lost, again);
  }

  /** A run over journals that recover to themselves changes none of them, even when it fails. */
  lemma SettledRunKeeps(h: Hash, after: Home, lost: Digest, disk: Disk)
    requires AllValid(after)
    requires forall id <- after :: RecoverOne(h, after[id], id, lost).Ok?
                                   && RecoverOne(h, after[id], id, lost).value.dir == Some(after[id])
    ensures RecoverAll(h, after, lost, disk).0 == after
  {
    hide Try, RecoverOne, IdsInOrder, FailsFirst, RecoverAll, Settled, Left;
    RecoverAllMeaning(h, after, lost, disk);
    var ids, r := IdsInOrder(after), RecoverAll(h, after, lost, disk);
    if r.1.Err? {
      var k :|
        && 0 <= k < |ids| && FailsFirst(h, after, ids, lost, disk, k, r.1.error)
        && r.0 == Settled(h, after, ids[..k], lost);
      SettledAgain(h, after, ids[..k], lost);
    } else {
      SettledAgain(h, after, ids, lost);
    }
  }

  lemma GoneWasNotOpen(h: Hash, home: Home, after: Home, id: string, lost: Digest)
    requires id in home && id !in after && Kept(h, home, after, id, lost)
    ensures !Exhausted(h, home[id], id)
  {
    hide ReadEvents;
  }

  lemma SettledAgain(h: Hash, after: Home, done: seq<string>, lost: Digest)
    requires forall id <- after :: RecoverOne(h, after[id], id, lost).Ok?
                                   && RecoverOne(h, after[id], id, lost).value.dir == Some(after[id])
    ensures Settled(h, after, done, lost) == after
  {
    hide RecoverOne;
  }

  lemma NoneExhausted(h: Hash, home: Home, after: Home, lost: Digest, disk: Disk)
    requires forall id <- after :: id in home
    requires forall id <- home :: id in after ==>
               RecoverOne(h, after[id], id, lost) ==
               Ok(Recovered(Some(after[id]), if Exhausted(h, home[id], id) then 1 else 0))
    requires forall id <- home :: id !in after ==> !Exhausted(h, home[id], id)
    ensures AllRecover(h, after, lost, disk)
            && AddSaturating(0, |set id | id in after && Open(h, after[id], id)|) == 0
            <==> forall id <- home :: !Exhausted(h, home[id], id)
  {
    hide RecoverOne, Exhausted, Open;
    forall id | id in after
      ensures Open(h, after[id], id) <==> Exhausted(h, home[id], id)
    {
      RecoveredOnce(h, after[id], id, lost);
    }
    var open := set id | id in after && Open(h, after[id], id);
    if open == {} {
      forall id | id in home
        ensures !Exhausted(h, home[id], id)
      {
        if id in after {
          assert id !in open;
        }
      }
    } else {
      var id :| id in open;
      assert |open| > 0;
    }
  }

  // ---------------------------------------------------------------- recovery after a failed recovery

  /** One journal after a run that may have failed: as it was, or as recovery leaves it. */
  ghost predicate Halfway(h: Hash, home: Home, after: Home, id: string, lost: Digest)
    requires id in home
  {
    || (id in after && after[id] == home[id])
    || (RecoverOne(h, home[id], id, lost).Ok?
        && (id in after <==> Left(h, home[id], id, lost).Some?)
        && (id in after ==> after[id] == Left(h, home[id], id, lost).value))
  }

  lemma SettledIsHalfway(h: Hash, home: Home, done: seq<string>, lost: Digest)
    requires forall id <- done :: id in home && RecoverOne(h, home[id], id, lost).Ok?
    ensures var after := Settled(h, home, done, lost);
            && (forall id <- after :: id in home)
            && (forall id <- home :: Halfway(h, home, after, id, lost))
  {
    hide RecoverOne, Left;
  }

  lemma RunIsHalfway(h: Hash, home: Home, lost: Digest, disk: Disk)
    ensures var after := RecoverAll(h, home, lost, disk).0;
            && (forall id <- after :: id in home)
            && (forall id <- home :: Halfway(h, home, after, id, lost))
  {
    hide Try, RecoverOne, IdsInOrder, RecoverAll, Left, Open, Settled, Halfway;
    RecoverAllMeaning(h, home, lost, disk);
    var ids, r := IdsInOrder(home), RecoverAll(h, home, lost, disk);
    if r.1.Err? && AllValid(home) {
      var k :|
        && 0 <= k < |ids| && FailsFirst(h, home, ids, lost, disk, k, r.1.error)
        && r.0 == Settled(h, home, ids[..k], lost);
      forall id | id in ids[..k]
        ensures id in home && RecoverOne(h, home[id], id, lost).Ok?
      {
        var i :| 0 <= i < k && ids[i] == id;
        assert Try(h, home[ids[i]], ids[i], lost, disk(ids[i])).Ok?;
      }
      SettledIsHalfway(h, home, ids[..k], lost);
    } else if r.1.Ok? {
      IdsListHome(home);
      SettledIsHalfway(h, home, ids, lost);
    } else {
      Untouched(h, home, lost);
    }
  }

  lemma Untouched(h: Hash, home: Home, lost: Digest)
    ensures forall id <- home :: Halfway(h, home, home, id, lost)
  {
  }

  lemma HalfwayLeaves(h: Hash, home: Home, after: Home, id: string, lost: Digest)
    requires id in home && Halfway(h, home, after, id, lost)
    requires id in after ==> RecoverOne(h, after[id], id, lost).Ok?
    ensures RecoverOne(h, home[id], id, lost).Ok?
    ensures Left(h, home[id], id, lost) == if id in after then Left(h, after[id], id, lost) else None
  {
    hide RecoverOne;
    if RecoverOne(h, home[id], id, lost).Ok? && !(id in after && after[id] == home[id]) && id in after {
      RecoveredOnce(h, home[id], id, lost);
      RecoveredTwice(h, home[id], id, lost);
    }
  }

  /**
   Whatever a run left when it failed, a later run that succeeds ends where one uninterrupted run
   would have ended: failed writes cost a retry, never an event.
   */
  lemma RetryCompletes(h: Hash, home: Home, lost: Digest, disk: Disk, again: Disk)
    requires AllValid(home)
    requires RecoverAll(h, RecoverAll(h, home, lost, disk).0, lost, again).1.Ok?
    ensures RecoverAll(h, home, lost, WORKING).1.Ok?
    ensures RecoverAll(h, RecoverAll(h, home, lost, disk).0, lost, again).0 == RecoverAll(h, home, lost, WORKING).0
  {
    hide Try, RecoverOne, IdsInOrder, RecoverAll, Left, Open, Halfway, StopsAt;
    var after := RecoverAll(h, home, lost, disk).0;
    RunIsHalfway(h, home, lost, disk);
    RecoverAllMeaning(h, after, lost, again);
    forall id | id in home
      ensures RecoverOne(h, home[id], id, lost).Ok?
      ensures Left(h, home[id], id, lost) == if id in after then Left(h, after[id], id, lost) else None
    {
      if id in after {
        assert Try(h, after[id], id, lost, again(id)).Ok?;
      }
      HalfwayLeaves(h, home, after, id, lost);
    }
    assert AllRecover(h, home, lost, WORKING);
    RecoverAllMeaning(h, home, lost, WORKING);
    IdsListHome(home);
    IdsListHome(after);
  }

  // ---------------------------------------------------------------- a chain that cannot be sealed

  function Tokens(n: nat, payload: Digest): (calls: seq<Call>)
    ensures |calls| == n
  {
    seq(n, _ => Call.Event("token", payload, true))
  }

  lemma {:induction false} TokensAppend(h: Hash, id: string, st: State, n: nat, payload: Digest)
    requires ValidRequestId(id)
    ensures var es := History(h, id, st, Tokens(n, payload));
            |es| == n && forall e <- es :: e.name == "token"
    decreases n
  {
    hide Root, EventBytes, FileName, ValidRequestId;
    if n > 0 {
      var calls := Tokens(n, payload);
      assert calls[1..] == Tokens(n - 1, payload);
      TokensAppend(h, id, Step(h, id, st, calls[0]), n - 1, payload);
    }
  }

  /** One acceptance and 999,999 tokens. */
  function LongRun(payload: Digest): seq<Call> {
    [Call.Event("accepted", payload, true)] + Tokens(INDEX_LIMIT - 1, payload)
  }

  lemma LongHistory(h: Hash, id: string, payload: Digest)
    requires ValidRequestId(id)
    ensures var es := History(h, id, FRESH, LongRun(payload));
            |es| == INDEX_LIMIT && es[0].name == "accepted" && es[|es| - 1].name == "token"
  {
    hide Root, EventBytes, FileName, ValidRequestId, Tokens;
    var calls := LongRun(payload);
    assert calls[1..] == Tokens(INDEX_LIMIT - 1, payload);
    var st := Step(h, id, FRESH, calls[0]);
    TokensAppend(h, id, st, INDEX_LIMIT - 1, payload);
    var rest := History(h, id, st, Tokens(INDEX_LIMIT - 1, payload));
    assert rest[|rest| - 1] in rest;
  }

  /** The state that run leaves is open and exhausted: recovery returns success and seals nothing. */
  lemma LongRunIsNeverSealed(h: Hash, id: string, payload: Digest, lost: Digest)
    requires ValidRequestId(id)
    ensures var dir := Run(h, id, FRESH, LongRun(payload)).dir;
            && Exhausted(h, dir, id)
            && RecoverOne(h, dir, id, lost).Ok?
            && RecoverOne(h, dir, id, lost).value.dir.Some?
            && VerifyJournal(h, RecoverOne(h, dir, id, lost).value.dir.value, id).Err?
  {
    hide Root, EventNames, ReadChain, Run, History, FileName, Lists, Linked, EndsWith, LongRun,
      ValidRequestId, VerifyJournal, RecoverOne, SealedDir;
    var es := History(h, id, FRESH, LongRun(payload));
    LongHistory(h, id, payload);
    FreshIsReached(h, id);
    RunReaches(h, id, FRESH, [], LongRun(payload));
    assert [] + es == es;
    var st := Run(h, id, FRESH, LongRun(payload));
    ReachedChain(h, id, st, es);
    AcceptedSuffix();
    OpenIsSealed(h, st.dir, id, lost);
    TooLongStaysOpen(h, st.dir, id, lost);
  }
}
