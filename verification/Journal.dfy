/**
 `journal.rs` as it runs: the `journals` directory changes in place, a `Journal` moves its
 head with every append, and reading, verifying and recovering are loops over files.
 */
module Journal {
  import opened Wrappers
  import opened Bytes
  import opened Digests
  import opened InferenceEvent
  import opened JournalSpec
  import opened JournalRuns
  import opened JournalRecovery
  import opened Sorting
  import Utf8

  /** The `journals` directory. */
  class Store {
    var journals: Home

    constructor (journals: Home)
      ensures this.journals == journals
    {
      this.journals := journals;
    }
  }

  class Journal {
    const store: Store
    const requestId: string
    var previous: Option<Digest>
    var nextIndex: nat

    constructor (store: Store, requestId: string, previous: Option<Digest>, nextIndex: nat)
      ensures this.store == store && this.requestId == requestId
      ensures this.previous == previous && this.nextIndex == nextIndex
    {
      this.store, this.requestId, this.previous, this.nextIndex := store, requestId, previous, nextIndex;
    }

    ghost function Current(): State
      requires requestId in store.journals
      reads this, store
    {
      State(store.journals[requestId], previous, nextIndex)
    }

    /** Writes the next event; an event that is not valid or not written changes nothing. */
    method Append(h: Hash, name: string, payload: Digest, written: bool) returns (r: Result<Digest, Error>)
      requires requestId in store.journals
      modifies this, store
      ensures store.journals.Keys == old(store.journals.Keys)
      ensures Current() == Step(h, requestId, old(Current()), Call.Event(name, payload, written))
      ensures store.journals == old(store.journals)[requestId := Current().dir]
      ensures r == match JournalRuns.Append(h, requestId, old(Current()), name, payload)
                   case Err(error) => Err(error)
                   case Ok(next) => if written then Ok(next.previous.value) else Err(WriteFailed)
    {
      hide EventBytes, Root, FileName, InferenceEvent.Valid;
      var e := InferenceEvent.Event(requestId, 1, name, previous, payload, []);
      if !InferenceEvent.Valid(e) {
        return Err(InvalidEvent);
      }
      var bytes := EventBytes(e);
      var root := Root(h, e);
      if !written {
        return Err(WriteFailed);
      }
      var dir := store.journals[requestId];
      store.journals := store.journals[requestId := dir[FileName(nextIndex, name) := bytes]];
      previous := Some(root);
      nextIndex := nextIndex + 1;
      return Ok(root);
    }

    /** Writes the sampler plan beside the events. */
    method WriteSampler(h: Hash, bytes: seq<Byte>, written: bool) returns (r: Outcome<Error>)
      requires requestId in store.journals
      modifies store
      ensures store.journals.Keys == old(store.journals.Keys)
      ensures Current() == Step(h, requestId, old(Current()), Call.Sampler(bytes, written))
      ensures store.journals == old(store.journals)[requestId := Current().dir]
      ensures r.Pass? == written
    {
      if !written {
        return Fail(WriteFailed);
      }
      store.journals := store.journals[requestId := store.journals[requestId][SAMPLER := bytes]];
      return Pass;
    }
  }

  /** `Journal::create`: a new, empty directory. */
  method Create(h: Hash, store: Store, requestId: string) returns (r: Result<Journal, Error>)
    modifies store
    ensures r.Ok? <==> requestId !in old(store.journals)
    ensures r.Err? ==> store.journals == old(store.journals)
    ensures r.Ok? ==> fresh(r.value) && r.value.store == store && r.value.requestId == requestId
    ensures r.Ok? ==> store.journals == old(store.journals)[requestId := map[]]
    ensures r.Ok? ==> r.value.Current() == FRESH && Reached(h, requestId, FRESH, [])
  {
    if requestId in store.journals {
      return Err(AlreadyExists);
    }
    store.journals := store.journals[requestId := map[]];
    var journal := new Journal(store, requestId, None, 0);
    FreshIsReached(h, requestId);
    return Ok(journal);
  }

  /** `event_names`: the event files in whatever order they are found, then sorted. */
  method ListEvents(dir: Dir) returns (names: seq<Name>)
    ensures names == EventNames(dir)
  {
    hide EventName, EventNames, Less, Sort;
    names := [];
    var unseen := dir.Keys;
    while unseen != {}
      invariant unseen <= dir.Keys
      invariant forall n :: n in names <==> n in dir && n !in unseen && EventName(n)
      invariant DistinctBy(names, Same)
      decreases |unseen|
    {
      var name :| name in unseen;
      if EventName(name) {
        names := names + [name];
      }
      unseen := unseen - {name};
    }
    SortedListing(dir, names);
    names := Sort(names, Same);
  }

  lemma SortedListing(dir: Dir, names: seq<Name>)
    requires forall n :: n in names <==> n in dir && EventName(n)
    requires DistinctBy(names, Same)
    ensures Sort(names, Same) == EventNames(dir)
  {
    hide EventName, EventNames, Less;
    var sorted := Sort(names, Same);
    SortDistinct(names, Same);
    ListingUnique(dir, sorted);
  }

  /** `read_chain`: one pass over the files, holding the root of the event before. */
  method ReadChain(h: Hash, dir: Dir, id: string, names: seq<Name>) returns (r: Result<Chain, Error>)
    ensures r == JournalSpec.ReadChain(h, dir, id, names)
  {
    hide ParseEvent, Trim, Digits, Root, Utf8.Encode, ReadEvents, Prepend;
    PrependNothing(ReadEvents(h, dir, id, names, 0, None));
    var previous: Option<Digest> := None;
    var lastName := "";
    var index := 0;
    ghost var done: seq<InferenceEvent.Event> := [];
    while index < |names|
      invariant index == |done| <= |names|
      invariant previous == Before(h, done, index)
      invariant index > 0 ==> lastName == done[index - 1].name
      invariant ReadEvents(h, dir, id, names, 0, None) ==
                Prepend(done, ReadEvents(h, dir, id, names, index, previous))
    {
      var name := names[index];
      ReadEventsStep(h, dir, id, names, index, previous);
      PrependError(done, ReadEvents(h, dir, id, names, index, previous));
      if !(Digits(index, 6) + [DOT] <= name) {
        return Err(NotContiguous);
      }
      if name !in dir {
        return Err(Unreadable);
      }
      var parsed := ParseEvent(dir[name]);
      if parsed.None? {
        return Err(BadEvent);
      }
      var event := parsed.value;
      if event.requestId != id || event.previous != previous {
        return Err(ChainBroken);
      }
      if Utf8.Encode(event.name) != Trim(name[7..]) {
        return Err(NameMismatch);
      }
      PrependOne(done, event, ReadEvents(h, dir, id, names, index + 1, Some(Root(h, event))));
      previous := Some(Root(h, event));
      lastName := event.name;
      done := done + [event];
      index := index + 1;
    }
    ReadAll(h, dir, id, names, previous, done);
    if previous.None? {
      return Err(NoEvents);
    }
    return Ok(Chain(previous.value, |names|, Terminal(lastName), EndsWith(names[0], ACCEPTED_SUFFIX)));
  }

  function Prepend(done: seq<InferenceEvent.Event>, rest: Result<seq<InferenceEvent.Event>, Error>)
    : Result<seq<InferenceEvent.Event>, Error>
  {
    match rest
    case Ok(es) => Ok(done + es)
    case Err(error) => Err(error)
  }

  lemma PrependNothing(rest: Result<seq<InferenceEvent.Event>, Error>)
    ensures Prepend([], rest) == rest
  {
    if rest.Ok? {
      assert [] + rest.value == rest.value;
    }
  }

  lemma PrependError(done: seq<InferenceEvent.Event>, rest: Result<seq<InferenceEvent.Event>, Error>)
    ensures rest.Err? ==> Prepend(done, rest) == rest
  {
  }

  lemma ReadAll(h: Hash, dir: Dir, id: string, names: seq<Name>, previous: Option<Digest>,
                done: seq<InferenceEvent.Event>)
    ensures Prepend(done, ReadEvents(h, dir, id, names, |names|, previous)) == Ok(done)
  {
    assert done + [] == done;
  }

  lemma ReadEventsStep(h: Hash, dir: Dir, id: string, names: seq<Name>, index: nat, previous: Option<Digest>)
    requires index < |names|
    ensures ReadEvents(h, dir, id, names, index, previous) ==
            match ReadNext(dir, id, names[index], index, previous)
            case Err(error) => Err(error)
            case Ok(e) => Prepend([e], ReadEvents(h, dir, id, names, index + 1, Some(Root(h, e))))
  {
    hide ReadNext, Root;
  }

  lemma PrependOne(done: seq<InferenceEvent.Event>, e: InferenceEvent.Event,
                   rest: Result<seq<InferenceEvent.Event>, Error>)
    ensures Prepend(done, Prepend([e], rest)) == Prepend(done + [e], rest)
  {
    if rest.Ok? {
      ConcatAssociative(done, [e], rest.value);
    }
  }

  method VerifyJournal(h: Hash, store: Store, id: string) returns (r: Result<Digest, Error>)
    ensures id !in store.journals ==> r == Err(NoEvents)
    ensures id in store.journals ==> r == JournalSpec.VerifyJournal(h, store.journals[id], id)
  {
    if id !in store.journals {
      return Err(NoEvents);
    }
    var dir := store.journals[id];
    var names := ListEvents(dir);
    if names == [] {
      return Err(NoEvents);
    }
    var chain :- ReadChain(h, dir, id, names);
    if chain.startedAccepted && chain.terminal {
      return Ok(chain.previous);
    }
    return Err(NotSealed);
  }

  /** `recover_one`: removes an empty journal, seals an open one, leaves a sealed one. */
  method RecoverOne(h: Hash, store: Store, id: string, lost: Digest, written: bool) returns (r: Result<nat, Error>)
    requires id in store.journals
    modifies store
    ensures match Try(h, old(store.journals[id]), id, lost, written)
            case Err(error) => r == Err(error) && store.journals == old(store.journals)
            case Ok(left) => r == Ok(left.count) && store.journals == Place(old(store.journals), id, left.dir)
  {
    hide EventNames, JournalSpec.ReadChain, JournalRuns.Append;
    var dir := store.journals[id];
    var names := ListEvents(dir);
    if names == [] {
      if !written {
        return Err(WriteFailed);
      }
      store.journals := store.journals - {id};
      return Ok(0);
    }
    var chain :- ReadChain(h, dir, id, names);
    if chain.terminal && chain.startedAccepted {
      assert store.journals[id := dir] == store.journals;
      return Ok(0);
    }
    if !chain.startedAccepted {
      return Err(NotSealed);
    }
    var journal := new Journal(store, id, Some(chain.previous), chain.nextIndex);
    assert journal.Current() == State(dir, Some(chain.previous), chain.nextIndex);
    label before:
    var appended := journal.Append(h, "failed", lost, written);
    assert appended.Err? ==> store.journals == old@before(store.journals);
    var _ :- appended;
    return Ok(1);
  }

  /** The first loop of `recover_open_journals`: every name must be a request id. */
  method ListIds(home: Home) returns (r: Result<seq<string>, Error>)
    ensures r == if AllValid(home) then Ok(IdsInOrder(home)) else Err(BadRequestId)
  {
    hide ValidRequestId, IdsInOrder, Sort;
    var ids: seq<string> := [];
    var unseen := home.Keys;
    while unseen != {}
      invariant unseen <= home.Keys
      invariant forall id :: id in ids <==> id in home && id !in unseen
      invariant forall id <- ids :: ValidRequestId(id)
      invariant NoRepeats(ids)
      decreases |unseen|
    {
      var id :| id in unseen;
      if !ValidRequestId(id) {
        return Err(BadRequestId);
      }
      ids := ids + [id];
      unseen := unseen - {id};
    }
    SortedIds(home, ids);
    return Ok(Sort(ids, Utf8.Encode));
  }

  /** `recover_open_journals`: checks every name first, then recovers in byte order. */
  method RecoverOpenJournals(h: Hash, store: Store, lost: Digest, disk: Disk) returns (r: Result<nat, Error>)
    modifies store
    ensures (store.journals, r) == RecoverAll(h, old(store.journals), lost, disk)
  {
    hide ValidRequestId, IdsInOrder, Try, Place, RecoverIds;
    var ids :- ListIds(store.journals);
    IdsListHome(store.journals);
    var sealed: nat := 0;
    var i := 0;
    while i < |ids|
      invariant i <= |ids| && sealed <= U32_MAX
      invariant NoRepeats(ids[i..]) && (forall id <- ids[i..] :: id in store.journals)
      invariant RecoverAll(h, old(store.journals), lost, disk)
                == RecoverIds(h, store.journals, ids[i..], lost, disk, sealed)
    {
      assert ids[i..][0] == ids[i] && ids[i..][1..] == ids[i + 1..];
      OneMore(h, store.journals, ids[i..], lost, disk, sealed);
      var count :- RecoverOne(h, store, ids[i], lost, disk(ids[i]));
      sealed := AddSaturating(sealed, count);
      i := i + 1;
    }
    NoMore(h, store.journals, lost, disk, sealed);
    assert ids[i..] == [];
    return Ok(sealed);
  }

  /** One turn of the loop: what is left to recover after a journal that recovers. */
  lemma OneMore(h: Hash, home: Home, ids: seq<string>, lost: Digest, disk: Disk, count: nat)
    requires NoRepeats(ids) && (forall id <- ids :: id in home) && ids != []
    ensures NoRepeats(ids[1..])
    ensures var r := Try(h, home[ids[0]], ids[0], lost, disk(ids[0]));
            && (r.Err? ==> RecoverIds(h, home, ids, lost, disk, count) == (home, Err(r.error)))
            && (r.Ok? ==>
                  var next := Place(home, ids[0], r.value.dir);
                  && (forall id <- ids[1..] :: id in next)
                  && RecoverIds(h, home, ids, lost, disk, count) ==
                     RecoverIds(h, next, ids[1..], lost, disk, AddSaturating(count, r.value.count)))
  {
    hide Try;
    assert forall id <- ids[1..] :: id != ids[0];
  }

  lemma NoMore(h: Hash, home: Home, lost: Digest, disk: Disk, count: nat)
    ensures RecoverIds(h, home, [], lost, disk, count) == (home, Ok(count))
  {
  }

  lemma SortedIds(home: Home, ids: seq<string>)
    requires forall id :: id in ids <==> id in home
    requires NoRepeats(ids)
    ensures Sort(ids, Utf8.Encode) == IdsInOrder(home)
  {
    hide Utf8.Encode, Less, IdsInOrder;
    forall i, j | 0 <= i < j < |ids|
      ensures Utf8.Encode(ids[i]) != Utf8.Encode(ids[j])
    {
      if Utf8.Encode(ids[i]) == Utf8.Encode(ids[j]) {
        Utf8.EncodeInjective(ids[i], ids[j]);
      }
    }
    SortDistinct(ids, Utf8.Encode);
    IdsAreKeys(home);
    IdsAre(home);
    IncreasingUnique(Sort(ids, Utf8.Encode), IdsInOrder(home), Utf8.Encode);
  }

  lemma IdsAre(home: Home)
    ensures IdsInOrder(home) == InOrder(home.Keys, Utf8.Encode)
  {
  }
}
