/** Event directories: listing and reading chains. */
module JournalSpec {
  /*
   The event directories of `journal.rs` as values: how files are named and listed, what
   `read_chain` accepts, what recovery leaves behind, and the theorems about all of them.
   A directory holds regular files under UTF-8 names; the event root hash is any function.
   */
  import opened Wrappers
  import opened Bytes
  import opened Digests
  import opened InferenceEvent
  import opened Sorting
  import Utf8

  /** A file name, as its UTF-8 bytes. */
  type Name = seq<Byte>

  type Dir = map<Name, seq<Byte>>

  const DOT: Byte := 0x2e
  const SUFFIX: Name := [0x2e, 0x63, 0x62, 0x6f, 0x72]

  /** Six digits are the least that an index is written with; one million needs seven. */
  const INDEX_LIMIT: nat := 1_000_000

  datatype Error =
    | NoEvents | NotContiguous | Unreadable | BadEvent | ChainBroken | NameMismatch
    | NotSealed | BadRequestId | AlreadyExists | InvalidEvent | WriteFailed

  // ---------------------------------------------------------------- names

  /** `n` in decimal, with leading zeros up to `width` digits. */
  function Digits(n: nat, width: nat): (d: Name)
    ensures |d| >= width
    decreases n + width
  {
    if n == 0 && width == 0 then []
    else Digits(n / 10, if width == 0 then 0 else width - 1) + [0x30 + n % 10]
  }

  function FileName(index: nat, name: string): Name {
    Digits(index, 6) + ([DOT] + (Utf8.Encode(name) + SUFFIX))
  }

  predicate EndsWith(n: Name, suffix: Name) {
    |suffix| <= |n| && n[|n| - |suffix|..] == suffix
  }

  /** The files `event_names` lists. */
  predicate EventName(n: Name) {
    EndsWith(n, SUFFIX) && |n| > 6 && n[6] == DOT
  }

  /** `trim_end_matches(".cbor")`: every trailing suffix goes. */
  function Trim(n: Name): (t: Name)
    ensures !EndsWith(t, SUFFIX)
    decreases |n|
  {
    if EndsWith(n, SUFFIX) then Trim(n[..|n| - 5]) else n
  }

  function Same(n: Name): Name {
    n
  }

  ghost function EventSet(dir: Dir): set<Name> {
    set n | n in dir && EventName(n)
  }

  /** The event files of a directory, in byte order. */
  ghost function EventNames(dir: Dir): seq<Name> {
    InOrder(EventSet(dir), Same)
  }

  lemma EventNamesIs(dir: Dir)
    ensures Increasing(EventNames(dir), Same)
    ensures forall n :: n in EventNames(dir) <==> n in dir && EventName(n)
  {
    InOrderIs(EventSet(dir), Same);
  }

  /** Any increasing listing of the event files is the listing. */
  lemma ListingUnique(dir: Dir, names: seq<Name>)
    requires Increasing(names, Same)
    requires forall n :: n in names <==> n in dir && EventName(n)
    ensures names == EventNames(dir)
  {
    EventNamesIs(dir);
    IncreasingUnique(names, EventNames(dir), Same);
  }

  // ---------------------------------------------------------------- reading a chain

  /** The event of file `index`, when it is the next of the chain; `previous` is the root before it. */
  function ReadNext(dir: Dir, id: string, name: Name, index: nat, previous: Option<Digest>): Result<Event, Error> {
    if !(Digits(index, 6) + [DOT] <= name) then Err(NotContiguous)
    else if name !in dir then Err(Unreadable)
    else
      match ParseEvent(dir[name])
      case None => Err(BadEvent)
      case Some(e) =>
        if e.requestId != id || e.previous != previous then Err(ChainBroken)
        else if Utf8.Encode(e.name) != Trim(name[7..]) then Err(NameMismatch)
        else Ok(e)
  }

  /** `read_chain` from file `index` on. */
  function ReadEvents(h: Hash, dir: Dir, id: string, names: seq<Name>, index: nat, previous: Option<Digest>)
    : (r: Result<seq<Event>, Error>)
    requires index <= |names|
    ensures r.Ok? ==> |r.value| == |names| - index
    decreases |names| - index
  {
    if index == |names| then Ok([])
    else
      var e :- ReadNext(dir, id, names[index], index, previous);
      var rest :- ReadEvents(h, dir, id, names, index + 1, Some(Root(h, e)));
      Ok([e] + rest)
  }

  datatype Chain = Chain(previous: Digest, nextIndex: nat, terminal: bool, startedAccepted: bool)

  const ACCEPTED_SUFFIX: Name := [0x2e, 0x61, 0x63, 0x63, 0x65, 0x70, 0x74, 0x65, 0x64] + SUFFIX

  function ChainOf(h: Hash, names: seq<Name>, es: seq<Event>): Chain
    requires |names| == |es| && es != []
  {
    var last := es[|es| - 1];
    Chain(Root(h, last), |names|, Terminal(last.name), EndsWith(names[0], ACCEPTED_SUFFIX))
  }

  /** `read_chain`. */
  function ReadChain(h: Hash, dir: Dir, id: string, names: seq<Name>): Result<Chain, Error>
  {
    var es :- ReadEvents(h, dir, id, names, 0, None);
    if es == [] then Err(NoEvents) else Ok(ChainOf(h, names, es))
  }

  /** `verify_journal`: the root of the last event of a sealed chain. */
  ghost function VerifyJournal(h: Hash, dir: Dir, id: string): Result<Digest, Error> {
    var names := EventNames(dir);
    if names == [] then Err(NoEvents)
    else
      var chain :- ReadChain(h, dir, id, names);
      if chain.startedAccepted && chain.terminal then Ok(chain.previous) else Err(NotSealed)
  }

  // ---------------------------------------------------------------- what a chain is

  /** What the event at `index` must name as the root before it. */
  function Before(h: Hash, es: seq<Event>, index: nat): Option<Digest>
    requires index <= |es|
  {
    if index == 0 then None else Some(Root(h, es[index - 1]))
  }

  /** Every event is of this request and names the root of the one before it. */
  ghost predicate Linked(h: Hash, id: string, es: seq<Event>) {
    forall i :: 0 <= i < |es| ==> Follows(h, id, es, i)
  }

  predicate Follows(h: Hash, id: string, es: seq<Event>, i: nat)
    requires i < |es|
  {
    es[i].requestId == id && es[i].previous == Before(h, es, i)
  }

  /** One file holds one event under its index and name. */
  predicate Holds(dir: Dir, name: Name, index: nat, e: Event) {
    && Digits(index, 6) + [DOT] <= name
    && name in dir
    && ParseEvent(dir[name]) == Some(e)
    && Trim(name[7..]) == Utf8.Encode(e.name)
  }

  ghost predicate Stored(dir: Dir, names: seq<Name>, es: seq<Event>) {
    |names| == |es| && forall i :: 0 <= i < |es| ==> Holds(dir, names[i], i, es[i])
  }

  /** `read_chain` accepts exactly the linked chains whose events the files hold, in order. */
  lemma ReadEventsMeaning(h: Hash, dir: Dir, id: string, names: seq<Name>, es: seq<Event>)
    ensures ReadEvents(h, dir, id, names, 0, None) == Ok(es) <==> Stored(dir, names, es) && Linked(h, id, es)
  {
    hide ReadEvents, Holds, Follows;
    if |names| == |es| {
      ReadEventsFrom(h, dir, id, names, es, 0);
      assert es[0..] == es;
      if Stored(dir, names, es) && Linked(h, id, es) {
        assert forall i :: 0 <= i < |es| ==> Fits(h, dir, id, names, es, i);
      }
      if forall i :: 0 <= i < |es| ==> Fits(h, dir, id, names, es, i) {
        forall i | 0 <= i < |es|
          ensures Holds(dir, names[i], i, es[i]) && Follows(h, id, es, i)
        {
          assert Fits(h, dir, id, names, es, i);
        }
      }
    }
  }

  ghost predicate Fits(h: Hash, dir: Dir, id: string, names: seq<Name>, es: seq<Event>, i: nat)
    requires i < |names| && i < |es|
  {
    Holds(dir, names[i], i, es[i]) && Follows(h, id, es, i)
  }

  lemma ReadOneEvent(h: Hash, dir: Dir, id: string, names: seq<Name>, es: seq<Event>, index: nat)
    requires |names| == |es| && index < |names|
    ensures ReadEvents(h, dir, id, names, index, Before(h, es, index)) == Ok(es[index..]) <==>
            && Fits(h, dir, id, names, es, index)
            && ReadEvents(h, dir, id, names, index + 1, Before(h, es, index + 1)) == Ok(es[index + 1..])
  {
    hide ParseEvent, Digits, Trim, Root, Utf8.Encode;
    assert es[index..] == [es[index]] + es[index + 1..];
    var r := ReadEvents(h, dir, id, names, index, Before(h, es, index));
    if r == Ok(es[index..]) {
      assert r.value[0] == es[index] && r.value[1..] == es[index + 1..];
    }
  }

  lemma {:induction false} ReadEventsFrom(h: Hash, dir: Dir, id: string, names: seq<Name>, es: seq<Event>, index: nat)
    requires |names| == |es| && index <= |names|
    ensures ReadEvents(h, dir, id, names, index, Before(h, es, index)) == Ok(es[index..]) <==>
            forall i :: index <= i < |es| ==> Fits(h, dir, id, names, es, i)
    decreases |names| - index
  {
    hide Fits, Before, ReadEvents;
    if index < |names| {
      ReadOneEvent(h, dir, id, names, es, index);
      ReadEventsFrom(h, dir, id, names, es, index + 1);
    } else {
      ReadNoEvents(h, dir, id, names, Before(h, es, index));
      assert es[index..] == [];
    }
  }

  lemma ReadNoEvents(h: Hash, dir: Dir, id: string, names: seq<Name>, previous: Option<Digest>)
    ensures ReadEvents(h, dir, id, names, |names|, previous) == Ok([])
  {
  }

  // ---------------------------------------------------------------- file names

  function Pow10(n: nat): (p: nat)
    ensures p > 0
  {
    if n == 0 then 1 else 10 * Pow10(n - 1)
  }

  lemma {:induction false} DigitsWidth(n: nat, width: nat)
    ensures |Digits(n, width)| == width <==> n < Pow10(width)
    ensures forall i :: 0 <= i < |Digits(n, width)| ==> 0x30 <= Digits(n, width)[i] <= 0x39
    decreases n + width
  {
    if n != 0 || width != 0 {
      DigitsWidth(n / 10, if width == 0 then 0 else width - 1);
    }
  }

  lemma {:induction false} DigitsInOrder(m: nat, n: nat, width: nat)
    requires m < n < Pow10(width)
    ensures Less(Digits(m, width), Digits(n, width))
  {
    var a, b := Digits(m / 10, width - 1), Digits(n / 10, width - 1);
    DigitsWidth(m / 10, width - 1);
    DigitsWidth(n / 10, width - 1);
    if m / 10 == n / 10 {
      LessSuffix(a, [0x30 + m % 10], [0x30 + n % 10]);
    } else {
      DigitsInOrder(m / 10, n / 10, width - 1);
      LessPrefix(a, b, [0x30 + m % 10], [0x30 + n % 10]);
    }
  }

  lemma SixDigits(n: nat)
    ensures |Digits(n, 6)| == 6 <==> n < INDEX_LIMIT
    ensures forall i :: 0 <= i < |Digits(n, 6)| ==> Digits(n, 6)[i] != DOT
  {
    assert Pow10(2) == 100 && Pow10(4) == 10_000 && Pow10(6) == INDEX_LIMIT;
    DigitsWidth(n, 6);
  }

  /** An event file that carries index `n` tells that `n` is below one million. */
  lemma IndexBelowLimit(n: nat, name: Name)
    requires EventName(name) && Digits(n, 6) + [DOT] <= name
    ensures n < INDEX_LIMIT && |Digits(n, 6)| == 6
  {
    hide Digits;
    SixDigits(n);
    assert name[6] == (Digits(n, 6) + [DOT])[6];
  }

  lemma NamesInOrder(m: nat, n: nat, a: Name, b: Name)
    requires m < n < INDEX_LIMIT
    requires Digits(m, 6) + [DOT] <= a && Digits(n, 6) + [DOT] <= b
    ensures Less(a, b) && a != b
  {
    hide Digits, Less;
    SixDigits(m);
    SixDigits(n);
    assert Pow10(2) == 100 && Pow10(4) == 10_000 && Pow10(6) == INDEX_LIMIT;
    DigitsInOrder(m, n, 6);
    assert a == Digits(m, 6) + a[6..] && b == Digits(n, 6) + b[6..];
    LessPrefix(Digits(m, 6), Digits(n, 6), a[6..], b[6..]);
    LessIrreflexive(a);
  }

  /** No event name ends with `r`, so none ends with the suffix. */
  lemma NameKeepsItsEnd(name: string)
    requires KnownName(name)
    ensures Trim(Utf8.Encode(name)) == Utf8.Encode(name)
    ensures Trim(Utf8.Encode(name) + SUFFIX) == Utf8.Encode(name)
  {
    hide Utf8.Encode;
    assert forall i :: 0 <= i < |name| ==> name[i] as int < 0x80;
    Utf8.EncodeAscii(name);
    var bs := Utf8.Encode(name);
    assert bs[|bs| - 1] != 0x72;
    assert SUFFIX[4] == 0x72;
    assert !EndsWith(bs, SUFFIX);
    assert (bs + SUFFIX)[|bs|..] == SUFFIX && (bs + SUFFIX)[..|bs|] == bs;
  }

  /** What the name of an appended file tells. */
  lemma FileNameShape(index: nat, name: string)
    requires KnownName(name)
    ensures EventName(FileName(index, name)) <==> index < INDEX_LIMIT
    ensures Digits(index, 6) + [DOT] <= FileName(index, name)
    ensures index < INDEX_LIMIT ==> Trim(FileName(index, name)[7..]) == Utf8.Encode(name)
  {
    hide Utf8.Encode, Digits, Trim;
    SixDigits(index);
    NameKeepsItsEnd(name);
    var d, tail := Digits(index, 6), Utf8.Encode(name) + SUFFIX;
    var f := FileName(index, name);
    assert f == (d + [DOT]) + tail;
    assert f[|f| - 5..] == SUFFIX;
    if index < INDEX_LIMIT {
      assert f[7..] == tail;
    } else {
      assert f[6] == d[6];
    }
  }

  lemma OtherFileKeepsListing(dir: Dir, name: Name, bytes: seq<Byte>)
    requires !EventName(name)
    ensures EventNames(dir[name := bytes]) == EventNames(dir)
  {
    assert EventSet(dir[name := bytes]) == EventSet(dir);
  }

  // ---------------------------------------------------------------- appending an event

  predicate Appendable(e: Event) {
    InferenceEvent.Valid(e) && e.extensions == []
  }

  ghost predicate Lists(dir: Dir, es: seq<Event>) {
    Stored(dir, EventNames(dir), es)
  }

  lemma ListedLength(dir: Dir, es: seq<Event>)
    requires Lists(dir, es)
    ensures |EventNames(dir)| == |es|
  {
  }

  /** A listed chain has at most one million events. */
  lemma ListedBelowLimit(dir: Dir, es: seq<Event>)
    requires Lists(dir, es)
    ensures |es| <= INDEX_LIMIT
    ensures forall i :: 0 <= i < |es| ==> EventName(EventNames(dir)[i])
  {
    hide Digits, EventNames, EventName;
    var names := EventNames(dir);
    EventNamesIs(dir);
    forall i | 0 <= i < |es|
      ensures EventName(names[i])
    {
      assert names[i] in names;
    }
    if es != [] {
      var last := |es| - 1;
      assert Holds(dir, names[last], last, es[last]);
      IndexBelowLimit(last, names[last]);
    }
  }

  lemma NewNameIsLast(dir: Dir, es: seq<Event>, name: string, i: nat)
    requires Lists(dir, es) && KnownName(name) && i < |es| < INDEX_LIMIT
    ensures Less(EventNames(dir)[i], FileName(|es|, name))
    ensures EventNames(dir)[i] != FileName(|es|, name)
  {
    hide Digits, EventNames, Less;
    assert Holds(dir, EventNames(dir)[i], i, es[i]);
    FileNameShape(|es|, name);
    NamesInOrder(i, |es|, EventNames(dir)[i], FileName(|es|, name));
  }

  /** Below one million events the appended file is new, and is listed last. */
  lemma AppendIsListed(dir: Dir, es: seq<Event>, name: string, bytes: seq<Byte>)
    requires Lists(dir, es) && KnownName(name) && |es| < INDEX_LIMIT
    ensures var file := FileName(|es|, name);
            file !in dir && EventNames(dir[file := bytes]) == EventNames(dir) + [file]
  {
    hide Digits, EventNames, Less, FileName, EventName, Holds;
    var file := FileName(|es|, name);
    var names := EventNames(dir);
    var after := dir[file := bytes];
    EventNamesIs(dir);
    FileNameShape(|es|, name);
    forall i | 0 <= i < |es|
      ensures Less(names[i], file) && names[i] != file
    {
      NewNameIsLast(dir, es, name, i);
    }
    assert file !in names;
    var grown := names + [file];
    forall n
      ensures n in grown <==> n in after && EventName(n)
    {
    }
    ListingUnique(after, grown);
  }

  /** The directory after the append lists one event more. */
  lemma AppendIsStored(dir: Dir, es: seq<Event>, e: Event)
    requires Lists(dir, es) && Appendable(e) && |es| < INDEX_LIMIT
    ensures Lists(dir[FileName(|es|, e.name) := EventBytes(e)], es + [e])
  {
    hide EventNames, FileName, EventName, Holds, EventBytes, ParseEvent;
    var file := FileName(|es|, e.name);
    var after := dir[file := EventBytes(e)];
    AppendIsListed(dir, es, e.name, EventBytes(e));
    NewFileHolds(dir, |es|, e);
    var names := EventNames(dir);
    forall i | 0 <= i < |es|
      ensures Holds(after, names[i], i, es[i])
    {
      NewNameIsLast(dir, es, e.name, i);
      OldFileHolds(dir, file, EventBytes(e), names[i], i, es[i]);
    }
  }

  lemma NewFileHolds(dir: Dir, index: nat, e: Event)
    requires Appendable(e) && index < INDEX_LIMIT
    ensures Holds(dir[FileName(index, e.name) := EventBytes(e)], FileName(index, e.name), index, e)
  {
    hide FileName, EventName, EventBytes, ParseEvent, Digits, Trim;
    FileNameShape(index, e.name);
    PlainEventRoundTrip(e);
  }

  lemma OldFileHolds(dir: Dir, file: Name, bytes: seq<Byte>, name: Name, index: nat, e: Event)
    requires Holds(dir, name, index, e) && name != file
    ensures Holds(dir[file := bytes], name, index, e)
  {
    hide ParseEvent, Digits, Trim;
  }

  /** A file that is no event file changes neither the listing nor what it holds. */
  lemma OtherFileKeepsEvents(dir: Dir, es: seq<Event>, file: Name, bytes: seq<Byte>)
    requires Lists(dir, es) && !EventName(file)
    ensures EventNames(dir[file := bytes]) == EventNames(dir) && Lists(dir[file := bytes], es)
  {
    hide EventNames, EventName, Holds;
    OtherFileKeepsListing(dir, file, bytes);
    ListedBelowLimit(dir, es);
    var names := EventNames(dir);
    forall i | 0 <= i < |es|
      ensures Holds(dir[file := bytes], names[i], i, es[i])
    {
      assert Holds(dir, names[i], i, es[i]);
      OldFileHolds(dir, file, bytes, names[i], i, es[i]);
    }
  }
}
