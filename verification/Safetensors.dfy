/** The layout of safetensors weight files. */
module Safetensors {
  /*
   The weight layout of `safetensors.rs`: which offsets `check_layout` accepts, what
   `reject_nonzero_slack` adds to it, and what `encode_safetensors` lays out. The header is the
   map of its entries in the byte order of their names; its JSON text is not part of this model.
   */
  import opened Wrappers
  import opened Bytes
  import Utf8
  import Sorting

  const TWO_64: nat := 0x1_0000_0000_0000_0000
  const MAX_TENSORS: nat := 100_000

  datatype View = View(name: string, dtype: string, shape: seq<nat>, start: nat, end: nat)

  datatype Error =
    | EmptyOrTooMany | DuplicateTensor | InvalidSpec | LengthMismatch | UnsupportedDtype | Overflow
    | MetadataInvalid | EntryMalformed | ShapeInvalid | OffsetsReversed
    | OutsideOrUnaligned | GapOrOverlap | DataMismatch | PaddingNotZero

  /** The offsets of a parsed tensor: 64-bit numbers in order. */
  predicate Measured(v: View) {
    v.start <= v.end < TWO_64
  }

  // ---------------------------------------------------------------- start order

  predicate Precedes(a: View, b: View) {
    a.start < b.start || (a.start == b.start && Less(Utf8.Encode(a.name), Utf8.Encode(b.name)))
  }

  function InsertView(v: View, vs: seq<View>): seq<View> {
    if vs == [] then [v]
    else if Precedes(vs[0], v) then [vs[0]] + InsertView(v, vs[1..])
    else [v] + vs
  }

  /** The views by start, then by name. */
  function InStartOrder(vs: seq<View>): seq<View> {
    if vs == [] then [] else InsertView(vs[0], InStartOrder(vs[1..]))
  }

  lemma {:induction false} InsertKeeps(v: View, vs: seq<View>)
    ensures multiset(InsertView(v, vs)) == multiset{v} + multiset(vs)
  {
    hide Precedes;
    if vs != [] && Precedes(vs[0], v) {
      InsertKeeps(v, vs[1..]);
      assert vs == [vs[0]] + vs[1..];
    }
  }

  lemma {:induction false} OrderKeeps(vs: seq<View>)
    ensures multiset(InStartOrder(vs)) == multiset(vs)
    ensures forall v :: v in InStartOrder(vs) <==> v in vs
  {
    if vs != [] {
      OrderKeeps(vs[1..]);
      InsertKeeps(vs[0], InStartOrder(vs[1..]));
      assert vs == [vs[0]] + vs[1..];
    }
    Sorting.SameMembers(InStartOrder(vs), vs);
  }

  /** Views that are already in order stay where they are. */
  lemma {:induction false} OrderedStays(vs: seq<View>)
    requires forall i :: 0 <= i < |vs| - 1 ==> Precedes(vs[i], vs[i + 1])
    ensures InStartOrder(vs) == vs
  {
    hide Precedes;
    if vs != [] {
      OrderedStays(vs[1..]);
      if |vs| > 1 {
        PrecedesAsymmetric(vs[0], vs[1]);
      }
      assert vs == [vs[0]] + vs[1..];
    }
  }

  lemma PrecedesAsymmetric(a: View, b: View)
    requires Precedes(a, b)
    ensures !Precedes(b, a)
  {
    hide Utf8.Encode, Less;
    if a.start == b.start {
      Sorting.LessAsymmetric(Utf8.Encode(a.name), Utf8.Encode(b.name));
    }
  }

  // ---------------------------------------------------------------- check_layout

  function Align8(n: nat): (a: nat)
    ensures a % 8 == 0 && n <= a < n + 8
  {
    if n % 8 == 0 then n else n + (8 - n % 8)
  }

  /** `align8`, with its overflow check. */
  function CheckedAlign8(n: nat): Result<nat, Error> {
    if Align8(n) < TWO_64 then Ok(Align8(n)) else Err(Overflow)
  }

  predicate Placeable(v: View, dataLen: nat) {
    v.start <= dataLen && v.end <= dataLen && v.start % 8 == 0
  }

  function WalkLayout(vs: seq<View>, cursor: nat, dataLen: nat): Outcome<Error> {
    if vs == [] then
      if cursor > dataLen || dataLen - cursor >= 8 then Fail(DataMismatch) else Pass
    else if vs[0].start == cursor then WalkLayout(vs[1..], vs[0].end, dataLen)
    else
      match CheckedAlign8(cursor)
      case Err(error) => Fail(error)
      case Ok(aligned) =>
        if vs[0].start != aligned || (vs[0].start >= cursor && vs[0].start - cursor >= 8) then Fail(GapOrOverlap)
        else WalkLayout(vs[1..], vs[0].end, dataLen)
  }

  function CheckLayout(views: seq<View>, dataLen: nat): Outcome<Error> {
    if exists v <- views :: !Placeable(v, dataLen) then Fail(OutsideOrUnaligned)
    else WalkLayout(InStartOrder(views), 0, dataLen)
  }

  /** Each view starts at the next multiple of eight, and fewer than eight bytes trail. */
  predicate Packed(vs: seq<View>, cursor: nat, dataLen: nat) {
    if vs == [] then cursor <= dataLen < cursor + 8
    else vs[0].start == Align8(cursor) && Packed(vs[1..], vs[0].end, dataLen)
  }

  lemma {:induction false} PackedInside(vs: seq<View>, cursor: nat, dataLen: nat)
    requires Packed(vs, cursor, dataLen) && forall v <- vs :: Measured(v)
    ensures cursor <= dataLen
    ensures forall v <- vs :: cursor <= v.start && Placeable(v, dataLen)
  {
    if vs != [] {
      assert vs[0] in vs;
      PackedInside(vs[1..], vs[0].end, dataLen);
      assert forall v :: v in vs <==> v == vs[0] || v in vs[1..];
    }
  }

  lemma {:induction false} WalkIsPacked(vs: seq<View>, cursor: nat, dataLen: nat)
    requires forall v <- vs :: Measured(v) && Placeable(v, dataLen)
    requires cursor < TWO_64
    ensures WalkLayout(vs, cursor, dataLen).Pass? <==> Packed(vs, cursor, dataLen)
  {
    if vs != [] {
      assert vs[0] in vs;
      WalkIsPacked(vs[1..], vs[0].end, dataLen);
    }
  }

  /**
   `check_layout` accepts exactly the packed layouts: in start order the first tensor is at
   zero, every next one starts where the one before it ends, rounded up to eight, and under
   eight bytes trail.
   */
  lemma CheckLayoutMeaning(views: seq<View>, dataLen: nat)
    requires forall v <- views :: Measured(v)
    ensures CheckLayout(views, dataLen).Pass? <==> Packed(InStartOrder(views), 0, dataLen)
  {
    hide WalkLayout, Packed, Placeable, InStartOrder;
    var vs := InStartOrder(views);
    OrderKeeps(views);
    if forall v <- views :: Placeable(v, dataLen) {
      WalkIsPacked(vs, 0, dataLen);
    } else if Packed(vs, 0, dataLen) {
      PackedInside(vs, 0, dataLen);
    }
  }

  /** Tensors of an accepted layout never share a byte. */
  lemma {:induction false} PackedApart(vs: seq<View>, cursor: nat, dataLen: nat, i: nat, j: nat)
    requires Packed(vs, cursor, dataLen) && (forall v <- vs :: Measured(v)) && i < j < |vs|
    ensures vs[i].end <= vs[j].start
  {
    if i == 0 {
      PackedInside(vs[1..], vs[0].end, dataLen);
      assert vs[1..][j - 1] == vs[j] && vs[j] in vs[1..];
    } else {
      PackedApart(vs[1..], vs[0].end, dataLen, i - 1, j - 1);
    }
  }

  // ---------------------------------------------------------------- reject_nonzero_slack

  function WalkSlack(vs: seq<View>, cursor: nat, data: seq<Byte>): Outcome<Error>
    requires cursor <= |data|
  {
    if vs == [] then if AllZero(data[cursor..]) then Pass else Fail(PaddingNotZero)
    else
      var v := vs[0];
      if v.start > |data| || v.end > |data| || v.start > v.end || v.start < cursor then Fail(DataMismatch)
      else if !AllZero(data[cursor..v.start]) then Fail(PaddingNotZero)
      else WalkSlack(vs[1..], v.end, data)
  }

  function RejectNonzeroSlack(views: seq<View>, data: seq<Byte>): Outcome<Error> {
    WalkSlack(InStartOrder(views), 0, data)
  }

  predicate InTensor(views: seq<View>, i: nat) {
    exists v <- views :: v.start <= i < v.end
  }

  predicate SlackIsZero(views: seq<View>, cursor: nat, data: seq<Byte>) {
    forall i :: cursor <= i < |data| && !InTensor(views, i) ==> data[i] == 0
  }

  lemma {:induction false} SlackAfterPacked(vs: seq<View>, cursor: nat, data: seq<Byte>)
    requires Packed(vs, cursor, |data|) && (forall v <- vs :: Measured(v)) && cursor <= |data|
    ensures WalkSlack(vs, cursor, data) != Fail(DataMismatch)
    ensures WalkSlack(vs, cursor, data).Pass? <==> SlackIsZero(vs, cursor, data)
  {
    hide Measured, SlackIsZero, AllZero;
    PackedInside(vs, cursor, |data|);
    if vs == [] {
      AllZeroFrom(data, cursor);
    } else {
      assert vs[0] in vs;
      assert Measured(vs[0]) && forall v <- vs[1..] :: v in vs;
      PackedInside(vs[1..], vs[0].end, |data|);
      StartsBeforeEnd(vs[0]);
      SlackOfFirst(vs, cursor, data);
      SlackAfterPacked(vs[1..], vs[0].end, data);
    }
  }

  lemma StartsBeforeEnd(v: View)
    requires Measured(v)
    ensures v.start <= v.end
  {
  }

  lemma AllZeroFrom(data: seq<Byte>, cursor: nat)
    requires cursor <= |data|
    ensures AllZero(data[cursor..]) <==> SlackIsZero([], cursor, data)
  {
    if SlackIsZero([], cursor, data) {
      assert forall i :: 0 <= i < |data| - cursor ==>
        !InTensor([], cursor + i) && data[cursor..][i] == data[cursor + i];
    } else {
      var i :| cursor <= i < |data| && data[i] != 0;
      assert data[cursor..][i - cursor] != 0;
    }
  }

  /** The slack before the first tensor and the slack from its end on. */
  lemma SlackOfFirst(vs: seq<View>, cursor: nat, data: seq<Byte>)
    requires vs != [] && cursor <= vs[0].start <= vs[0].end <= |data|
    requires forall v <- vs[1..] :: vs[0].end <= v.start
    ensures SlackIsZero(vs, cursor, data) <==>
            AllZero(data[cursor..vs[0].start]) && SlackIsZero(vs[1..], vs[0].end, data)
  {
    var first := vs[0];
    assert first in vs && forall v :: v in vs <==> v == first || v in vs[1..];
    assert first.start <= first.end;
    forall i | cursor <= i < |data|
      ensures InTensor(vs, i) <==> first.start <= i && (i < first.end || InTensor(vs[1..], i))
    {
    }
    if SlackIsZero(vs, cursor, data) {
      forall i | 0 <= i < first.start - cursor
        ensures data[cursor..first.start][i] == 0
      {
        assert data[cursor..first.start][i] == data[cursor + i] && !InTensor(vs, cursor + i);
      }
    }
    if AllZero(data[cursor..first.start]) {
      forall i | cursor <= i < first.start
        ensures data[i] == 0
      {
        assert data[cursor..first.start][i - cursor] == data[i];
      }
    }
  }

  /**
   After `check_layout` the slack check never finds an offset that does not fit; what it adds
   is that every byte outside the tensors is zero.
   */
  lemma SlackCheckMeaning(views: seq<View>, data: seq<Byte>)
    requires (forall v <- views :: Measured(v)) && CheckLayout(views, |data|).Pass?
    ensures RejectNonzeroSlack(views, data) != Fail(DataMismatch)
    ensures RejectNonzeroSlack(views, data).Pass? <==> SlackIsZero(views, 0, data)
  {
    hide InStartOrder, WalkSlack, Packed, CheckLayout;
    CheckLayoutMeaning(views, |data|);
    OrderKeeps(views);
    var vs := InStartOrder(views);
    SlackAfterPacked(vs, 0, data);
    forall i: nat
      ensures InTensor(vs, i) <==> InTensor(views, i)
    {
    }
  }

  // ---------------------------------------------------------------- as they run

  /** `check_layout`: every offset first, then a cursor along the start order. */
  method CheckOffsets(views: seq<View>, dataLen: nat) returns (r: Outcome<Error>)
    ensures r == CheckLayout(views, dataLen)
  {
    hide InStartOrder, Placeable;
    for i := 0 to |views|
      invariant forall k :: 0 <= k < i ==> Placeable(views[k], dataLen)
    {
      if !Placeable(views[i], dataLen) {
        return Fail(OutsideOrUnaligned);
      }
    }
    var order := InStartOrder(views);
    var cursor: nat := 0;
    assert order[0..] == order;
    for i := 0 to |order|
      invariant CheckLayout(views, dataLen) == WalkLayout(order[i..], cursor, dataLen)
    {
      assert order[i..][0] == order[i] && order[i..][1..] == order[i + 1..];
      var view := order[i];
      if view.start != cursor {
        var aligned := CheckedAlign8(cursor);
        if aligned.Err? {
          return Fail(aligned.error);
        }
        if view.start != aligned.value || (view.start >= cursor && view.start - cursor >= 8) {
          return Fail(GapOrOverlap);
        }
      }
      cursor := view.end;
    }
    if cursor > dataLen || dataLen - cursor >= 8 {
      return Fail(DataMismatch);
    }
    return Pass;
  }

  /** `reject_nonzero_slack`. */
  method CheckSlack(views: seq<View>, data: seq<Byte>) returns (r: Outcome<Error>)
    ensures r == RejectNonzeroSlack(views, data)
  {
    hide InStartOrder;
    var order := InStartOrder(views);
    var cursor: nat := 0;
    assert order[0..] == order;
    for i := 0 to |order|
      invariant cursor <= |data|
      invariant RejectNonzeroSlack(views, data) == WalkSlack(order[i..], cursor, data)
    {
      assert order[i..][0] == order[i] && order[i..][1..] == order[i + 1..];
      var view := order[i];
      if view.start > |data| || view.end > |data| || view.start > view.end || view.start < cursor {
        return Fail(DataMismatch);
      }
      var zero := OnlyZeros(data[cursor..view.start]);
      if !zero {
        return Fail(PaddingNotZero);
      }
      cursor := view.end;
    }
    var zero := OnlyZeros(data[cursor..]);
    return if zero then Pass else Fail(PaddingNotZero);
  }

  method OnlyZeros(bytes: seq<Byte>) returns (zero: bool)
    ensures zero <==> AllZero(bytes)
  {
    for i := 0 to |bytes|
      invariant forall k :: 0 <= k < i ==> bytes[k] == 0
    {
      if bytes[i] != 0 {
        return false;
      }
    }
    return true;
  }
}
