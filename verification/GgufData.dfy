/** The GGUF data section: tensor ranges, the padding between them, and the writer's layout. */
module GgufData {
  import opened Wrappers
  import opened Bytes
  import opened GgufTypes

  /** The half-open range `start..end` of one tensor in the data section. */
  datatype Range = Range(start: nat, end: nat)

  predicate InData(rs: seq<Range>, n: nat) {
    forall r <- rs :: r.start <= r.end <= n
  }

  predicate Apart(a: Range, b: Range) {
    a.end <= b.start || b.end <= a.start
  }

  predicate ApartFromAll(a: Range, rs: seq<Range>) {
    forall r <- rs :: Apart(a, r)
  }

  /** No two ranges share a byte, and no empty range lies inside another. */
  predicate PairwiseApart(rs: seq<Range>) {
    rs != [] ==> ApartFromAll(rs[0], rs[1..]) && PairwiseApart(rs[1..])
  }

  predicate Covers(r: Range, i: int) {
    r.start <= i < r.end
  }

  predicate Covered(rs: seq<Range>, i: int) {
    exists r <- rs :: Covers(r, i)
  }

  predicate UncoveredAreZero(data: seq<Byte>, rs: seq<Range>, from: nat) {
    forall i :: from <= i < |data| && !Covered(rs, i) ==> data[i] == 0
  }

  // ---------------------------------------------------------------- order

  predicate Before(a: Range, b: Range) {
    a.start < b.start || (a.start == b.start && a.end <= b.end)
  }

  predicate Ordered(rs: seq<Range>) {
    rs != [] ==> (forall r <- rs[1..] :: Before(rs[0], r)) && Ordered(rs[1..])
  }

  function InsertRange(a: Range, rs: seq<Range>): seq<Range> {
    if rs == [] || Before(a, rs[0]) then [a] + rs else [rs[0]] + InsertRange(a, rs[1..])
  }

  /** The ranges sorted by start, then end. */
  function SortRanges(rs: seq<Range>): seq<Range> {
    if rs == [] then [] else InsertRange(rs[0], SortRanges(rs[1..]))
  }

  lemma SameMembers(a: seq<Range>, b: seq<Range>)
    requires multiset(a) == multiset(b)
    ensures forall r :: r in a <==> r in b
  {
    forall r
      ensures r in a <==> r in b
    {
      assert r in multiset(a) <==> r in multiset(b);
    }
  }

  lemma {:induction false} InsertKeeps(a: Range, rs: seq<Range>)
    ensures multiset(InsertRange(a, rs)) == multiset{a} + multiset(rs)
    ensures forall r :: r in InsertRange(a, rs) <==> r == a || r in rs
  {
    if rs != [] && !Before(a, rs[0]) {
      InsertKeeps(a, rs[1..]);
      assert rs == [rs[0]] + rs[1..];
    }
    SameMembers(InsertRange(a, rs), [a] + rs);
  }

  /** Sorting keeps every range as often as it was there. */
  lemma {:induction false} SortKeeps(rs: seq<Range>)
    ensures multiset(SortRanges(rs)) == multiset(rs)
    ensures forall r :: r in SortRanges(rs) <==> r in rs
  {
    if rs != [] {
      SortKeeps(rs[1..]);
      InsertKeeps(rs[0], SortRanges(rs[1..]));
      assert rs == [rs[0]] + rs[1..];
    }
    SameMembers(SortRanges(rs), rs);
  }

  lemma {:induction false} InsertOrdered(a: Range, rs: seq<Range>)
    requires Ordered(rs)
    ensures Ordered(InsertRange(a, rs))
  {
    if rs == [] || Before(a, rs[0]) {
      assert ([a] + rs)[1..] == rs;
      assert forall r <- rs :: r == rs[0] || r in rs[1..];
    } else {
      var tail := InsertRange(a, rs[1..]);
      InsertOrdered(a, rs[1..]);
      InsertKeeps(a, rs[1..]);
      assert ([rs[0]] + tail)[1..] == tail;
    }
  }

  lemma {:induction false} SortOrdered(rs: seq<Range>)
    ensures Ordered(SortRanges(rs))
  {
    if rs != [] {
      SortOrdered(rs[1..]);
      InsertOrdered(rs[0], SortRanges(rs[1..]));
    }
  }

  lemma {:induction false} InsertApart(a: Range, rs: seq<Range>)
    ensures PairwiseApart(InsertRange(a, rs)) <==> ApartFromAll(a, rs) && PairwiseApart(rs)
  {
    if rs == [] || Before(a, rs[0]) {
      assert ([a] + rs)[1..] == rs;
    } else {
      var tail := InsertRange(a, rs[1..]);
      InsertApart(a, rs[1..]);
      InsertKeeps(a, rs[1..]);
      assert ([rs[0]] + tail)[1..] == tail;
      assert ApartFromAll(rs[0], tail) <==> Apart(rs[0], a) && ApartFromAll(rs[0], rs[1..]) by {
        assert a in [a] + rs[1..];
        assert forall r :: r in tail <==> r == a || r in rs[1..];
      }
      assert ApartFromAll(a, rs) <==> Apart(a, rs[0]) && ApartFromAll(a, rs[1..]) by {
        assert forall r :: r in rs <==> r == rs[0] || r in rs[1..];
      }
    }
  }

  /** Sorting neither creates nor removes an overlap. */
  lemma {:induction false} SortApart(rs: seq<Range>)
    ensures PairwiseApart(SortRanges(rs)) <==> PairwiseApart(rs)
  {
    if rs != [] {
      SortApart(rs[1..]);
      InsertApart(rs[0], SortRanges(rs[1..]));
      SortKeeps(rs[1..]);
    }
  }

  // ---------------------------------------------------------------- check_data_padding

  /** The walk over sorted ranges: each must start at or after the cursor, with zeros between. */
  function Walk(data: seq<Byte>, rs: seq<Range>, cursor: nat): Outcome<Error>
    requires InData(rs, |data|) && cursor <= |data|
  {
    if rs == [] then
      if AllZero(data[cursor..]) then Pass else Fail(PaddingNotZero)
    else if rs[0].start < cursor then Fail(RangesOverlap)
    else if !AllZero(data[cursor..rs[0].start]) then Fail(PaddingNotZero)
    else Walk(data, rs[1..], rs[0].end)
  }

  function CheckDataPadding(data: seq<Byte>, rs: seq<Range>): Outcome<Error>
    requires InData(rs, |data|)
  {
    SortKeeps(rs);
    Walk(data, SortRanges(rs), 0)
  }

  lemma {:induction false} WalkMeaning(data: seq<Byte>, rs: seq<Range>, cursor: nat)
    requires InData(rs, |data|) && cursor <= |data| && Ordered(rs)
    ensures Walk(data, rs, cursor).Pass? <==>
            (forall r <- rs :: cursor <= r.start) && PairwiseApart(rs) && UncoveredAreZero(data, rs, cursor)
  {
    if rs == [] {
      AllZeroSlice(data, cursor, |data|);
      assert data[cursor..] == data[cursor..|data|];
    } else {
      var first, tail := rs[0], rs[1..];
      AllZeroSlice(data, cursor, first.start);
      assert forall r :: r in rs <==> r == first || r in tail;
      assert forall i :: Covered(rs, i) <==> Covers(first, i) || Covered(tail, i);
      WalkMeaning(data, tail, first.end);
      if Walk(data, rs, cursor).Pass? {
        assert forall r <- tail :: first.end <= r.start;
        assert UncoveredAreZero(data, rs, cursor);
      }
      if (forall r <- rs :: cursor <= r.start) && PairwiseApart(rs) && UncoveredAreZero(data, rs, cursor) {
        assert forall r <- tail :: first.end <= r.start by {
          forall r | r in tail
            ensures first.end <= r.start
          {
            assert Before(first, r) && Apart(first, r);
          }
        }
        assert forall i :: cursor <= i < first.start ==> !Covered(rs, i) && data[i] == 0;
        assert UncoveredAreZero(data, tail, first.end);
      }
    }
  }

  lemma AllZeroSlice(data: seq<Byte>, lo: nat, hi: nat)
    requires hi <= |data|
    ensures lo <= hi ==> (AllZero(data[lo..hi]) <==> forall i :: lo <= i < hi ==> data[i] == 0)
  {
    if lo <= hi && AllZero(data[lo..hi]) {
      forall i | lo <= i < hi
        ensures data[i] == 0
      {
        assert data[i] == data[lo..hi][i - lo];
      }
    }
  }

  /** The check passes exactly when no ranges overlap and every byte outside them is zero. */
  lemma CheckDataPaddingMeaning(data: seq<Byte>, rs: seq<Range>)
    requires InData(rs, |data|)
    ensures CheckDataPadding(data, rs).Pass? <==> PairwiseApart(rs) && UncoveredAreZero(data, rs, 0)
  {
    var sorted := SortRanges(rs);
    SortOrdered(rs);
    SortApart(rs);
    SortKeeps(rs);
    WalkMeaning(data, sorted, 0);
    assert forall i :: Covered(sorted, i) <==> Covered(rs, i);
  }

  /** `check_data_padding` as the source runs it: sort, then one pass with a moving cursor. */
  method CheckPadding(data: seq<Byte>, ranges: seq<Range>) returns (r: Outcome<Error>)
    requires InData(ranges, |data|)
    ensures r == CheckDataPadding(data, ranges)
    ensures r.Pass? <==> PairwiseApart(ranges) && UncoveredAreZero(data, ranges, 0)
  {
    CheckDataPaddingMeaning(data, ranges);
    var ordered := SortRanges(ranges);
    SortKeeps(ranges);
    var cursor: nat := 0;
    assert ordered[0..] == ordered;
    for i := 0 to |ordered|
      invariant cursor <= |data|
      invariant CheckDataPadding(data, ranges) == Walk(data, ordered[i..], cursor)
    {
      assert ordered[i..][1..] == ordered[i + 1..];
      if ordered[i].start < cursor {
        return Fail(RangesOverlap);
      }
      if !AllZero(data[cursor..ordered[i].start]) {
        return Fail(PaddingNotZero);
      }
      cursor := ordered[i].end;
    }
    r := if AllZero(data[cursor..]) then Pass else Fail(PaddingNotZero);
  }

  // ---------------------------------------------------------------- layout_data

  function PadTo(data: seq<Byte>, alignment: nat): (r: seq<Byte>)
    requires alignment > 0
    ensures |data| <= |r|
  {
    var rem := |data| % alignment;
    if rem == 0 then data else data + Zeros(alignment - rem)
  }

  lemma PadToAligns(data: seq<Byte>, alignment: nat)
    requires alignment > 0
    ensures var r := PadTo(data, alignment);
            && |r| < |data| + alignment && |r| % alignment == 0
            && r[..|data|] == data && forall i :: |data| <= i < |r| ==> r[i] == 0
  {
    if |data| % alignment != 0 {
      AlignUpMultiple(|data|, alignment);
    }
  }

  /** Offsets and data after laying `payloads` out behind `data`. */
  function Layout(payloads: seq<seq<Byte>>, alignment: nat, data: seq<Byte>): (r: (seq<nat>, seq<Byte>))
    requires alignment > 0
    ensures |r.0| == |payloads| && |r.1| >= |data|
    decreases |payloads|
  {
    if payloads == [] then ([], data)
    else
      var padded := PadTo(data, alignment);
      var (offsets, out) := Layout(payloads[1..], alignment, padded + payloads[0]);
      ([|padded|] + offsets, out)
  }

  function RangesOf(offsets: seq<nat>, payloads: seq<seq<Byte>>): (rs: seq<Range>)
    requires |offsets| == |payloads|
    ensures |rs| == |offsets|
    decreases |offsets|
  {
    if offsets == [] then []
    else [Range(offsets[0], offsets[0] + |payloads[0]|)] + RangesOf(offsets[1..], payloads[1..])
  }

  /** Each payload stands at its aligned offset, and the bytes around the payloads are zero. */
  predicate Placed(offsets: seq<nat>, payloads: seq<seq<Byte>>, alignment: nat, data: seq<Byte>, from: nat)
    requires alignment > 0
    decreases |offsets|
  {
    && |offsets| == |payloads|
    && (offsets != [] ==>
          && from <= offsets[0] && offsets[0] % alignment == 0
          && offsets[0] + |payloads[0]| <= |data|
          && data[offsets[0]..offsets[0] + |payloads[0]|] == payloads[0]
          && Placed(offsets[1..], payloads[1..], alignment, data, offsets[0] + |payloads[0]|))
  }

  lemma {:induction false} LayoutExtends(payloads: seq<seq<Byte>>, alignment: nat, data: seq<Byte>)
    requires alignment > 0
    ensures data <= Layout(payloads, alignment, data).1
    decreases |payloads|
  {
    if payloads != [] {
      PadToAligns(data, alignment);
      LayoutExtends(payloads[1..], alignment, PadTo(data, alignment) + payloads[0]);
    }
  }

  lemma {:induction false} LayoutPlaces(payloads: seq<seq<Byte>>, alignment: nat, data: seq<Byte>)
    requires alignment > 0
    ensures var (offsets, out) := Layout(payloads, alignment, data);
            Placed(offsets, payloads, alignment, out, |data|)
    decreases |payloads|
  {
    if payloads != [] {
      PadToAligns(data, alignment);
      var padded := PadTo(data, alignment);
      var next := padded + payloads[0];
      var (offsets, out) := Layout(payloads, alignment, data);
      LayoutPlaces(payloads[1..], alignment, next);
      LayoutExtends(payloads[1..], alignment, next);
      assert offsets[1..] == Layout(payloads[1..], alignment, next).0;
      assert out[|padded|..|next|] == next[|padded|..] == payloads[0];
    }
  }

  lemma {:induction false} LayoutZeroElsewhere(payloads: seq<seq<Byte>>, alignment: nat, data: seq<Byte>)
    requires alignment > 0
    ensures var (offsets, out) := Layout(payloads, alignment, data);
            UncoveredAreZero(out, RangesOf(offsets, payloads), |data|)
    decreases |payloads|
  {
    if payloads != [] {
      PadToAligns(data, alignment);
      var padded := PadTo(data, alignment);
      var next := padded + payloads[0];
      var (offsets, out) := Layout(payloads, alignment, data);
      var tail := Layout(payloads[1..], alignment, next).0;
      LayoutZeroElsewhere(payloads[1..], alignment, next);
      LayoutExtends(payloads[1..], alignment, next);
      assert offsets[1..] == tail;
      var rs := RangesOf(offsets, payloads);
      assert rs[1..] == RangesOf(tail, payloads[1..]);
      assert forall i :: Covered(rs[1..], i) || Covers(rs[0], i) ==> Covered(rs, i);
      forall i | |data| <= i < |out| && !Covered(rs, i)
        ensures out[i] == 0
      {
        if i < |padded| {
          assert out[i] == next[i] == padded[i];
        }
      }
    }
  }

  lemma {:induction false} PlacedApart(offsets: seq<nat>, payloads: seq<seq<Byte>>, alignment: nat, data: seq<Byte>,
                                       from: nat)
    requires alignment > 0 && Placed(offsets, payloads, alignment, data, from)
    ensures var rs := RangesOf(offsets, payloads);
            InData(rs, |data|) && PairwiseApart(rs) && forall r <- rs :: from <= r.start
    decreases |offsets|
  {
    if offsets != [] {
      PlacedApart(offsets[1..], payloads[1..], alignment, data, offsets[0] + |payloads[0]|);
      var rs := RangesOf(offsets, payloads);
      assert rs[1..] == RangesOf(offsets[1..], payloads[1..]);
    }
  }

  /** The writer's layout passes the reader's overlap and padding check. */
  lemma LayoutPassesCheck(payloads: seq<seq<Byte>>, alignment: nat)
    requires alignment > 0
    ensures var (offsets, out) := Layout(payloads, alignment, []);
            var rs := RangesOf(offsets, payloads);
            InData(rs, |out|) && CheckDataPadding(out, rs).Pass?
  {
    var (offsets, out) := Layout(payloads, alignment, []);
    LayoutPlaces(payloads, alignment, []);
    LayoutZeroElsewhere(payloads, alignment, []);
    PlacedApart(offsets, payloads, alignment, out, 0);
    CheckDataPaddingMeaning(out, RangesOf(offsets, payloads));
  }

  /** The resize at the head of the loop of `layout_data`. */
  method Pad(out: Buffer, alignment: nat)
    requires alignment > 0
    modifies out
    ensures out.data == PadTo(old(out.data), alignment)
  {
    var rem := |out.data| % alignment;
    if rem != 0 {
      out.Extend(Zeros(alignment - rem));
    }
  }

  lemma LayoutStep(payloads: seq<seq<Byte>>, i: nat, alignment: nat, data: seq<Byte>, offsets: seq<nat>)
    requires alignment > 0 && i < |payloads|
    ensures var padded := PadTo(data, alignment);
            var now, next := Layout(payloads[i..], alignment, data),
                             Layout(payloads[i + 1..], alignment, padded + payloads[i]);
            now.1 == next.1 && offsets + now.0 == offsets + [|padded|] + next.0
  {
    hide PadTo;
    assert payloads[i..][1..] == payloads[i + 1..];
    var padded := PadTo(data, alignment);
    var rest := Layout(payloads[i + 1..], alignment, padded + payloads[i]).0;
    ConcatAssociative(offsets, [|padded|], rest);
  }

  /** `layout_data`: pad, remember the offset, append. */
  method LayoutData(payloads: seq<seq<Byte>>, alignment: nat) returns (offsets: seq<nat>, data: seq<Byte>)
    requires alignment > 0
    ensures (offsets, data) == Layout(payloads, alignment, [])
    ensures Placed(offsets, payloads, alignment, data, 0)
    ensures UncoveredAreZero(data, RangesOf(offsets, payloads), 0)
  {
    hide Placed, UncoveredAreZero, RangesOf, PadTo;
    LayoutPlaces(payloads, alignment, []);
    LayoutZeroElsewhere(payloads, alignment, []);
    var out := new Buffer();
    offsets := [];
    assert payloads[0..] == payloads;
    for i := 0 to |payloads|
      invariant |offsets| == i
      invariant Layout(payloads, alignment, []).1 == Layout(payloads[i..], alignment, out.data).1
      invariant Layout(payloads, alignment, []).0 == offsets + Layout(payloads[i..], alignment, out.data).0
    {
      LayoutStep(payloads, i, alignment, out.data, offsets);
      Pad(out, alignment);
      offsets := offsets + [|out.data|];
      out.Extend(payloads[i]);
    }
    assert offsets + [] == offsets;
    data := out.data;
  }
}
