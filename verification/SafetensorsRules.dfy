/**
 The rules of safetensors files in literal terms: tensor names, element types, lengths, which
 entries of a header are accepted, and in which order tensors may lie. They are stated without the
 functions that the reader and the writer share.
 */
module SafetensorsRules {
  import opened Wrappers
  import opened Bytes
  import opened Safetensors
  import opened SafetensorsFile
  import GgufTypes
  import Sorting
  import Utf8

  // ---------------------------------------------------------------- names and element types

  predicate IsName(name: string) {
    && 1 <= |name| <= 256
    && (forall c <- name ::
          'a' <= c <= 'z' || 'A' <= c <= 'Z' || '0' <= c <= '9' || c == '.' || c == '_' || c == '-')
    && forall i :: 0 <= i < |name| - 1 && name[i] == '.' ==> name[i + 1] != '.'
  }

  lemma NameMeaning(name: string)
    ensures ValidName(name) <==> IsName(name)
  {
    assert forall i :: 0 <= i < |name| ==> name[i] in name;
  }

  /** Knolo's name, the name in the file, and the bytes of one element. */
  const TYPES: set<(string, string, nat)> :=
    {("f32", "F32", 4), ("f16", "F16", 2), ("bf16", "BF16", 2), ("i32", "I32", 4), ("u8", "U8", 1)}

  lemma TypeMeaning(dtype: string, tag: string, width: nat)
    ensures Tag(dtype) == Some(tag) && Width(dtype) == Some(width) <==> (dtype, tag, width) in TYPES
    ensures Untag(tag) == Some(dtype) && Width(dtype) == Some(width) <==> (dtype, tag, width) in TYPES
    ensures Untag(tag) == Some(dtype) ==> Width(dtype).Some?
    ensures Width(dtype).Some? ==> Tag(dtype).Some? && dtype in PRECISIONS
  {
  }

  // ---------------------------------------------------------------- lengths

  function Product(shape: seq<nat>): nat {
    GgufTypes.Product(shape)
  }

  lemma {:induction false} ProductMeaning(p: nat, shape: seq<nat>, n: nat)
    requires 0 < p < TWO_64 && 0 !in shape
    ensures ProductFrom(p, shape) == Ok(n) <==> n == p * Product(shape) && n < 0x1_0000_0000_0000_0000
    decreases |shape|
  {
    if shape != [] {
      var q, rest := shape[0], Product(shape[1..]);
      assert q in shape && 0 !in shape[1..];
      ProductPositive(shape[1..]);
      assert p * (q * rest) == p * q * rest;
      if p * q < TWO_64 {
        GgufTypes.MulPositive(p, q);
        ProductMeaning(p * q, shape[1..], n);
      } else {
        GgufTypes.MulGrows(p * q, rest);
      }
    }
  }

  lemma {:induction false} ProductPositive(shape: seq<nat>)
    requires 0 !in shape
    ensures Product(shape) > 0
  {
    if shape != [] {
      assert shape[0] in shape && 0 !in shape[1..];
      ProductPositive(shape[1..]);
    }
  }

  /** The shape and element type of a tensor of `n` bytes, in a file. */
  ghost predicate Measures(tag: string, dtype: string, shape: seq<nat>, n: nat) {
    && 1 <= |shape| <= 8 && 0 !in shape && n < 0x1_0000_0000_0000_0000
    && exists width :: (dtype, tag, width) in TYPES && n == Product(shape) * width
  }

  lemma LengthMeaning(dtype: string, shape: seq<nat>, width: nat, n: nat)
    requires Width(dtype) == Some(width) && width > 0 && 0 !in shape
    ensures ProductFrom(1, shape).Ok? && ByteLength(shape, dtype) == Ok(n) <==>
            n == Product(shape) * width && n < 0x1_0000_0000_0000_0000
  {
    hide ProductFrom;
    ProductMeaning(1, shape, Product(shape));
    GgufTypes.MulGrows(Product(shape), width);
    if ProductFrom(1, shape).Ok? {
      ProductMeaning(1, shape, ProductFrom(1, shape).value);
    }
  }

  // ---------------------------------------------------------------- writing and reading one tensor

  lemma WidthsPositive(dtype: string)
    ensures Width(dtype).Some? ==> Width(dtype).value > 0
  {
  }

  /** What the writer takes. */
  ghost predicate Taken(t: Tensor) {
    IsName(t.name) && exists tag :: Measures(tag, t.dtype, t.shape, |t.bytes|)
  }

  lemma TensorMeaning(t: Tensor, seen: set<string>)
    ensures CheckTensor(t, seen).Pass? <==> t.name !in seen && Taken(t)
  {
    hide Width, Tag, ProductFrom, ValidName, IsName, TYPES, PRECISIONS;
    NameMeaning(t.name);
    if Width(t.dtype).Some? {
      var width := Width(t.dtype).value;
      WidthsPositive(t.dtype);
      TypeMeaning(t.dtype, "", width);
      var tag := Tag(t.dtype).value;
      TypeMeaning(t.dtype, tag, width);
      if 0 !in t.shape {
        LengthMeaning(t.dtype, t.shape, width, |t.bytes|);
      }
      if CheckTensor(t, seen).Pass? {
        assert Measures(tag, t.dtype, t.shape, |t.bytes|);
      }
    }
    if tag :| Measures(tag, t.dtype, t.shape, |t.bytes|) {
      var width :| (t.dtype, tag, width) in TYPES && |t.bytes| == Product(t.shape) * width;
      TypeMeaning(t.dtype, tag, width);
    }
  }

  /** What the reader takes from one entry, and the view it gives. */
  lemma EntryMeaning(name: string, item: Item, v: View)
    ensures ParseTensor(name, item) == Ok(v) <==>
            && item.TensorItem? && IsName(name)
            && v == View(name, v.dtype, item.shape, item.start, item.end)
            && (forall dim <- item.shape :: dim < 0x1_0000_0000)
            && item.start <= item.end < 0x1_0000_0000_0000_0000
            && Measures(item.tag, v.dtype, item.shape, item.end - item.start)
  {
    hide Width, Tag, Untag, ProductFrom, ValidName, IsName, TYPES, PRECISIONS;
    NameMeaning(name);
    if item.TensorItem? && item.start <= item.end {
      if Untag(item.tag).Some? {
        var dtype := Untag(item.tag).value;
        TypeMeaning(dtype, item.tag, 0);
        var width := Width(dtype).value;
        WidthsPositive(dtype);
        TypeMeaning(dtype, item.tag, width);
        if 0 !in item.shape {
          LengthMeaning(dtype, item.shape, width, item.end - item.start);
        }
      }
      if Measures(item.tag, v.dtype, item.shape, item.end - item.start) {
        var width :| (v.dtype, item.tag, width) in TYPES && item.end - item.start == Product(item.shape) * width;
        TypeMeaning(v.dtype, item.tag, width);
        assert forall dim <- item.shape :: dim != 0;
      }
    }
  }

  /** A file is refused when the entry it reserves for free text holds anything else, or too much of it. */
  lemma MetadataMeaning(item: Item)
    ensures ParseEntries([HeaderEntry("__metadata__", item)]) ==
            if item.TextItems? && |item.texts| <= 64
               && forall t <- item.texts :: |Utf8.Encode(t.0)| <= 256 && |Utf8.Encode(t.1)| <= 4096
            then Ok([]) else Err(MetadataInvalid)
  {
    var header := [HeaderEntry("__metadata__", item)];
    assert header[1..] == [];
    NoEntries();
  }

  lemma NoEntries()
    ensures ParseEntries([]) == Ok([])
  {
  }

  // ---------------------------------------------------------------- the order of tensors

  predicate Nonempty(vs: seq<View>) {
    forall v <- vs :: v.start < v.end
  }

  predicate ByStart(vs: seq<View>) {
    vs != [] ==> (forall v <- vs[1..] :: vs[0].start <= v.start) && ByStart(vs[1..])
  }

  predicate Rising(vs: seq<View>) {
    vs != [] ==> (forall v <- vs[1..] :: vs[0].start < v.start) && Rising(vs[1..])
  }

  lemma {:induction false} OrderSorts(vs: seq<View>)
    ensures ByStart(InStartOrder(vs))
  {
    if vs != [] {
      OrderSorts(vs[1..]);
      InsertSorts(vs[0], InStartOrder(vs[1..]));
    }
  }

  lemma {:induction false} InsertSorts(v: View, vs: seq<View>)
    requires ByStart(vs)
    ensures ByStart(InsertView(v, vs))
  {
    hide Precedes;
    InsertMembers(v, vs);
    if vs != [] {
      NotBefore(vs[0], v);
      InsertMembers(v, vs[1..]);
      InsertSorts(v, vs[1..]);
    }
  }

  lemma InsertMembers(v: View, vs: seq<View>)
    ensures forall w :: w in InsertView(v, vs) <==> w == v || w in vs
  {
    InsertKeeps(v, vs);
    Sorting.SameMembers(InsertView(v, vs), [v] + vs);
  }

  lemma NotBefore(a: View, b: View)
    ensures Precedes(a, b) ==> a.start <= b.start
    ensures !Precedes(a, b) ==> b.start <= a.start
  {
  }

  lemma {:induction false} PackedRises(vs: seq<View>, cursor: nat, dataLen: nat)
    requires Packed(vs, cursor, dataLen) && Nonempty(vs)
    ensures Rising(vs) && forall v <- vs :: cursor <= v.start
  {
    if vs != [] {
      var tail := vs[1..];
      PackedRises(tail, vs[0].end, dataLen);
      assert vs[0] in vs && forall v :: v in vs <==> v == vs[0] || v in tail;
    }
  }

  /** A rising order is the only order by start. */
  lemma {:induction false} OneOrder(a: seq<View>, b: seq<View>)
    requires multiset(a) == multiset(b) && ByStart(a) && Rising(b)
    ensures a == b
  {
    Sorting.SameMembers(a, b);
    if a != [] {
      SameFirst(a, b);
      SameRest(a, b);
      OneOrder(a[1..], b[1..]);
      assert a == [a[0]] + a[1..] && b == [b[0]] + b[1..];
    }
  }

  lemma SameFirst(a: seq<View>, b: seq<View>)
    requires |a| == |b| > 0 && (forall v :: v in a <==> v in b)
    requires ByStart(a) && Rising(b)
    ensures a[0] == b[0]
  {
    assert a[0] in a && b[0] in b;
    assert forall v :: v in a <==> v == a[0] || v in a[1..];
    assert forall v :: v in b <==> v == b[0] || v in b[1..];
  }

  lemma SameRest(a: seq<View>, b: seq<View>)
    requires a != [] && b != [] && a[0] == b[0] && multiset(a) == multiset(b)
    ensures multiset(a[1..]) == multiset(b[1..])
  {
    assert a == [a[0]] + a[1..] && b == [b[0]] + b[1..];
    assert multiset(a[1..]) == multiset(a) - multiset{a[0]};
    assert multiset(b[1..]) == multiset(b) - multiset{b[0]};
  }

  /** The layouts that are accepted, whatever the order of the header: some order of the tensors is packed. */
  lemma LayoutMeaning(views: seq<View>, dataLen: nat)
    requires Nonempty(views) && forall v <- views :: Measured(v)
    ensures CheckLayout(views, dataLen).Pass? <==>
            exists vs :: multiset(vs) == multiset(views) && Packed(vs, 0, dataLen)
  {
    hide Packed, CheckLayout, InStartOrder;
    CheckLayoutMeaning(views, dataLen);
    OrderKeeps(views);
    OrderSorts(views);
    if vs :| multiset(vs) == multiset(views) && Packed(vs, 0, dataLen) {
      Sorting.SameMembers(vs, views);
      PackedRises(vs, 0, dataLen);
      OneOrder(InStartOrder(views), vs);
    }
  }

  // ---------------------------------------------------------------- whole files

  /** Each tensor in turn, at the next multiple of eight, ends within 64 bits. */
  predicate Room(ts: seq<Tensor>, cursor: nat) {
    ts != [] ==>
      && Align8(cursor) + |ts[0].bytes| < 0x1_0000_0000_0000_0000
      && Room(ts[1..], Align8(cursor) + |ts[0].bytes|)
  }

  ghost predicate AllTaken(ts: seq<Tensor>) {
    forall t <- ts :: Taken(t)
  }

  predicate NamesDiffer(ts: seq<Tensor>) {
    forall i, j :: 0 <= i < j < |ts| ==> ts[i].name != ts[j].name
  }

  lemma {:induction false} EncodeFromExactly(ts: seq<Tensor>, seen: set<string>, data: seq<Byte>)
    ensures EncodeFrom(ts, seen, data).Ok? <==>
            AllTaken(ts) && NamesDiffer(ts) && (forall t <- ts :: t.name !in seen) && Room(ts, |data|)
  {
    hide CheckTensor, Taken, EntryOf, ViewAt, NamesDiffer, AllZero;
    if ts != [] {
      var t, tail := ts[0], ts[1..];
      TensorMeaning(t, seen);
      var end := Align8(|data|) + |t.bytes|;
      EncodeFromExactly(tail, seen + {t.name}, data + Zeros(Align8(|data|) - |data|) + t.bytes);
      assert forall u :: u in ts <==> u == t || u in tail;
      NamesOfTail(ts);
    } else {
      NoNames();
    }
  }

  lemma NoNames()
    ensures NamesDiffer([])
  {
  }

  lemma NamesOfTail(ts: seq<Tensor>)
    requires ts != []
    ensures NamesDiffer(ts) <==> NamesDiffer(ts[1..]) && forall t <- ts[1..] :: t.name != ts[0].name
  {
    var tail := ts[1..];
    if NamesDiffer(ts) {
      assert forall i, j :: 0 <= i < j < |tail| ==> tail[i] == ts[i + 1] && tail[j] == ts[j + 1];
    }
    if NamesDiffer(tail) && forall t <- tail :: t.name != ts[0].name {
      forall i, j | 0 <= i < j < |ts|
        ensures ts[i].name != ts[j].name
      {
        assert ts[j] == tail[j - 1] && ts[j] in tail;
        if i > 0 {
          assert ts[i] == tail[i - 1];
        }
      }
    }
  }

  /** When a list of tensors is written, and that the header then lists them in the order of their names. */
  lemma EncodeMeaning(ts: seq<Tensor>)
    ensures var ordered := Sorting.Sort(ts, NameKey);
            && (Encode(ts).Ok? <==>
                  1 <= |ts| <= 100_000 && AllTaken(ts) && NamesDiffer(ordered) && Room(ordered, 0))
            && (Encode(ts).Ok? ==>
                  && Sorting.Increasing(ordered, NameKey)
                  && Encode(ts).value.header == EntriesOf(ViewsFrom(ordered, 0)))
  {
    hide Sorting.Sort, EncodeFrom, AllTaken, NamesDiffer, Room, EntriesOf, ViewsFrom;
    var ordered := Sorting.Sort(ts, NameKey);
    Sorting.SortKeeps(ts, NameKey);
    Sorting.SameMembers(ordered, ts);
    EncodeFromExactly(ordered, {}, []);
    SameTaken(ordered, ts);
    if Encode(ts).Ok? {
      EncodeFromMeaning(ordered, {}, []);
      Sorting.SortAscending(ts, NameKey);
      Sorting.AscendingDistinct(ordered, NameKey);
    }
  }

  lemma SameTaken(a: seq<Tensor>, b: seq<Tensor>)
    requires forall t :: t in a <==> t in b
    ensures AllTaken(a) <==> AllTaken(b)
  {
    hide Taken;
  }

  /** When a file is read: its entries are, they are packed, and every byte outside them is zero. */
  lemma FileMeaning(f: File, views: seq<View>)
    ensures Parse(f) == Ok(views) <==>
            && ParseEntries(f.header) == Ok(views) && 1 <= |views| <= 100_000
            && Packed(InStartOrder(views), 0, |f.data|)
            && forall i :: 0 <= i < |f.data| && !InTensor(views, i) ==> f.data[i] == 0
  {
    hide ParseEntries, Packed, InStartOrder, CheckLayout, RejectNonzeroSlack, InTensor;
    if ParseEntries(f.header) == Ok(views) {
      ParsedEntriesMeasured(f.header);
      CheckLayoutMeaning(views, |f.data|);
      if CheckLayout(views, |f.data|).Pass? {
        SlackCheckMeaning(views, f.data);
      }
    }
  }
}
