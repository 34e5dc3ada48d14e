/**
 Sorting by a byte-string key, as `sort` and the B-tree collections order strings. The source
 calls the sort of its standard library; here it is an insertion sort on values, since only its
 result matters: the same elements as often as before, in the order of their keys, with equal
 keys in the order they came (a stable sort). When the keys are distinct that result is unique, whichever order
 the elements came in, and a list with strictly increasing keys is its own sorted list. The
 same holds for the elements of a set, which is how the source lists the keys of a map: the
 list has each element once, in strictly increasing order, and is the only such list.
 */
module Sorting {
  import opened Bytes

  /** Puts `x` before the elements whose key is not below its own. */
  function Insert<T>(x: T, s: seq<T>, key: T -> seq<Byte>): seq<T> {
    if s == [] then [x]
    else if Less(key(s[0]), key(x)) then [s[0]] + Insert(x, s[1..], key)
    else [x] + s
  }

  /** A stable sort. */
  function Sort<T>(s: seq<T>, key: T -> seq<Byte>): seq<T> {
    if s == [] then [] else Insert(s[0], Sort(s[1..], key), key)
  }

  ghost predicate Ascending<T>(s: seq<T>, key: T -> seq<Byte>) {
    forall i, j :: 0 <= i < j < |s| ==> !Less(key(s[j]), key(s[i]))
  }

  ghost predicate Increasing<T>(s: seq<T>, key: T -> seq<Byte>) {
    forall i, j :: 0 <= i < j < |s| ==> Less(key(s[i]), key(s[j]))
  }

  ghost predicate DistinctBy<T>(s: seq<T>, key: T -> seq<Byte>) {
    forall i, j :: 0 <= i < j < |s| ==> key(s[i]) != key(s[j])
  }

  lemma {:induction false} InsertKeeps<T>(x: T, s: seq<T>, key: T -> seq<Byte>)
    ensures multiset(Insert(x, s, key)) == multiset{x} + multiset(s)
  {
    if s != [] && Less(key(s[0]), key(x)) {
      InsertKeeps(x, s[1..], key);
      assert s == [s[0]] + s[1..];
    }
  }

  lemma {:induction false} SortKeeps<T>(s: seq<T>, key: T -> seq<Byte>)
    ensures multiset(Sort(s, key)) == multiset(s)
  {
    if s != [] {
      SortKeeps(s[1..], key);
      InsertKeeps(s[0], Sort(s[1..], key), key);
      assert s == [s[0]] + s[1..];
    }
  }

  lemma SameMembers<T>(s: seq<T>, t: seq<T>)
    requires multiset(s) == multiset(t)
    ensures |s| == |t| && forall x :: x in s <==> x in t
  {
    assert forall x :: x in s <==> x in multiset(s);
    assert |multiset(s)| == |s| && |multiset(t)| == |t|;
  }

  lemma NotLessTransitive(a: seq<Byte>, b: seq<Byte>, c: seq<Byte>)
    requires !Less(b, a) && !Less(c, b)
    ensures !Less(c, a)
  {
    hide Less;
    LessTotal(a, b);
    if Less(c, a) {
      if Less(a, b) {
        LessTransitive(c, a, b);
      }
    }
  }

  lemma {:induction false} InsertAscending<T>(x: T, s: seq<T>, key: T -> seq<Byte>)
    requires Ascending(s, key)
    ensures Ascending(Insert(x, s, key), key)
  {
    hide Less;
    var r := Insert(x, s, key);
    if s == [] {
    } else if Less(key(s[0]), key(x)) {
      assert s == [s[0]] + s[1..];
      InsertAscending(x, s[1..], key);
      InsertKeeps(x, s[1..], key);
      LessAsymmetric(key(s[0]), key(x));
      forall j | 1 <= j < |r|
        ensures !Less(key(r[j]), key(r[0]))
      {
        assert r[j] == Insert(x, s[1..], key)[j - 1];
        assert r[j] in multiset(Insert(x, s[1..], key));
        if r[j] != x {
          assert r[j] in multiset(s[1..]);
          var k :| 0 <= k < |s[1..]| && s[1..][k] == r[j];
          assert s[k + 1] == r[j];
        }
      }
    } else {
      forall j | 0 <= j < |s|
        ensures !Less(key(s[j]), key(x))
      {
        if j > 0 {
          NotLessTransitive(key(x), key(s[0]), key(s[j]));
        }
      }
    }
  }

  lemma LessAsymmetric(a: seq<Byte>, b: seq<Byte>)
    requires Less(a, b)
    ensures !Less(b, a)
  {
    if Less(b, a) {
      LessTransitive(a, b, a);
      LessIrreflexive(a);
    }
  }

  lemma {:induction false} SortAscending<T>(s: seq<T>, key: T -> seq<Byte>)
    ensures Ascending(Sort(s, key), key)
  {
    if s != [] {
      SortAscending(s[1..], key);
      InsertAscending(s[0], Sort(s[1..], key), key);
    }
  }

  /** Sorting a sequence of distinct keys makes them strictly increase. */
  lemma AscendingDistinct<T>(s: seq<T>, key: T -> seq<Byte>)
    requires Ascending(s, key) && DistinctBy(s, key)
    ensures Increasing(s, key)
  {
    hide Less;
    forall i, j | 0 <= i < j < |s|
      ensures Less(key(s[i]), key(s[j]))
    {
      LessTotal(key(s[i]), key(s[j]));
    }
  }

  lemma SortDistinct<T>(s: seq<T>, key: T -> seq<Byte>)
    requires DistinctBy(s, key)
    ensures Increasing(Sort(s, key), key)
    ensures forall x :: x in Sort(s, key) <==> x in s
  {
    hide Less, Sort;
    var r := Sort(s, key);
    SortKeeps(s, key);
    SortAscending(s, key);
    SameMembers(r, s);
    forall i, j | 0 <= i < j < |r|
      ensures key(r[i]) != key(r[j])
    {
      if key(r[i]) == key(r[j]) {
        OneOfEach(s, r, key, i, j);
      }
    }
    AscendingDistinct(r, key);
  }

  /** Inserting an element with a new key is sorting with it. */
  lemma InsertLast<T>(s: seq<T>, x: T, key: T -> seq<Byte>)
    requires DistinctBy(s + [x], key)
    ensures Insert(x, Sort(s, key), key) == Sort(s + [x], key)
  {
    hide Less, Sort, Insert;
    var all, r := s + [x], Insert(x, Sort(s, key), key);
    SortKeeps(s, key);
    InsertKeeps(x, Sort(s, key), key);
    assert multiset(r) == multiset(all);
    SortAscending(s, key);
    InsertAscending(x, Sort(s, key), key);
    forall i, j | 0 <= i < j < |r|
      ensures key(r[i]) != key(r[j])
    {
      if key(r[i]) == key(r[j]) {
        OneOfEach(all, r, key, i, j);
      }
    }
    AscendingDistinct(r, key);
    SortDistinct(all, key);
    SameMembers(r, all);
    IncreasingUnique(r, Sort(all, key), key);
  }

  lemma OneOfEach<T>(s: seq<T>, r: seq<T>, key: T -> seq<Byte>, i: nat, j: nat)
    requires DistinctBy(s, key) && multiset(r) == multiset(s) && i < j < |r|
    ensures key(r[i]) != key(r[j])
  {
    assert r[i] in multiset(s) && r[j] in multiset(s);
    var m :| 0 <= m < |s| && s[m] == r[i];
    var n :| 0 <= n < |s| && s[n] == r[j];
    if r[i] == r[j] {
      TwiceCounted(r, i, j);
      OnceCounted(s, m);
    }
  }

  lemma OnceCounted<T>(s: seq<T>, m: nat)
    requires m < |s| && forall i, j :: 0 <= i < j < |s| ==> s[i] != s[j]
    ensures multiset(s)[s[m]] == 1
  {
    assert s == s[..m] + [s[m]] + s[m + 1..];
    assert multiset(s) == multiset(s[..m]) + multiset{s[m]} + multiset(s[m + 1..]);
    assert s[m] !in s[..m] && s[m] !in s[m + 1..];
  }

  lemma {:induction false} IncreasingAll<T>(s: seq<T>, key: T -> seq<Byte>)
    requires forall i :: 0 <= i < |s| - 1 ==> Less(key(s[i]), key(s[i + 1]))
    ensures Increasing(s, key)
  {
    hide Less;
    if s != [] {
      var init := s[..|s| - 1];
      IncreasingAll(init, key);
      var last := s[|s| - 1];
      forall i | 0 <= i < |s| - 1
        ensures Less(key(s[i]), key(last))
      {
        if i < |s| - 2 {
          assert init[i] == s[i] && init[|s| - 2] == s[|s| - 2];
          LessTransitive(key(s[i]), key(s[|s| - 2]), key(last));
        }
      }
      forall i, j | 0 <= i < j < |s|
        ensures Less(key(s[i]), key(s[j]))
      {
        if j < |s| - 1 {
          assert init[i] == s[i] && init[j] == s[j];
        }
      }
    }
  }

  lemma FirstOfBoth<T>(s: seq<T>, t: seq<T>, key: T -> seq<Byte>)
    requires Increasing(s, key) && Increasing(t, key)
    requires s != [] && t != [] && s[0] in t && t[0] in s
    ensures s[0] == t[0]
  {
    hide Less;
    var i :| 0 <= i < |t| && t[i] == s[0];
    var j :| 0 <= j < |s| && s[j] == t[0];
    if i > 0 && j > 0 {
      LessAsymmetric(key(t[0]), key(s[0]));
    }
  }

  /** There is one strictly increasing sequence of given members. */
  lemma {:induction false} IncreasingUnique<T>(s: seq<T>, t: seq<T>, key: T -> seq<Byte>)
    requires Increasing(s, key) && Increasing(t, key)
    requires forall x :: x in s <==> x in t
    ensures s == t
  {
    hide Less;
    assert t != [] ==> t[0] in s;
    if s != [] {
      assert s[0] in t;
      FirstOfBoth(s, t, key);
      TailMembers(s, key);
      TailMembers(t, key);
      IncreasingUnique(s[1..], t[1..], key);
      assert s == [s[0]] + s[1..] && t == [t[0]] + t[1..];
    }
  }

  lemma TailMembers<T>(s: seq<T>, key: T -> seq<Byte>)
    requires s != [] && Increasing(s, key)
    ensures Increasing(s[1..], key)
    ensures forall x :: x in s[1..] <==> x in s && x != s[0]
  {
    hide Less;
    LessIrreflexive(key(s[0]));
    forall i | 1 <= i < |s|
      ensures s[i] != s[0] && s[i] in s[1..]
    {
      assert Less(key(s[0]), key(s[i]));
      assert s[i] == s[1..][i - 1];
    }
  }

  /** The members of a set in increasing order of their keys. */
  ghost function InOrder<T(!new)>(s: set<T>, key: T -> seq<Byte>): (r: seq<T>)
    decreases |s|
  {
    if s == {} then []
    else
      var x :| x in s;
      Insert(x, InOrder(s - {x}, key), key)
  }

  ghost predicate Separates<T(!new)>(key: T -> seq<Byte>, s: set<T>) {
    forall x, y :: x in s && y in s && key(x) == key(y) ==> x == y
  }

  lemma {:induction false} InOrderMembers<T(!new)>(s: set<T>, key: T -> seq<Byte>)
    ensures multiset(InOrder(s, key)) == multiset(s)
    ensures Ascending(InOrder(s, key), key)
    decreases |s|
  {
    if s != {} {
      var x :| x in s && InOrder(s, key) == Insert(x, InOrder(s - {x}, key), key);
      InOrderMembers(s - {x}, key);
      InsertKeeps(x, InOrder(s - {x}, key), key);
      InsertAscending(x, InOrder(s - {x}, key), key);
      assert multiset(s) == multiset{x} + multiset(s - {x});
    }
  }

  /** `InOrder` lists each member once and is the only increasing listing. */
  lemma InOrderIs<T(!new)>(s: set<T>, key: T -> seq<Byte>)
    requires Separates(key, s)
    ensures Increasing(InOrder(s, key), key)
    ensures |InOrder(s, key)| == |s|
    ensures forall x :: x in InOrder(s, key) <==> x in s
  {
    hide InOrder, Less;
    var r := InOrder(s, key);
    InOrderMembers(s, key);
    assert forall x :: x in r <==> x in multiset(r);
    assert |multiset(r)| == |r|;
    forall i, j | 0 <= i < j < |r|
      ensures key(r[i]) != key(r[j])
    {
      assert r[i] in multiset(r) && r[j] in multiset(r);
      if r[i] == r[j] {
        TwiceCounted(r, i, j);
      }
    }
    AscendingDistinct(r, key);
  }

  lemma TwiceCounted<T>(s: seq<T>, i: nat, j: nat)
    requires i < j < |s| && s[i] == s[j]
    ensures multiset(s)[s[i]] >= 2
  {
    assert s == s[..j] + s[j..];
    assert s[i] in s[..j] && s[j] in s[j..];
    assert multiset(s) == multiset(s[..j]) + multiset(s[j..]);
  }
}
