/** Heap sort and binary search on arrays (lib/stdlib.c), for any strcmp()-type comparison. */
module StdlibSort {
  import opened Options

  /** What the callers promise of `compare`. */
  ghost predicate Comparison<T(!new)>(compare: (T, T) -> int) {
    && (forall x, y {:trigger compare(x, y)} :: compare(x, y) < 0 <==> compare(y, x) > 0)
    && (forall x, y, z {:trigger compare(x, y), compare(y, z)} ::
          compare(x, y) <= 0 && compare(y, z) <= 0 ==> compare(x, z) <= 0)
  }

  ghost predicate Ordered<T>(compare: (T, T) -> int, s: seq<T>) {
    forall p, q :: 0 <= p < q < |s| ==> compare(s[p], s[q]) <= 0
  }

  // ----- Heaps, with the 1-based indices of the source

  function Elem<T>(s: seq<T>, i: int): T
    requires 1 <= i <= |s|
  {
    s[i - 1]
  }

  /** Among the indices lo..cnt, no element is greater than its parent. */
  ghost predicate Heap<T>(compare: (T, T) -> int, s: seq<T>, lo: nat, cnt: nat) {
    1 <= lo && cnt <= |s| && forall j :: lo <= j / 2 && j <= cnt ==> compare(Elem(s, j), Elem(s, j / 2)) <= 0
  }

  /** A heap but for index i, whose children may be greater than it but not than its parent. */
  ghost predicate HeapBut<T>(compare: (T, T) -> int, s: seq<T>, lo: nat, cnt: nat, i: nat) {
    && 1 <= lo <= i && cnt <= |s|
    && (forall j :: lo <= j / 2 && j <= cnt && j / 2 != i ==> compare(Elem(s, j), Elem(s, j / 2)) <= 0)
    && (forall j :: lo <= i / 2 && j / 2 == i && j <= cnt ==> compare(Elem(s, j), Elem(s, i / 2)) <= 0)
  }

  ghost function Swapped<T>(s: seq<T>, i: nat, j: nat): (r: seq<T>)
    requires 1 <= i <= |s| && 1 <= j <= |s|
  {
    s[i - 1 := s[j - 1]][j - 1 := s[i - 1]]
  }

  /** The first `cnt` elements are permuted and the others stay. */
  ghost predicate PermutesPrefix<T>(s: seq<T>, r: seq<T>, cnt: nat) {
    |r| == |s| && cnt <= |s| && multiset(r[..cnt]) == multiset(s[..cnt]) && r[cnt..] == s[cnt..]
  }

  lemma SwappedPerm<T>(t: seq<T>, s: seq<T>, i: nat, j: nat, cnt: nat)
    requires 1 <= i <= cnt <= |s| && 1 <= j <= cnt && PermutesPrefix(t, s, cnt)
    ensures PermutesPrefix(t, Swapped(s, i, j), cnt)
  {
    assert Swapped(s, i, j)[..cnt] == Swapped(s[..cnt], i, j);
  }

  lemma PrefixItself<T>(s: seq<T>, cnt: nat)
    requires cnt <= |s|
    ensures PermutesPrefix(s, s, cnt)
  {
  }

  /** Floating the greatest child up moves the exception down. */
  lemma FloatStep<T(!new)>(compare: (T, T) -> int, s: seq<T>, lo: nat, cnt: nat, i: nat, max: nat)
    requires Comparison(compare) && HeapBut(compare, s, lo, cnt, i)
    requires max / 2 == i && max <= cnt && compare(Elem(s, max), Elem(s, i)) > 0
    requires forall j :: j / 2 == i && j <= cnt ==> compare(Elem(s, j), Elem(s, max)) <= 0
    ensures HeapBut(compare, Swapped(s, i, max), lo, cnt, max)
  {
    var r := Swapped(s, i, max);
    assert Elem(r, i) == Elem(s, max) && Elem(r, max) == Elem(s, i);
    assert forall j :: 1 <= j <= |s| && j != i && j != max ==> Elem(r, j) == Elem(s, j);
    assert compare(Elem(s, i), Elem(s, max)) < 0;
    forall j | lo <= j / 2 && j <= cnt && j / 2 != max ensures compare(Elem(r, j), Elem(r, j / 2)) <= 0 {
    }
  }

  lemma HeapDone<T>(compare: (T, T) -> int, s: seq<T>, lo: nat, cnt: nat, i: nat)
    requires HeapBut(compare, s, lo, cnt, i)
    requires forall j :: j / 2 == i && j <= cnt ==> compare(Elem(s, j), Elem(s, i)) <= 0
    ensures Heap(compare, s, lo, cnt)
  {
  }

  /** The two comparisons find the greatest of an element and its children. */
  lemma Greatest<T(!new)>(compare: (T, T) -> int, s: seq<T>, cnt: nat, i: nat, max: nat)
    requires Comparison(compare) && 1 <= i <= cnt <= |s|
    requires var m := if 2 * i <= cnt && compare(Elem(s, 2 * i), Elem(s, i)) > 0 then 2 * i else i;
      max == if 2 * i + 1 <= cnt && compare(Elem(s, 2 * i + 1), Elem(s, m)) > 0 then 2 * i + 1 else m
    ensures max == i || (max / 2 == i && compare(Elem(s, max), Elem(s, i)) > 0)
    ensures forall j :: j / 2 == i && j <= cnt ==> compare(Elem(s, j), Elem(s, max)) <= 0
  {
    forall j | j / 2 == i && j <= cnt ensures compare(Elem(s, j), Elem(s, max)) <= 0 {
      assert compare(Elem(s, j), Elem(s, j)) <= 0;
      assert j == 2 * i || j == 2 * i + 1;
    }
  }

  /** One turn of heapify: the heap is done, or the exception floats down. */
  lemma Floated<T(!new)>(compare: (T, T) -> int, was: seq<T>, s: seq<T>, lo: nat, cnt: nat, i: nat, max: nat)
    requires Comparison(compare) && HeapBut(compare, s, lo, cnt, i) && 1 <= i <= cnt <= |s|
    requires PermutesPrefix(was, s, cnt)
    requires var m := if 2 * i <= cnt && compare(Elem(s, 2 * i), Elem(s, i)) > 0 then 2 * i else i;
      max == if 2 * i + 1 <= cnt && compare(Elem(s, 2 * i + 1), Elem(s, m)) > 0 then 2 * i + 1 else m
    ensures i <= max <= cnt && (max == i ==> Heap(compare, s, lo, cnt))
    ensures max != i ==>
      HeapBut(compare, Swapped(s, i, max), lo, cnt, max) && PermutesPrefix(was, Swapped(s, i, max), cnt)
  {
    hide HeapBut, Heap, Comparison, PermutesPrefix, Swapped;
    Greatest(compare, s, cnt, i, max);
    if max == i {
      HeapDone(compare, s, lo, cnt, i);
    } else {
      FloatStep(compare, s, lo, cnt, i, max);
      SwappedPerm(was, s, i, max, cnt);
    }
  }

  /** heapify: restores the heap on lo..cnt, where only index i0 was out of place. */
  method Heapify<T(!new)>(a: array<T>, i0: nat, cnt: nat, compare: (T, T) -> int, ghost lo: nat)
    requires Comparison(compare) && HeapBut(compare, a[..], lo, cnt, i0) && 1 <= i0 <= cnt <= a.Length
    modifies a
    ensures Heap(compare, a[..], lo, cnt) && PermutesPrefix(old(a[..]), a[..], cnt)
  {
    hide HeapBut, Heap, Comparison, PermutesPrefix;
    PrefixItself(a[..], cnt);
    var i := i0;
    while true
      invariant 1 <= i <= cnt && HeapBut(compare, a[..], lo, cnt, i)
      invariant PermutesPrefix(old(a[..]), a[..], cnt)
      decreases cnt - i
    {
      var left, right, max := 2 * i, 2 * i + 1, i;
      if left <= cnt && compare(a[left - 1], a[max - 1]) > 0 {
        max := left;
      }
      if right <= cnt && compare(a[right - 1], a[max - 1]) > 0 {
        max := right;
      }
      ghost var s := a[..];
      Floated(compare, old(a[..]), s, lo, cnt, i, max);
      if max == i {
        break;
      }
      a[i - 1], a[max - 1] := a[max - 1], a[i - 1];
      assert a[..] == Swapped(s, i, max);
      i := max;
    }
  }

  // ----- Sorting

  lemma {:induction false} RootIsGreatest<T(!new)>(compare: (T, T) -> int, s: seq<T>, cnt: nat, j: nat)
    requires Comparison(compare) && Heap(compare, s, 1, cnt) && 1 <= j <= cnt
    ensures compare(Elem(s, j), Elem(s, 1)) <= 0
  {
    if j == 1 {
      assert compare(Elem(s, 1), Elem(s, 1)) <= 0;
    } else {
      RootIsGreatest(compare, s, cnt, j / 2);
    }
  }

  /** s[i..] is in order, and nothing in s[..i] is greater than anything in it. */
  ghost predicate Split<T>(compare: (T, T) -> int, s: seq<T>, i: nat) {
    && i <= |s| && Ordered(compare, s[i..])
    && forall x, y :: x in multiset(s[..i]) && y in s[i..] ==> compare(x, y) <= 0
  }

  /** Midway: a heap in s[..i], and after it the greatest elements in order. */
  ghost predicate Partial<T>(compare: (T, T) -> int, s: seq<T>, i: nat) {
    Heap(compare, s, 1, i) && Split(compare, s, i)
  }

  lemma RootSwapped<T(!new)>(compare: (T, T) -> int, s: seq<T>, i: nat)
    requires Heap(compare, s, 1, i) && i > 1
    ensures HeapBut(compare, Swapped(s, 1, i), 1, i - 1, 1)
  {
    var r := Swapped(s, 1, i);
    forall j | 1 <= j / 2 && j <= i - 1 && j / 2 != 1 ensures compare(Elem(r, j), Elem(r, j / 2)) <= 0 {
      assert Elem(r, j) == Elem(s, j) && Elem(r, j / 2) == Elem(s, j / 2);
    }
  }

  /** Swapping the root to the end of the heap extends the sorted part by it. */
  lemma ExtendSorted<T(!new)>(compare: (T, T) -> int, s: seq<T>, i: nat)
    requires Comparison(compare) && Partial(compare, s, i) && i > 1
    ensures HeapBut(compare, Swapped(s, 1, i), 1, i - 1, 1) && Split(compare, Swapped(s, 1, i), i - 1)
  {
    var r := Swapped(s, 1, i);
    RootSwapped(compare, s, i);
    hide Heap, HeapBut;
    assert r[i - 1..] == [s[0]] + s[i..];
    assert s[0] in s[..i];
    forall x, y | x in multiset(r[..i - 1]) && y in r[i - 1..] ensures compare(x, y) <= 0 {
      var k :| 0 <= k < i - 1 && r[k] == x;
      assert x == if k == 0 then s[i - 1] else s[k];
      RootIsGreatest(compare, s, i, if k == 0 then i else k + 1);
      assert x in s[..i];
    }
  }

  lemma PartialKept<T>(compare: (T, T) -> int, s: seq<T>, r: seq<T>, i: nat)
    requires Heap(compare, r, 1, i) && Split(compare, s, i) && PermutesPrefix(s, r, i)
    ensures Partial(compare, r, i)
  {
  }

  lemma PrefixPerm<T>(s: seq<T>, r: seq<T>, cnt: nat)
    requires PermutesPrefix(s, r, cnt)
    ensures multiset(r) == multiset(s)
  {
    assert s == s[..cnt] + s[cnt..] && r == r[..cnt] + r[cnt..];
  }

  /** The first loop of sort: floats down every element that has children, the last first. */
  method BuildHeap<T(!new)>(a: array<T>, compare: (T, T) -> int)
    requires Comparison(compare)
    modifies a
    ensures Heap(compare, a[..], 1, a.Length) && multiset(a[..]) == multiset(old(a[..]))
  {
    hide Comparison, PermutesPrefix;
    var cnt := a.Length;
    var i := cnt / 2;
    while i > 0
      invariant 0 <= i <= cnt / 2 && Heap(compare, a[..], i + 1, cnt)
      invariant multiset(a[..]) == multiset(old(a[..]))
    {
      ghost var s := a[..];
      assert HeapBut(compare, s, i, cnt, i);
      Heapify(a, i, cnt, compare, i);
      PrefixPerm(s, a[..], cnt);
      i := i - 1;
    }
  }

  /** One turn of sort's second loop. */
  method PopRoot<T(!new)>(a: array<T>, i: nat, compare: (T, T) -> int)
    requires Comparison(compare) && Partial(compare, a[..], i) && i > 1
    modifies a
    ensures Partial(compare, a[..], i - 1) && multiset(a[..]) == multiset(old(a[..]))
  {
    assert i <= a.Length;
    ghost var s := a[..];
    ExtendSorted(compare, s, i);
    hide Heap, HeapBut, Comparison, Ordered, Partial, Split, PermutesPrefix, Swapped;
    PrefixItself(s, a.Length);
    SwappedPerm(s, s, 1, i, a.Length);
    PrefixPerm(s, Swapped(s, 1, i), a.Length);
    SwapDone(s, i);
    a[0], a[i - 1] := a[i - 1], a[0];
    ghost var r := a[..];
    assert r == Swapped(s, 1, i);
    Heapify(a, 1, i - 1, compare, 1);
    PrefixPerm(r, a[..], i - 1);
    PartialKept(compare, r, a[..], i - 1);
  }

  lemma SwapDone<T>(s: seq<T>, i: nat)
    requires 1 <= i <= |s|
    ensures Swapped(s, 1, i) == s[0 := s[i - 1]][i - 1 := s[0]]
  {
  }

  lemma PartialEnds<T(!new)>(compare: (T, T) -> int, s: seq<T>, i: nat)
    requires Comparison(compare) && i <= |s|
    ensures Heap(compare, s, 1, |s|) ==> Partial(compare, s, |s|)
    ensures Partial(compare, s, i) && i <= 1 ==> Ordered(compare, s)
  {
    if Partial(compare, s, i) && i <= 1 {
      forall p, q | 0 <= p < q < |s| ensures compare(s[p], s[q]) <= 0 {
        assert s[q] == s[i..][q - i];
        if p < i {
          assert s[p] in s[..i];
        } else {
          assert s[p] == s[i..][p - i];
        }
      }
    }
  }

  /** sort: any array becomes an ordered permutation of itself. */
  method Sort<T(!new)>(a: array<T>, compare: (T, T) -> int)
    requires Comparison(compare)
    modifies a
    ensures multiset(a[..]) == multiset(old(a[..]))
    ensures Ordered(compare, a[..])
  {
    hide Heap, HeapBut, Comparison, Ordered;
    var cnt := a.Length;
    BuildHeap(a, compare);
    PartialEnds(compare, a[..], cnt);
    var i := cnt;
    while i > 1
      invariant 0 <= i <= cnt && Partial(compare, a[..], i)
      invariant multiset(a[..]) == multiset(old(a[..]))
    {
      PopRoot(a, i, compare);
      i := i - 1;
    }
    PartialEnds(compare, a[..], i);
  }

  // ----- Searching

  /** On an ordered array, a matching index exactly if there is one. */
  method BinarySearch<T(!new)>(key: T, a: array<T>, compare: (T, T) -> int) returns (r: Option<nat>)
    requires Comparison(compare) && Ordered(compare, a[..])
    ensures r.Some? ==> r.value < a.Length && compare(key, a[r.value]) == 0
    ensures r.None? ==> forall j :: 0 <= j < a.Length ==> compare(key, a[j]) != 0
  {
    var first, last := 0, a.Length;
    while first < last
      invariant 0 <= first <= last <= a.Length
      invariant forall j :: 0 <= j < first ==> compare(key, a[j]) > 0
      invariant forall j :: last <= j < a.Length ==> compare(key, a[j]) < 0
      decreases last - first
    {
      var range := last - first;
      var middle := first + range / 2;
      var cmp := compare(key, a[middle]);
      forall j | 0 <= j < a.Length
        ensures cmp < 0 && middle <= j ==> compare(key, a[j]) < 0
        ensures cmp > 0 && j <= middle ==> compare(key, a[j]) > 0
      {
        Beyond(compare, a[..], key, middle, j);
      }
      if cmp < 0 {
        last := middle;
      } else if cmp > 0 {
        first := middle + 1;
      } else {
        return Some(middle);
      }
    }
    return None;
  }

  lemma Beyond<T(!new)>(compare: (T, T) -> int, s: seq<T>, key: T, m: nat, j: nat)
    requires Comparison(compare) && Ordered(compare, s) && m < |s| && j < |s|
    ensures compare(key, s[m]) < 0 && m <= j ==> compare(key, s[j]) < 0
    ensures compare(key, s[m]) > 0 && j <= m ==> compare(key, s[j]) > 0
  {
    StrictTrans(compare, key, s[m], s[j]);
  }

  lemma StrictTrans<T(!new)>(compare: (T, T) -> int, x: T, y: T, z: T)
    requires Comparison(compare)
    ensures compare(x, y) < 0 && compare(y, z) <= 0 ==> compare(x, z) < 0
    ensures compare(x, y) > 0 && compare(z, y) <= 0 ==> compare(x, z) > 0
  {
    assert compare(z, x) <= 0 || compare(z, x) > 0;
  }
}
