/** Orders on the elements of a sequence, and what a stable sort of one is. */
module Order {
  ghost predicate Distinct<T>(s: seq<T>) {
    forall i, j :: 0 <= i < j < |s| ==> s[i] != s[j]
  }

  lemma DistinctJoin<T>(s: seq<T>, r: seq<T>)
    requires Distinct(s) && Distinct(r) && forall x :: x in s ==> x !in r
    ensures Distinct(s + r)
  {
    forall i, j | 0 <= i < j < |s + r| ensures (s + r)[i] != (s + r)[j] {
      if i < |s| <= j {
        assert s[i] in s && r[j - |s|] in r;
      }
    }
  }

  /** `less` is a strict weak order on the elements of `s`: asymmetric, and
      "not less" is transitive. */
  ghost predicate StrictWeak<T>(less: (T, T) -> bool, s: seq<T>) {
    && (forall a, b {:trigger less(a, b)} :: a in s && b in s && less(a, b) ==> !less(b, a))
    && (forall a, b, c {:trigger less(a, b), less(b, c)} ::
          a in s && b in s && c in s && !less(a, b) && !less(b, c) ==> !less(a, c))
  }

  /** No element of s[lo..hi] is less than an earlier one. */
  ghost predicate Ascending<T>(less: (T, T) -> bool, s: seq<T>, lo: nat, hi: nat)
    requires hi <= |s|
  {
    forall i, j :: lo <= i < j < hi ==> !less(s[j], s[i])
  }

  ghost predicate Before<T>(s: seq<T>, x: T, y: T) {
    exists i, j :: 0 <= i < j < |s| && s[i] == x && s[j] == y
  }

  /** Two elements change places between `s` and `r` only if `less` demands it. */
  ghost predicate Stable<T>(less: (T, T) -> bool, s: seq<T>, r: seq<T>) {
    forall x, y :: x in s && y in s && Before(r, x, y) && Before(s, y, x) ==> less(x, y)
  }

  /** `r` is the stable sort of `s`. */
  ghost predicate StableSort<T>(less: (T, T) -> bool, s: seq<T>, r: seq<T>) {
    multiset(r) == multiset(s) && Ascending(less, r, 0, |r|) && Stable(less, s, r)
  }

  lemma PermMembers<T>(s: seq<T>, r: seq<T>)
    requires multiset(s) == multiset(r)
    ensures |s| == |r|
    ensures forall x :: x in s <==> x in r
  {
    assert forall x :: x in s <==> x in multiset(s);
    assert forall x :: x in r <==> x in multiset(r);
    assert |s| == |multiset(s)| == |multiset(r)| == |r|;
  }

  lemma PermDistinct<T>(s: seq<T>, r: seq<T>)
    requires multiset(s) == multiset(r) && Distinct(s)
    ensures Distinct(r)
  {
    forall i, j | 0 <= i < j < |r| ensures r[i] != r[j] {
      CountTwo(r, i, j);
      DistinctCount(s, r[i]);
    }
  }

  lemma CountTwo<T>(r: seq<T>, i: nat, j: nat)
    requires i < j < |r|
    ensures r[i] == r[j] ==> multiset(r)[r[i]] >= 2
  {
    assert r == r[..j] + r[j..];
    assert r[i] in r[..j] && r[j] in r[j..];
  }

  lemma {:induction false} DistinctCount<T>(s: seq<T>, x: T)
    requires Distinct(s)
    ensures multiset(s)[x] <= 1
  {
    if s != [] {
      assert s == [s[0]] + s[1..];
      DistinctCount(s[1..], x);
      if x == s[0] {
        assert x !in s[1..];
        assert x !in multiset(s[1..]);
      }
    }
  }

  lemma BeforeTotal<T>(s: seq<T>, x: T, y: T)
    requires x in s && y in s && x != y
    ensures Before(s, x, y) || Before(s, y, x)
  {
    var i :| 0 <= i < |s| && s[i] == x;
    var j :| 0 <= j < |s| && s[j] == y;
    if i < j { assert Before(s, x, y); } else { assert Before(s, y, x); }
  }

  lemma StableRefl<T>(less: (T, T) -> bool, s: seq<T>)
    requires Distinct(s)
    ensures Stable(less, s, s)
  {
  }

  /** Stability composes, whatever `less` is. */
  lemma StableTrans<T>(less: (T, T) -> bool, s: seq<T>, r: seq<T>, t: seq<T>)
    requires Distinct(s) && multiset(s) == multiset(r)
    requires Stable(less, s, r) && Stable(less, r, t)
    ensures Stable(less, s, t)
  {
    PermMembers(s, r);
    forall x, y | x in s && y in s && Before(t, x, y) && Before(s, y, x) ensures less(x, y) {
      BeforeTotal(r, x, y);
    }
  }

  /** A sequence has at most one stable sort: the contract of a sorting method pins its result. */
  lemma {:induction false} StableSortUnique<T>(less: (T, T) -> bool, s: seq<T>, r: seq<T>, t: seq<T>)
    requires Distinct(s)
    requires StableSort(less, s, r) && StableSort(less, s, t)
    ensures r == t
  {
    PermMembers(s, r);
    PermMembers(s, t);
    PermDistinct(s, r);
    PermDistinct(s, t);
    forall x, y | Before(r, x, y) ensures Before(t, x, y) {
      SameOrder(less, s, r, t, x, y);
    }
    SameBeforeSameSeq(r, t);
  }

  lemma SameOrder<T>(less: (T, T) -> bool, s: seq<T>, r: seq<T>, t: seq<T>, x: T, y: T)
    requires Distinct(s) && Distinct(r)
    requires StableSort(less, s, r) && StableSort(less, s, t)
    requires Before(r, x, y)
    ensures Before(t, x, y)
  {
    PermMembers(s, r);
    PermMembers(s, t);
    assert x in r && y in r;
    BeforeTotal(s, x, y);
    BeforeTotal(t, x, y);
    AscendingBefore(less, r, x, y);
    AscendingBefore(less, t, y, x);
  }

  lemma AscendingBefore<T>(less: (T, T) -> bool, s: seq<T>, x: T, y: T)
    requires Ascending(less, s, 0, |s|)
    ensures Before(s, x, y) ==> !less(y, x)
  {
  }

  lemma {:induction false} SameBeforeSameSeq<T>(r: seq<T>, t: seq<T>)
    requires Distinct(r) && Distinct(t) && |r| == |t|
    requires forall x :: x in r <==> x in t
    requires forall x, y :: Before(r, x, y) ==> Before(t, x, y)
    ensures r == t
  {
    if r != [] {
      var x := r[0];
      var y := t[0];
      assert x in r && y in t;
      var k :| 0 <= k < |r| && r[k] == y;
      assert k > 0 ==> Before(r, x, y);
      assert !Before(t, x, y);
      var r', t' := r[1..], t[1..];
      forall y ensures y in r' <==> y in t' {
        assert y in r' <==> y in r && y != x;
        assert y in t' <==> y in t && y != x;
      }
      forall y, z | Before(r', y, z) ensures Before(t', y, z) {
        var i, j :| 0 <= i < j < |r'| && r'[i] == y && r'[j] == z;
        assert r[i + 1] == y && r[j + 1] == z;
        assert Before(r, y, z);
        var a, b :| 0 <= a < b < |t| && t[a] == y && t[b] == z;
        assert y != x;
        assert a > 0;
        assert t'[a - 1] == y && t'[b - 1] == z;
      }
      SameBeforeSameSeq(r', t');
      assert r == [x] + r' && t == [x] + t';
    }
  }

  /** Bringing s[m] forward to position b is a stable permutation when it is less
      than everything it overtakes. */
  lemma MovedStable<T>(less: (T, T) -> bool, s: seq<T>, b: nat, m: nat)
    requires b <= m < |s| && Distinct(s)
    requires forall k :: b <= k < m ==> less(s[m], s[k])
    ensures Stable(less, s, Moved(s, b, m, m + 1))
  {
    var r := Moved(s, b, m, m + 1);
    forall x, y | x in s && y in s && Before(r, x, y) && Before(s, y, x) ensures less(x, y) {
      var i, j :| 0 <= i < j < |r| && r[i] == x && r[j] == y;
      var k, l :| 0 <= k < l < |s| && s[k] == y && s[l] == x;
      MovedFrom(s, b, m, i);
      MovedFrom(s, b, m, j);
    }
  }

  lemma MovedFrom<T>(s: seq<T>, b: nat, m: nat, i: nat)
    requires b <= m < |s| && i < |s|
    ensures Moved(s, b, m, m + 1)[i] == s[if i < b || m < i then i else if i == b then m else i - 1]
  {
  }

  lemma MovedPerm<T>(s: seq<T>, b: nat, f: nat, l: nat)
    requires b <= f <= l <= |s|
    ensures |Moved(s, b, f, l)| == |s|
    ensures multiset(Moved(s, b, f, l)) == multiset(s)
  {
    assert s == s[..b] + s[b..f] + s[f..l] + s[l..];
  }

  /** An order on `s` is one on any rearrangement or part of it. */
  lemma StrictWeakSubset<T>(less: (T, T) -> bool, s: seq<T>, r: seq<T>)
    requires StrictWeak(less, s) && forall x :: x in r ==> x in s
    ensures StrictWeak(less, r)
  {
  }

  /** `c` with the elements at f..l moved to just before position b < f. */
  ghost function Moved<T>(c: seq<T>, b: nat, f: nat, l: nat): seq<T>
    requires b <= f <= l <= |c|
  {
    c[..b] + c[f..l] + c[b..f] + c[l..]
  }

  // ----- Runs: what the merge sort counts down

  /** How many elements of s[lo..hi] are less than their predecessor there. */
  ghost function Descents<T>(less: (T, T) -> bool, s: seq<T>, lo: nat, hi: nat): nat
    requires lo <= hi <= |s|
    decreases hi
  {
    if hi - lo < 2 then 0
    else Descents(less, s, lo, hi - 1) + if less(s[hi - 1], s[hi - 2]) then 1 else 0
  }

  lemma {:induction false} DescentsSplit<T>(less: (T, T) -> bool, s: seq<T>, lo: nat, m: nat, hi: nat)
    requires lo < m < hi <= |s|
    ensures Descents(less, s, lo, hi)
         == Descents(less, s, lo, m) + (if less(s[m], s[m - 1]) then 1 else 0) + Descents(less, s, m, hi)
    decreases hi
  {
    if m < hi - 1 {
      DescentsSplit(less, s, lo, m, hi - 1);
    }
  }

  lemma {:induction false} DescentsSame<T>(less: (T, T) -> bool, s: seq<T>, r: seq<T>, lo: nat, hi: nat)
    requires lo <= hi <= |s| && hi <= |r|
    requires forall i :: lo <= i < hi ==> s[i] == r[i]
    ensures Descents(less, s, lo, hi) == Descents(less, r, lo, hi)
    decreases hi
  {
    if hi - lo >= 2 {
      DescentsSame(less, s, r, lo, hi - 1);
    }
  }

  lemma {:induction false} DescentsAscending<T>(less: (T, T) -> bool, s: seq<T>, lo: nat, hi: nat)
    requires lo <= hi <= |s| && Ascending(less, s, lo, hi)
    ensures Descents(less, s, lo, hi) == 0
    decreases hi
  {
    if hi - lo >= 2 {
      DescentsAscending(less, s, lo, hi - 1);
    }
  }

  /** Merging the two adjacent runs lo..mid and mid..hi, each ended by a descent,
      strictly lowers the number of descents of from..to. */
  lemma DescentsMerge<T>(less: (T, T) -> bool, s: seq<T>, r: seq<T>,
                         from: nat, lo: nat, mid: nat, hi: nat, to: nat)
    requires from <= lo < mid < hi <= to <= |s| == |r|
    requires forall i :: from <= i < lo || hi <= i < to ==> s[i] == r[i]
    requires Ascending(less, s, lo, mid) && Ascending(less, s, mid, hi) && less(s[mid], s[mid - 1])
    requires from < lo ==> less(s[lo], s[lo - 1])
    requires hi < to ==> less(s[hi], s[hi - 1])
    requires Ascending(less, r, lo, hi)
    ensures Descents(less, r, from, to) < Descents(less, s, from, to)
  {
    DescentsBlock(less, s, from, lo, hi, to);
    DescentsBlock(less, r, from, lo, hi, to);
    DescentsSplit(less, s, lo, mid, hi);
    DescentsAscending(less, r, lo, hi);
    DescentsSame(less, s, r, from, lo);
    DescentsSame(less, s, r, hi, to);
  }

  lemma DescentsBlock<T>(less: (T, T) -> bool, s: seq<T>, from: nat, lo: nat, hi: nat, to: nat)
    requires from <= lo < hi <= to <= |s|
    ensures Descents(less, s, from, to)
         == Descents(less, s, from, lo) + (if from < lo && less(s[lo], s[lo - 1]) then 1 else 0)
          + Descents(less, s, lo, hi)
          + (if hi < to && less(s[hi], s[hi - 1]) then 1 else 0) + Descents(less, s, hi, to)
  {
    if from < lo { DescentsSplit(less, s, from, lo, to); }
    if hi < to { DescentsSplit(less, s, lo, hi, to); }
  }

  // ----- Ordered insertion

  /** `s` with `e` inserted before the first element that it is less than. */
  function Inserted<T>(less: (T, T) -> bool, s: seq<T>, e: T): (r: seq<T>)
    ensures |r| == |s| + 1
  {
    if s == [] || less(e, s[0]) then [e] + s else [s[0]] + Inserted(less, s[1..], e)
  }

  lemma {:induction false} InsertedAt<T>(less: (T, T) -> bool, s: seq<T>, e: T, k: nat)
    requires k <= |s|
    requires forall j :: 0 <= j < k ==> !less(e, s[j])
    requires k < |s| ==> less(e, s[k])
    ensures Inserted(less, s, e) == s[..k] + [e] + s[k..]
  {
    if k > 0 {
      InsertedAt(less, s[1..], e, k - 1);
      assert [s[0]] + (s[1..][..k - 1] + [e] + s[1..][k - 1..]) == s[..k] + [e] + s[k..];
    } else {
      assert [] + [e] + s == [e] + s;
    }
  }

  /** The first position whose element `e` is less than. */
  ghost function InsertPosition<T>(less: (T, T) -> bool, s: seq<T>, e: T): (k: nat)
    ensures k <= |s|
    ensures forall j :: 0 <= j < k ==> !less(e, s[j])
    ensures k < |s| ==> less(e, s[k])
  {
    if s == [] || less(e, s[0]) then 0 else 1 + InsertPosition(less, s[1..], e)
  }

  /** Inserting into a sorted sequence is sorting it, stably, with the newcomer last. */
  lemma InsertedIsStableSort<T>(less: (T, T) -> bool, s: seq<T>, e: T)
    requires Distinct(s + [e]) && StrictWeak(less, s + [e])
    requires Ascending(less, s, 0, |s|)
    ensures StableSort(less, s + [e], Inserted(less, s, e))
  {
    hide StrictWeak, Stable, Ascending, Inserted, Moved, Distinct;
    var k := InsertPosition(less, s, e);
    InsertedAt(less, s, e, k);
    InsertedIsMoved(s, e, k);
    NewcomerSorted(less, s, e, k);
    NewcomerMoved(less, s, e, k);
  }

  lemma NewcomerSorted<T>(less: (T, T) -> bool, s: seq<T>, e: T, k: nat)
    requires k <= |s| && StrictWeak(less, s + [e]) && Ascending(less, s, 0, |s|)
    requires forall j :: 0 <= j < k ==> !less(e, s[j])
    requires k < |s| ==> less(e, s[k])
    ensures Ascending(less, s[..k] + [e] + s[k..], 0, |s| + 1)
    ensures forall j :: k <= j < |s| ==> less(e, s[j])
  {
    hide StrictWeak, Ascending;
    LessThanRest(less, s, e, k);
    InsertedAscending(less, s, e, k);
  }

  lemma NewcomerMoved<T>(less: (T, T) -> bool, s: seq<T>, e: T, k: nat)
    requires k <= |s| && Distinct(s + [e])
    requires forall j :: k <= j < |s| ==> less(e, s[j])
    ensures var t := s + [e];
      multiset(Moved(t, k, |s|, |s| + 1)) == multiset(t) && Stable(less, t, Moved(t, k, |s|, |s| + 1))
  {
    hide Stable, Moved, Distinct;
    var t := s + [e];
    MovedPerm(t, k, |s|, |s| + 1);
    assert t[|s|] == e && forall j :: k <= j < |s| ==> t[j] == s[j];
    MovedStable(less, t, k, |s|);
  }

  lemma InsertedIsMoved<T>(s: seq<T>, e: T, k: nat)
    requires k <= |s|
    ensures s[..k] + [e] + s[k..] == Moved(s + [e], k, |s|, |s| + 1)
  {
  }

  lemma LessThanRest<T>(less: (T, T) -> bool, s: seq<T>, e: T, k: nat)
    requires k <= |s| && StrictWeak(less, s + [e])
    requires Ascending(less, s, 0, |s|) && (k < |s| ==> less(e, s[k]))
    ensures forall j :: k <= j < |s| ==> less(e, s[j]) && !less(s[j], e)
  {
    var t := s + [e];
    assert t[|s|] == e;
    forall j | k <= j < |s| ensures less(e, s[j]) && !less(s[j], e) {
      assert t[j] == s[j] && t[k] == s[k];
      assert j > k ==> !less(s[j], s[k]);
    }
  }

  lemma InsertedAscending<T>(less: (T, T) -> bool, s: seq<T>, e: T, k: nat)
    requires k <= |s| && Ascending(less, s, 0, |s|)
    requires forall j :: 0 <= j < k ==> !less(e, s[j])
    requires forall j :: k <= j < |s| ==> !less(s[j], e)
    ensures Ascending(less, s[..k] + [e] + s[k..], 0, |s| + 1)
  {
  }

  // ----- The stable sort as a function

  function Sorted<T>(less: (T, T) -> bool, s: seq<T>): (r: seq<T>)
    ensures |r| == |s|
  {
    if s == [] then []
    else Inserted(less, Sorted(less, s[..|s| - 1]), s[|s| - 1])
  }

  lemma {:induction false} SortedIsStableSort<T>(less: (T, T) -> bool, s: seq<T>)
    requires Distinct(s) && StrictWeak(less, s)
    ensures StableSort(less, s, Sorted(less, s))
  {
    if s == [] {
      StableRefl(less, s);
    } else {
      hide Stable, StrictWeak, Ascending, Inserted;
      var p, e := s[..|s| - 1], s[|s| - 1];
      assert s == p + [e];
      StrictWeakSubset(less, s, p);
      SortedIsStableSort(less, p);
      SortedStep(less, p, Sorted(less, p), e);
    }
  }

  lemma SortedStep<T>(less: (T, T) -> bool, p: seq<T>, q: seq<T>, e: T)
    requires Distinct(p + [e]) && StrictWeak(less, p + [e]) && StableSort(less, p, q)
    ensures StableSort(less, p + [e], Inserted(less, q, e))
  {
    hide Stable, StrictWeak, Ascending, Inserted;
    AppendStable(less, p, q, e);
    PermMembers(p + [e], q + [e]);
    PermDistinct(p + [e], q + [e]);
    StrictWeakSubset(less, p + [e], q + [e]);
    InsertedIsStableSort(less, q, e);
    StableTrans(less, p + [e], q + [e], Inserted(less, q, e));
  }

  lemma AppendStable<T>(less: (T, T) -> bool, p: seq<T>, q: seq<T>, e: T)
    requires Distinct(p + [e]) && multiset(p) == multiset(q) && Stable(less, p, q)
    ensures multiset(p + [e]) == multiset(q + [e]) && Stable(less, p + [e], q + [e])
  {
    PermMembers(p, q);
    PermDistinct(p + [e], q + [e]);
    var s, r := p + [e], q + [e];
    forall x, y | x in s && y in s && Before(r, x, y) && Before(s, y, x) ensures less(x, y) {
      BeforeAppend(p, e, y, x);
      BeforeAppend(q, e, x, y);
    }
  }

  /** In s + [e], nothing comes after e, and elements of s keep their order. */
  lemma BeforeAppend<T>(s: seq<T>, e: T, x: T, y: T)
    requires Distinct(s + [e]) && Before(s + [e], x, y)
    ensures x != e && x in s && (y == e || Before(s, x, y))
  {
    var r := s + [e];
    var i, j :| 0 <= i < j < |r| && r[i] == x && r[j] == y;
    assert x == s[i] && r[|s|] == e;
    assert j < |s| ==> y == s[j];
  }

  lemma {:induction false} InsertedMembers<T>(less: (T, T) -> bool, s: seq<T>, e: T)
    ensures forall x :: x in Inserted(less, s, e) ==> x == e || x in s
    ensures e in Inserted(less, s, e) && forall x :: x in s ==> x in Inserted(less, s, e)
  {
    if s != [] && !less(e, s[0]) {
      InsertedMembers(less, s[1..], e);
      assert forall x :: x in s <==> x == s[0] || x in s[1..];
    }
  }

  lemma InsertedDistinct<T>(less: (T, T) -> bool, s: seq<T>, e: T)
    requires Distinct(s) && e !in s
    ensures Distinct(Inserted(less, s, e))
  {
    InsertedAt(less, s, e, InsertPosition(less, s, e));
  }

  lemma SortedMembers<T>(less: (T, T) -> bool, s: seq<T>)
    requires Distinct(s) && StrictWeak(less, s)
    ensures Distinct(Sorted(less, s)) && forall x :: x in Sorted(less, s) <==> x in s
  {
    SortedIsStableSort(less, s);
    PermMembers(s, Sorted(less, s));
    PermDistinct(s, Sorted(less, s));
  }

  // ----- The order of threads by priority

  /** value_more: higher priorities sort first. */
  function More<T>(prio: T -> int): (T, T) -> bool {
    (a, b) => prio(a) > prio(b)
  }

  lemma MoreIsStrictWeak<T>(prio: T -> int, s: seq<T>)
    ensures StrictWeak(More(prio), s)
  {
  }

  // ----- Filtering a list while stepping through it

  /** The elements of `q` that are not in `gone`, in order. */
  ghost function Dropped<T>(q: seq<T>, gone: set<T>): (r: seq<T>) {
    if q == [] then []
    else Dropped(q[..|q| - 1], gone) + if q[|q| - 1] in gone then [] else [q[|q| - 1]]
  }

  lemma {:induction false} DroppedMembers<T>(q: seq<T>, gone: set<T>)
    ensures forall t :: t in Dropped(q, gone) <==> t in q && t !in gone
    ensures Distinct(q) ==> Distinct(Dropped(q, gone))
  {
    if q != [] {
      DroppedMembers(q[..|q| - 1], gone);
      assert q == q[..|q| - 1] + [q[|q| - 1]];
    }
  }

  lemma DroppedNext<T>(q: seq<T>, i: nat, gone: set<T>)
    requires i < |q|
    ensures Dropped(q[..i + 1], gone) == Dropped(q[..i], gone) + if q[i] in gone then [] else [q[i]]
  {
    assert q[..i + 1][..i] == q[..i];
  }

  lemma SplitNext<T>(q: seq<T>, kept: seq<T>, was: seq<T>, i: nat)
    requires i < |was| && q == kept + was[i..]
    ensures q[|kept|] == was[i] && q[..|kept|] + q[|kept| + 1..] == kept + was[i + 1..]
    ensures q == kept + [was[i]] + was[i + 1..]
  {
  }
}
