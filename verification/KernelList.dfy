/**
 The kernel's intrusive doubly linked list (lib/kernel/list.c).

 A list is two header elements, `head` and `tail`, and the interior elements
 linked between them.  Links are heap fields that every operation rewrites in
 place; the ghost sequence `elems` is the order they are supposed to encode.

 The comparator is a function of the two element references, which is all that
 `list_less_func` receives: list operations only touch `prev` and `next`, so its
 verdicts cannot change while one of them runs.
 */
module KernelList {
  import opened Order

  class ListElem {
    var prev: ListElem?
    var next: ListElem?

    constructor ()
      ensures prev == null && next == null
    {
      prev, next := null, null;
    }
  }

  /** Neighbours of `s` point at each other. */
  ghost predicate Linked(s: seq<ListElem>)
    reads s
  {
    && (forall i {:trigger s[i].next} :: 0 <= i < |s| - 1 ==> s[i].next == s[i + 1])
    && (forall i {:trigger s[i].prev} :: 0 < i < |s| ==> s[i].prev == s[i - 1])
  }

  lemma LinkedJoin(a: seq<ListElem>, b: seq<ListElem>)
    requires Linked(a) && Linked(b) && a != [] && b != []
    requires a[|a| - 1].next == b[0] && b[0].prev == a[|a| - 1]
    ensures Linked(a + b)
  {
  }

  /** `c` is a whole list, headers included: linked both ways, closed at both ends. */
  ghost predicate Chain(c: seq<ListElem>)
    reads c
  {
    && |c| >= 2
    && Distinct(c)
    && c[0].prev == null
    && c[|c| - 1].next == null
    && Linked(c)
  }

  lemma ChainLinks(c: seq<ListElem>)
    requires Chain(c)
    ensures |c| >= 2 && Distinct(c) && c[0].next == c[1]
  {
  }

  /** Links ELEM just before BEFORE = c[k]. */
  method Insert(before: ListElem, elem: ListElem, ghost c: seq<ListElem>, ghost k: nat)
    requires Chain(c)
    requires 0 < k < |c| && c[k] == before && elem !in c
    modifies elem, before, c[k - 1]
    ensures Chain(c[..k] + [elem] + c[k..])
  {
    elem.prev := before.prev;
    elem.next := before;
    before.prev.next := elem;
    before.prev := elem;
  }

  /** list_next of c[k] is c[k + 1]. */
  lemma NextLink(c: seq<ListElem>, k: nat)
    requires Chain(c) && k < |c| - 1
    ensures c[k].next == c[k + 1]
  {
  }

  /** Unlinks ELEM = c[k] and returns its successor. */
  method Remove(elem: ListElem, ghost c: seq<ListElem>, ghost k: nat) returns (after: ListElem)
    requires Chain(c)
    requires 0 < k < |c| - 1 && c[k] == elem
    modifies c[k - 1], c[k + 1]
    ensures Chain(c[..k] + c[k + 1..])
    ensures after == c[k + 1]
  {
    elem.prev.next := elem.next;
    elem.next.prev := elem.prev;
    return elem.next;
  }

  lemma LastOfSum<T>(a: seq<T>, b: seq<T>)
    requires a != [] && b != []
    ensures (a + b)[|a + b| - 1] == b[|b| - 1] && (a + b)[0] == a[0]
  {
  }

  lemma LinkedPart(c: seq<ListElem>, i: nat, j: nat)
    requires i < j <= |c|
    requires forall k {:trigger c[k].next} :: i <= k < j - 1 ==> c[k].next == c[k + 1]
    requires forall k {:trigger c[k].prev} :: i < k < j ==> c[k].prev == c[k - 1]
    ensures Linked(c[i..j])
  {
  }

  /** Relinking the three seams of a rotation b..f..l leaves a chain. */
  lemma RelinkedSeams(c: seq<ListElem>, b: nat, f: nat, l: nat)
    requires 0 < b < f < l < |c| && Distinct(c)
    requires c[0].prev == null && c[|c| - 1].next == null
    requires forall i {:trigger c[i].next} :: 0 <= i < |c| - 1 && i != b - 1 && i != f - 1 && i != l - 1 ==>
      c[i].next == c[i + 1]
    requires forall i {:trigger c[i].prev} :: 0 < i < |c| && i != b && i != f && i != l ==> c[i].prev == c[i - 1]
    requires c[b - 1].next == c[f] && c[f].prev == c[b - 1]
    requires c[l - 1].next == c[b] && c[b].prev == c[l - 1]
    requires c[f - 1].next == c[l] && c[l].prev == c[f - 1]
    ensures Chain(Moved(c, b, f, l))
  {
    var A, R, M, Z := c[0..b], c[f..l], c[b..f], c[l..|c|];
    LinkedPart(c, 0, b);
    LinkedPart(c, f, l);
    LinkedPart(c, b, f);
    LinkedPart(c, l, |c|);
    assert A == c[..b] && Z == c[l..];
    assert A[|A| - 1] == c[b - 1] && R[0] == c[f] && R[|R| - 1] == c[l - 1];
    assert M[0] == c[b] && M[|M| - 1] == c[f - 1] && Z[0] == c[l] && Z[|Z| - 1] == c[|c| - 1];
    DistinctMoved(c, b, f, l);
    hide Linked, Distinct;
    LinkedJoin(A, R);
    LastOfSum(A, R);
    LinkedJoin(A + R, M);
    LastOfSum(A + R, M);
    LinkedJoin(A + R + M, Z);
    LastOfSum(A + R + M, Z);
  }

  /** The four link assignments of list_splice and the two between them: the three seams are relinked,
      and a range that is already in its place stays there. */
  method Relink(before: ListElem, first: ListElem, last: ListElem,
                ghost c: seq<ListElem>, ghost b: nat, ghost f: nat, ghost l: nat)
    requires Chain(c) && 0 < b < |c| && 0 < f < l < |c| && (b < f || l <= b)
    requires c[b] == before && c[f] == first && c[l] == last
    modifies c[b - 1], c[b], c[f - 1], c[f], c[l - 1], c[l]
    ensures c[0].prev == null && c[|c| - 1].next == null
    ensures forall i {:trigger c[i].next} ::
      0 <= i < |c| - 1 && (l == b || (i != b - 1 && i != f - 1 && i != l - 1)) ==> c[i].next == c[i + 1]
    ensures forall i {:trigger c[i].prev} :: 0 < i < |c| && (l == b || (i != b && i != f && i != l)) ==>
      c[i].prev == c[i - 1]
    ensures l != b ==> c[b - 1].next == c[f] && c[l - 1].next == c[b] && c[f - 1].next == c[l]
    ensures l != b ==> c[f].prev == c[b - 1] && c[b].prev == c[l - 1] && c[l].prev == c[f - 1]
  {
    var end := last.prev;
    first.prev.next := end.next;
    end.next.prev := first.prev;
    first.prev := before.prev;
    end.next := before;
    before.prev.next := first;
    before.prev := end;
  }

  /** Moves FIRST..LAST (exclusive) of the chain to just before BEFORE,
      which lies either ahead of that range or at or behind its end. */
  method Splice(before: ListElem, first: ListElem, last: ListElem,
                ghost c: seq<ListElem>, ghost b: nat, ghost f: nat, ghost l: nat)
    requires Chain(c)
    requires 0 < b < |c| && 0 < f <= l < |c|
    requires f == l || b < f || l <= b
    requires c[b] == before && c[f] == first && c[l] == last
    modifies c[b - 1], c[b], c[f - 1], c[f], c[l - 1], c[l]
    ensures f == l ==> Chain(c)
    ensures b < f ==> Chain(Moved(c, b, f, l))
    ensures f < l <= b ==> Chain(Moved(c, f, l, b))
  {
    if first == last {
      assert b < f ==> Moved(c, b, f, l) == c;
      return;
    }
    ChainLinks(c);
    Relink(before, first, last, c, b, f, l);
    hide Chain, Moved;
    if l == b {
      StillChain(c, f, l);
    } else if b < f {
      RelinkedSeams(c, b, f, l);
    } else {
      RelinkedSeams(c, f, l, b);
    }
  }

  lemma StillChain(c: seq<ListElem>, f: nat, l: nat)
    requires |c| >= 2 && Distinct(c) && c[0].prev == null && c[|c| - 1].next == null && f <= l <= |c|
    requires forall i {:trigger c[i].next} :: 0 <= i < |c| - 1 ==> c[i].next == c[i + 1]
    requires forall i {:trigger c[i].prev} :: 0 < i < |c| ==> c[i].prev == c[i - 1]
    ensures Chain(c) && Chain(Moved(c, f, l, l))
  {
    assert Moved(c, f, l, l) == c;
  }

  lemma DistinctMoved<T>(c: seq<T>, b: nat, f: nat, l: nat)
    requires b <= f <= l <= |c| && Distinct(c)
    ensures Distinct(Moved(c, b, f, l))
  {
  }

  // ----- Runs and merging

  /** The exclusive end c[k] of the run that starts at A = c[lo], at most B = c[hi]. */
  method FindEndOfRun(a: ListElem, b: ListElem, less: (ListElem, ListElem) -> bool,
                      ghost c: seq<ListElem>, ghost lo: nat, ghost hi: nat)
    returns (end: ListElem, ghost k: nat)
    requires Chain(c) && 0 < lo < hi < |c| && c[lo] == a && c[hi] == b
    requires StrictWeak(less, Interior(c))
    ensures lo < k <= hi && c[k] == end
    ensures Ascending(less, c, lo, k)
    ensures k < hi ==> less(c[k], c[k - 1])
  {
    end, k := a.next, lo + 1;
    while end != b && !less(end, end.prev)
      invariant lo < k <= hi && c[k] == end
      invariant Ascending(less, c, lo, k)
      decreases hi - k
    {
      AscendingExtend(less, c, lo, k);
      end, k := end.next, k + 1;
    }
  }

  lemma AscendingExtend(less: (ListElem, ListElem) -> bool, c: seq<ListElem>, lo: nat, k: nat)
    requires 0 < lo < k < |c| - 1
    requires StrictWeak(less, Interior(c))
    requires Ascending(less, c, lo, k) && !less(c[k], c[k - 1])
    ensures Ascending(less, c, lo, k + 1)
  {
    var s := Interior(c);
    assert c[k] == s[k - 1] && c[k - 1] == s[k - 2];
    forall i | lo <= i < k ensures !less(c[k], c[i]) {
      assert c[i] == s[i - 1];
    }
  }

  /** The state of the merge loop: lo..i is output, i..m is left of the first run, m..hi of the second. */
  ghost predicate Merging(less: (ListElem, ListElem) -> bool, c: seq<ListElem>, lo: nat, i: nat, m: nat, hi: nat)
    requires hi <= |c|
  {
    && lo <= i <= m <= hi
    && Ascending(less, c, lo, m)
    && Ascending(less, c, m, hi)
    && forall x, y :: lo <= x < i && m <= y < hi ==> !less(c[y], c[x])
  }

  lemma MergeStart(less: (ListElem, ListElem) -> bool, c: seq<ListElem>, lo: nat, m: nat, hi: nat)
    requires lo <= m <= hi <= |c| && Ascending(less, c, lo, m) && Ascending(less, c, m, hi)
    ensures Merging(less, c, lo, lo, m, hi)
  {
  }

  lemma MergeEnd(less: (ListElem, ListElem) -> bool, c: seq<ListElem>, lo: nat, i: nat, m: nat, hi: nat)
    requires hi <= |c| && Merging(less, c, lo, i, m, hi) && (i == m || m == hi)
    ensures Ascending(less, c, lo, hi)
  {
  }

  lemma MergeStepFirst(less: (ListElem, ListElem) -> bool, c: seq<ListElem>, lo: nat, i: nat, m: nat, hi: nat)
    requires 0 < lo <= i < m < hi < |c|
    requires StrictWeak(less, Interior(c))
    requires Merging(less, c, lo, i, m, hi) && !less(c[m], c[i])
    ensures Merging(less, c, lo, i + 1, m, hi)
  {
    var s := Interior(c);
    assert c[m] == s[m - 1] && c[i] == s[i - 1];
    forall y | m <= y < hi ensures !less(c[y], c[i]) {
      assert c[y] == s[y - 1];
    }
  }

  /** The head of the second run, when less than the head of the first, is less than all of it. */
  lemma OvertakesAll(less: (ListElem, ListElem) -> bool, c: seq<ListElem>, lo: nat, i: nat, m: nat, hi: nat)
    requires 0 < lo <= i < m < hi < |c|
    requires StrictWeak(less, Interior(c))
    requires Merging(less, c, lo, i, m, hi) && less(c[m], c[i])
    ensures forall k :: i <= k < m ==> less(c[m], c[k]) && !less(c[k], c[m])
  {
    var s := Interior(c);
    assert c[m] == s[m - 1] && c[i] == s[i - 1];
    forall k | i <= k < m ensures less(c[m], c[k]) && !less(c[k], c[m]) {
      assert c[k] == s[k - 1];
      assert k > i ==> !less(c[k], c[i]);
    }
  }

  lemma MergeStepSecond(less: (ListElem, ListElem) -> bool, c: seq<ListElem>, lo: nat, i: nat, m: nat, hi: nat)
    requires 0 < lo <= i < m < hi < |c|
    requires Merging(less, c, lo, i, m, hi)
    requires forall k :: i <= k < m ==> less(c[m], c[k])
    requires forall k :: i <= k < m ==> !less(c[k], c[m])
    ensures var r := Moved(c, i, m, m + 1);
      |r| == |c| && r[i + 1] == c[i] && r[m + 1] == c[m + 1] && Merging(less, r, lo, i + 1, m + 1, hi)
  {
    var r := Moved(c, i, m, m + 1);
    assert forall k :: 0 <= k < i || m < k < |c| ==> r[k] == c[k];
    assert r[i] == c[m];
    assert forall k {:trigger r[k]} :: i < k <= m ==> r[k] == c[k - 1];
  }

  ghost function Interior<T>(c: seq<T>): seq<T>
    requires |c| >= 2
  {
    c[1..|c| - 1]
  }

  lemma ChainInterior<T>(c: seq<T>)
    requires |c| >= 2
    ensures [c[0]] + Interior(c) + [c[|c| - 1]] == c
  {
  }

  lemma MovedInterior<T>(c: seq<T>, i: nat, m: nat)
    requires 0 < i <= m < |c| - 1
    ensures |Moved(c, i, m, m + 1)| == |c|
    ensures forall x :: x in Interior(Moved(c, i, m, m + 1)) ==> x in Interior(c)
  {
    var r := Moved(c, i, m, m + 1);
    forall x | x in Interior(r) ensures x in Interior(c) {
      var k :| 0 <= k < |r| - 2 && Interior(r)[k] == x;
      MovedFrom(c, i, m, k + 1);
      var k' := if k + 1 < i || m < k + 1 then k + 1 else if k + 1 == i then m else k;
      assert Interior(c)[k' - 1] == x;
    }
  }

  /** One splice of the merge loop, seen from the whole chain. */
  lemma MergeStepChain(less: (ListElem, ListElem) -> bool, c: seq<ListElem>, i: nat, m: nat)
    requires 0 < i < m < |c| - 1 && Distinct(c)
    requires StrictWeak(less, Interior(c))
    requires forall k :: i <= k < m ==> less(c[m], c[k])
    ensures var r := Moved(c, i, m, m + 1);
      |r| == |c| && multiset(r) == multiset(c) && StrictWeak(less, Interior(r)) && Stable(less, c, r)
  {
    hide StrictWeak, Stable, Distinct, Moved, Interior;
    var r := Moved(c, i, m, m + 1);
    MovedPerm(c, i, m, m + 1);
    MovedStable(less, c, i, m);
    MovedInterior(c, i, m);
    StrictWeakSubset(less, Interior(c), Interior(r));
  }

  /** `r` rearranges only positions lo..hi of `c`, stably. */
  ghost predicate Rearranged(less: (ListElem, ListElem) -> bool, c: seq<ListElem>, r: seq<ListElem>, lo: nat, hi: nat)
  {
    && |r| == |c|
    && multiset(r) == multiset(c)
    && Stable(less, c, r)
    && forall k :: (0 <= k < lo || hi <= k) && k < |c| ==> r[k] == c[k]
  }

  lemma RearrangedStep(less: (ListElem, ListElem) -> bool, c: seq<ListElem>, r: seq<ListElem>,
                       lo: nat, hi: nat, i: nat, m: nat)
    requires Distinct(c) && Rearranged(less, c, r, lo, hi)
    requires lo <= i < m < hi < |c|
    requires var r' := Moved(r, i, m, m + 1); multiset(r') == multiset(r) && Stable(less, r, r')
    ensures Rearranged(less, c, Moved(r, i, m, m + 1), lo, hi)
  {
    var r' := Moved(r, i, m, m + 1);
    StableTrans(less, c, r, r');
    hide Stable;
    PermMembers(r, r');
    forall k | (0 <= k < lo || hi <= k) && k < |c| ensures r'[k] == c[k] {
      MovedFrom(r, i, m, k);
    }
  }

  /** The node before `b`, from the second run, goes ahead of `a`. */
  method TakeSecond(a: ListElem, b: ListElem, less: (ListElem, ListElem) -> bool, ghost c: seq<ListElem>,
                    ghost r: seq<ListElem>, ghost lo: nat, ghost i: nat, ghost m: nat, ghost hi: nat)
    returns (ghost r': seq<ListElem>)
    requires Distinct(c) && Chain(r) && StrictWeak(less, Interior(r)) && Rearranged(less, c, r, lo, hi)
    requires 0 < lo <= i < m < hi < |r| && Merging(less, r, lo, i, m, hi)
    requires r[i] == a && r[m + 1] == b && less(r[m], r[i])
    modifies c
    ensures r' == Moved(r, i, m, m + 1) && Chain(r') && StrictWeak(less, Interior(r'))
    ensures Rearranged(less, c, r', lo, hi) && Merging(less, r', lo, i + 1, m + 1, hi)
    ensures i + 1 < |r'| && m + 1 < |r'| && r'[i + 1] == a && r'[m + 1] == b
  {
    hide StrictWeak, Stable, Moved, Merging, Ascending;
    OvertakesAll(less, r, lo, i, m, hi);
    MergeStepSecond(less, r, lo, i, m, hi);
    MergeStepChain(less, r, i, m);
    PermMembers(c, r);
    assert r[i - 1] in c && r[i] in c && r[m - 1] in c && r[m] in c && r[m + 1] in c;
    Splice(a, b.prev, b, r, i, m, m + 1);
    RearrangedStep(less, c, r, lo, hi, i, m);
    r' := Moved(r, i, m, m + 1);
  }

  /** Merges the adjacent runs A0..A1B0 and A1B0..B1 in place. */
  method InplaceMerge(a0: ListElem, a1b0: ListElem, b1: ListElem, less: (ListElem, ListElem) -> bool,
                      ghost c: seq<ListElem>, ghost lo: nat, ghost mid: nat, ghost hi: nat)
    returns (ghost r: seq<ListElem>)
    requires Chain(c) && 0 < lo < mid < hi < |c|
    requires c[lo] == a0 && c[mid] == a1b0 && c[hi] == b1
    requires StrictWeak(less, Interior(c))
    requires Ascending(less, c, lo, mid) && Ascending(less, c, mid, hi)
    modifies c
    ensures Rearranged(less, c, r, lo, hi)
    ensures Chain(r) && StrictWeak(less, Interior(r))
    ensures Ascending(less, r, lo, hi)
  {
    hide StrictWeak, Stable, Moved, Merging, Ascending;
    var a, b := a0, a1b0;
    ghost var i, m := lo, mid;
    r := c;
    MergeStart(less, c, lo, mid, hi);
    StableRefl(less, c);
    while a != b && b != b1
      invariant Chain(r) && StrictWeak(less, Interior(r))
      invariant Rearranged(less, c, r, lo, hi)
      invariant lo <= i <= m <= hi && Merging(less, r, lo, i, m, hi)
      invariant r[i] == a && r[m] == b
      decreases hi - i
    {
      if !less(b, a) {
        MergeStepFirst(less, r, lo, i, m, hi);
        a := a.next;
      } else {
        b := b.next;
        r := TakeSecond(a, b, less, c, r, lo, i, m, hi);
        m := m + 1;
      }
      i := i + 1;
    }
    MergeEnd(less, r, lo, i, m, hi);
  }

  // ----- One pass of the merge sort over the chain c[0..end], interior 1..end

  /** `runs` runs have been output and the cursor stands at c[lo]; the pass began with `start`. */
  ghost predicate Pass(less: (ListElem, ListElem) -> bool, start: seq<ListElem>, c: seq<ListElem>,
                       lo: nat, end: nat, runs: nat)
  {
    && |c| == |start| == end + 1 && 1 <= lo <= end
    && (runs == 0 ==> lo == 1 && c == start)
    && (runs == 1 ==> Ascending(less, c, 1, lo))
    && (runs > 0 ==> Descents(less, c, 1, end) < Descents(less, start, 1, end))
    && (1 < lo < end ==> less(c[lo], c[lo - 1]))
  }

  lemma PassStep(less: (ListElem, ListElem) -> bool, start: seq<ListElem>, c: seq<ListElem>, r: seq<ListElem>,
                 lo: nat, mid: nat, hi: nat, end: nat, runs: nat)
    requires Pass(less, start, c, lo, end, runs) && Distinct(c)
    requires StrictWeak(less, Interior(c))
    requires lo < mid < hi <= end
    requires Ascending(less, c, lo, mid) && Ascending(less, c, mid, hi) && less(c[mid], c[mid - 1])
    requires hi < end ==> less(c[hi], c[hi - 1])
    requires Rearranged(less, c, r, lo, hi) && Ascending(less, r, lo, hi)
    ensures Pass(less, start, r, hi, end, runs + 1) && r[hi] == c[hi]
  {
    DescentsMerge(less, c, r, 1, lo, mid, hi, end);
    if hi < end {
      LastStaysBelow(less, c, r, lo, hi);
    }
  }

  /** Merging lo..hi keeps the descent after it: the last element can only have grown. */
  lemma LastStaysBelow(less: (ListElem, ListElem) -> bool, c: seq<ListElem>, r: seq<ListElem>, lo: nat, hi: nat)
    requires 0 < lo < hi < |c| - 1 && Distinct(c)
    requires StrictWeak(less, Interior(c)) && less(c[hi], c[hi - 1])
    requires Rearranged(less, c, r, lo, hi) && Ascending(less, r, lo, hi)
    ensures less(r[hi], r[hi - 1])
  {
    PermMembers(c, r);
    PermDistinct(c, r);
    assert c[hi - 1] in r;
    var k :| 0 <= k < |r| && r[k] == c[hi - 1];
    assert lo <= k < hi;
    assert r[hi - 1] in c;
    var j :| 0 <= j < |c| && c[j] == r[hi - 1];
    var s := Interior(c);
    assert c[hi] == s[hi - 1] && c[hi - 1] == s[hi - 2] && c[j] == s[j - 1];
    assert !less(r[hi - 1], r[k]);
  }

  /** The loop ends with a sorted chain, or with fewer descents than it started. */
  lemma PassEnd(less: (ListElem, ListElem) -> bool, start: seq<ListElem>, c: seq<ListElem>,
                lo: nat, end: nat, runs: nat, broke: bool)
    requires Pass(less, start, c, lo, end, runs)
    requires if broke then Ascending(less, c, lo, end) else lo == end
    ensures var output := if broke then runs + 1 else runs;
      if output <= 1 then Ascending(less, c, 1, end)
      else Descents(less, c, 1, end) < Descents(less, start, 1, end)
  {
  }

  lemma RearrangedTrans(less: (ListElem, ListElem) -> bool, c: seq<ListElem>, r: seq<ListElem>, t: seq<ListElem>,
                        lo: nat, hi: nat, lo': nat, hi': nat)
    requires Distinct(c) && lo <= lo' && hi' <= hi
    requires Rearranged(less, c, r, lo, hi) && Rearranged(less, r, t, lo', hi')
    ensures Rearranged(less, c, t, lo, hi)
  {
    StableTrans(less, c, r, t);
  }

  lemma InteriorStableSort(less: (ListElem, ListElem) -> bool, c: seq<ListElem>, r: seq<ListElem>)
    requires |c| >= 2 && Rearranged(less, c, r, 1, |c| - 1) && Ascending(less, r, 1, |c| - 1)
    ensures StableSort(less, Interior(c), Interior(r))
  {
    var s, t := Interior(c), Interior(r);
    InteriorPerm(c, r);
    forall x, y | x in s && y in s && Before(t, x, y) && Before(s, y, x) ensures less(x, y) {
      InteriorBefore(r, x, y);
      InteriorBefore(c, y, x);
    }
  }

  lemma InteriorBefore<T>(c: seq<T>, x: T, y: T)
    requires |c| >= 2
    ensures Before(Interior(c), x, y) ==> x in c && y in c && Before(c, x, y)
  {
    var s := Interior(c);
    if Before(s, x, y) {
      var i, j :| 0 <= i < j < |s| && s[i] == x && s[j] == y;
      assert c[i + 1] == x && c[j + 1] == y;
    }
  }

  lemma InteriorPerm<T>(c: seq<T>, r: seq<T>)
    requires |r| == |c| >= 2 && multiset(r) == multiset(c) && r[0] == c[0] && r[|c| - 1] == c[|c| - 1]
    ensures multiset(Interior(r)) == multiset(Interior(c))
  {
    assert c == [c[0]] + Interior(c) + [c[|c| - 1]];
    assert r == [c[0]] + Interior(r) + [c[|c| - 1]];
    assert multiset(Interior(c)) == multiset(c) - multiset{c[0], c[|c| - 1]};
    assert multiset(Interior(r)) == multiset(r) - multiset{c[0], c[|c| - 1]};
  }

  lemma RearrangedRefl(less: (ListElem, ListElem) -> bool, c: seq<ListElem>, lo: nat, hi: nat)
    requires Distinct(c)
    ensures Rearranged(less, c, c, lo, hi)
  {
    StableRefl(less, c);
  }

  lemma RearrangedEnds(less: (ListElem, ListElem) -> bool, c: seq<ListElem>, r: seq<ListElem>, end: nat)
    requires |c| == end + 1 && end >= 1 && Rearranged(less, c, r, 1, end)
    ensures |r| == end + 1 && r[0] == c[0] && r[end] == c[end]
    ensures forall x :: x in r ==> x in c
  {
    PermMembers(c, r);
  }

  lemma PermMembersOf(less: (ListElem, ListElem) -> bool, c: seq<ListElem>, r: seq<ListElem>, lo: nat, hi: nat)
    requires Rearranged(less, c, r, lo, hi)
    ensures forall x :: x in r ==> x in c
  {
    PermMembers(c, r);
  }

  lemma PassStart(less: (ListElem, ListElem) -> bool, c: seq<ListElem>, end: nat)
    requires |c| == end + 1 && end >= 1
    ensures Pass(less, c, c, 1, end, 0)
  {
  }

  ghost function ReversedInterior(c: seq<ListElem>, n: nat): (r: seq<ListElem>)
    requires |c| == n + 2
    ensures |r| == n && forall i :: 0 <= i < n ==> r[i] == c[n - i]
  {
    seq(n, i requires 0 <= i < n => c[n - i])
  }

  /** Interior links turned around and the four outer links swapped: the reversed chain. */
  lemma ReversedChain(c: seq<ListElem>, n: nat)
    requires |c| == n + 2 && n >= 1 && Distinct(c)
    requires c[0].prev == null && c[n + 1].next == null
    requires c[0].next == c[n] && c[n + 1].prev == c[1]
    requires forall i {:trigger c[i].next} :: 1 <= i <= n ==> c[i].next == if i == 1 then c[n + 1] else c[i - 1]
    requires forall i {:trigger c[i].prev} :: 1 <= i <= n ==> c[i].prev == if i == n then c[0] else c[i + 1]
    ensures Chain([c[0]] + ReversedInterior(c, n) + [c[n + 1]])
  {
    var r := [c[0]] + ReversedInterior(c, n) + [c[n + 1]];
    forall i, j | 0 <= i < j < |r| ensures r[i] != r[j] {
      assert r[i] == c[if i == 0 then 0 else if i == n + 1 then n + 1 else n + 1 - i];
      assert r[j] == c[if j == 0 then 0 else if j == n + 1 then n + 1 else n + 1 - j];
    }
  }

  lemma NodesInserted<T>(head: T, elems: seq<T>, tail: T, elem: T, k: nat)
    requires k <= |elems|
    ensures var c := [head] + elems + [tail];
      [head] + (elems[..k] + [elem] + elems[k..]) + [tail] == c[..k + 1] + [elem] + c[k + 1..]
  {
  }

  class List {
    const head: ListElem
    const tail: ListElem
    ghost var elems: seq<ListElem>

    ghost function Nodes(): (c: seq<ListElem>)
      reads this
      ensures |c| == |elems| + 2
    {
      [head] + elems + [tail]
    }

    ghost function Repr(): set<ListElem>
      reads this
    {
      set x | x in Nodes()
    }

    lemma Members()
      ensures forall x :: x in Repr() <==> x == head || x == tail || x in elems
    {
      assert forall i :: 0 <= i < |elems| ==> Nodes()[i + 1] == elems[i];
      assert Nodes()[0] == head && Nodes()[|elems| + 1] == tail;
    }

    ghost predicate Valid()
      reads this, Repr()
    {
      Chain(Nodes())
    }

    constructor ()
      ensures Valid() && fresh(Repr()) && elems == []
    {
      head := new ListElem();
      tail := new ListElem();
      elems := [];
      new;
      head.next := tail;
      tail.prev := head;
    }

    /** Natural merge sort: repeat passes that merge adjacent runs until one run is left. */
    method Sort(less: (ListElem, ListElem) -> bool)
      requires Valid() && StrictWeak(less, elems)
      modifies this`elems, Repr()
      ensures Valid()
      ensures StableSort(less, old(elems), elems)
    {
      hide Stable, StrictWeak, Ascending, Descents, Rearranged, Chain, StableSort, Distinct, Interior;
      ghost var c0 := Nodes();
      ghost var c, R, end := c0, Repr(), |c0| - 1;
      ChainLinks(c);
      RearrangedRefl(less, c, 1, end);
      InteriorOfNodes();
      while true
        invariant Chain(c) && |c| == end + 1 && c[0] == head && c[end] == tail
        invariant Rearranged(less, c0, c, 1, end) && StrictWeak(less, Interior(c))
        invariant forall x :: x in c ==> x in R
        decreases Descents(less, c, 1, end)
      {
        var outputRuns;
        ghost var r;
        outputRuns, r := MergePass(less, c0, c, R);
        c := r;
        if outputRuns <= 1 {
          break;
        }
      }
      InteriorStableSort(less, c0, c);
      ChainInterior(c);
      elems := Interior(c);
    }

    lemma InteriorOfNodes()
      ensures Interior(Nodes()) == elems
    {
    }

    /** One pass of the sort: merges each pair of adjacent runs of the chain `c0`, which began as `first`. */
    method MergePass(less: (ListElem, ListElem) -> bool, ghost first: seq<ListElem>, ghost c0: seq<ListElem>,
                     ghost R: set<ListElem>)
      returns (outputRuns: nat, ghost c: seq<ListElem>)
      requires Chain(c0) && c0[0] == head && c0[|c0| - 1] == tail && StrictWeak(less, Interior(c0))
      requires Distinct(first) && |first| == |c0| && Rearranged(less, first, c0, 1, |c0| - 1)
      requires forall x :: x in c0 ==> x in R
      modifies R
      ensures Chain(c) && |c| == |c0| && c[0] == head && c[|c| - 1] == tail
      ensures Rearranged(less, first, c, 1, |c| - 1) && StrictWeak(less, Interior(c))
      ensures forall x :: x in c ==> x in R
      ensures if outputRuns <= 1 then Ascending(less, c, 1, |c| - 1)
        else Descents(less, c, 1, |c| - 1) < Descents(less, c0, 1, |c0| - 1)
    {
      ChainLinks(c0);
      hide Stable, StrictWeak, Ascending, Descents, Pass, Rearranged, Linked, Interior;
      ghost var end := |c0| - 1;
      c := c0;
      outputRuns := 0;
      var a0 := head.next;
      ghost var lo := 1;
      PassStart(less, c, end);
      while a0 != tail
        invariant 1 <= lo <= end && |c| == end + 1 && c[lo] == a0
        invariant Chain(c) && c[0] == head && c[end] == tail
        invariant Rearranged(less, first, c, 1, end) && StrictWeak(less, Interior(c))
        invariant forall x :: x in c ==> x in R
        invariant Pass(less, c0, c, lo, end, outputRuns)
        decreases end - lo
      {
        outputRuns := outputRuns + 1;
        var a1b0, mid := FindEndOfRun(a0, tail, less, c, lo, end);
        if a1b0 == tail {
          PassEnd(less, c0, c, lo, end, outputRuns - 1, true);
          return;
        }
        var b1, hi := FindEndOfRun(a1b0, tail, less, c, mid, end);
        ghost var r := InplaceMerge(a0, a1b0, b1, less, c, lo, mid, hi);
        PassStep(less, c0, c, r, lo, mid, hi, end, outputRuns - 1);
        RearrangedTrans(less, first, c, r, 1, end, lo, hi);
        RearrangedEnds(less, first, r, end);
        PermMembersOf(less, c, r, lo, hi);
        c := r;
        a0, lo := b1, hi;
      }
      PassEnd(less, c0, c, lo, end, outputRuns, false);
    }

    lemma DistinctElems()
      requires Valid()
      ensures Distinct(elems)
    {
      assert elems == Interior(Nodes());
    }

    /** Every node's links lead to its neighbours. */
    lemma Linkage()
      requires Valid()
      ensures forall i {:trigger Nodes()[i]} :: 0 <= i <= |elems| ==>
        Nodes()[i].next == Nodes()[i + 1] && Nodes()[i + 1].prev == Nodes()[i]
    {
    }

    /** The first element, or the tail of an empty list. */
    method Begin() returns (e: ListElem)
      requires Valid()
      ensures e == Nodes()[1]
      ensures e == tail <==> elems == []
    {
      assert elems != [] ==> Nodes()[1] != Nodes()[|elems| + 1];
      e := head.next;
    }

    /** Inserts ELEM at the front. */
    method PushFront(elem: ListElem)
      requires Valid() && elem !in Repr()
      modifies this`elems, Repr(), elem
      ensures Valid() && elems == [elem] + old(elems)
    {
      hide Linked;
      ghost var c := Nodes();
      var begin := Begin();
      Insert(begin, elem, c, 1);
      elems := [elem] + elems;
      assert Nodes() == c[..1] + [elem] + c[1..];
    }

    /** Inserts ELEM at the back. */
    method PushBack(elem: ListElem)
      requires Valid() && elem !in Repr()
      modifies this`elems, Repr(), elem
      ensures Valid() && elems == old(elems) + [elem]
    {
      hide Linked;
      ghost var c := Nodes();
      Insert(tail, elem, c, |c| - 1);
      elems := elems + [elem];
      assert Nodes() == c[..|c| - 1] + [elem] + c[|c| - 1..];
    }

    /** Unlinks ELEM, the k'th of the list, and returns its successor. */
    method RemoveElem(elem: ListElem, ghost k: nat) returns (after: ListElem)
      requires Valid() && k < |elems| && elems[k] == elem
      modifies this`elems, Repr()
      ensures Valid() && elems == old(elems)[..k] + old(elems)[k + 1..]
      ensures after == Nodes()[k + 1] && Repr() == old(Repr()) - {elem}
    {
      hide Linked;
      ghost var c := Nodes();
      after := Remove(elem, c, k + 1);
      elems := elems[..k] + elems[k + 1..];
      assert Nodes() == c[..k + 1] + c[k + 2..];
      RemovedMembers(c, k + 1);
    }

    method PopFront() returns (front: ListElem)
      requires Valid() && elems != []
      modifies this`elems, Repr()
      ensures Valid() && front == old(elems)[0] && elems == old(elems)[1..]
      ensures Repr() == old(Repr()) - {front}
    {
      front := Begin();
      var _ := RemoveElem(front, 0);
    }

    /** The first element that ELEM is less than, or the tail. */
    method FindPlace(elem: ListElem, less: (ListElem, ListElem) -> bool) returns (e: ListElem, ghost k: nat)
      requires Valid()
      ensures k <= |elems| && Nodes()[k + 1] == e
      ensures forall j :: 0 <= j < k ==> !less(elem, elems[j])
      ensures k < |elems| ==> less(elem, elems[k])
    {
      hide Linked;
      ghost var c := Nodes();
      e := Begin();
      k := 0;
      while e != tail
        invariant k <= |elems| && c[k + 1] == e
        invariant forall j :: 0 <= j < k ==> !less(elem, elems[j])
        decreases |elems| - k
      {
        if less(elem, e) {
          break;
        }
        NextLink(c, k + 1);
        e, k := e.next, k + 1;
      }
    }

    /** Inserts ELEM before the first element it is less than. */
    method InsertOrdered(elem: ListElem, less: (ListElem, ListElem) -> bool)
      requires Valid() && elem !in Repr()
      modifies this`elems, Repr(), elem
      ensures Valid() && elems == Inserted(less, old(elems), elem)
    {
      hide Chain, Inserted;
      ghost var c := Nodes();
      var e, k := FindPlace(elem, less);
      InsertedAt(less, elems, elem, k);
      NodesIn();
      NodesInserted(head, elems, tail, elem, k);
      Insert(e, elem, c, k + 1);
      elems := elems[..k] + [elem] + elems[k..];
    }

    lemma NodesIn()
      ensures forall i :: 0 <= i < |Nodes()| ==> Nodes()[i] in Repr()
    {
    }

    /** Swaps the links of every element from front to back, then those of the headers. */
    method Reverse()
      requires Valid()
      modifies this`elems, Repr()
      ensures Valid()
      ensures |elems| == |old(elems)|
      ensures forall i :: 0 <= i < |elems| ==> elems[i] == old(elems)[|elems| - 1 - i]
    {
      ghost var c, n := Nodes(), |elems|;
      ChainLinks(c);
      if head.next != tail {
        SwapLinks();
        head.next, tail.prev := tail.prev, head.next;
        assert head.next == c[n] && tail.prev == c[1] && c[n].prev == tail && c[1].next == head;
        head.next.prev, tail.prev.next := tail.prev.next, head.next.prev;
        ReversedChain(c, n);
        elems := ReversedInterior(c, n);
      }
    }

    /** The loop of list_reverse: swaps the two links of every element, but not the headers'. */
    method SwapLinks()
      requires Valid() && elems != []
      modifies Repr()
      ensures var c, n := Nodes(), |elems|;
        && (forall i {:trigger c[i].next} :: 1 <= i <= n ==> c[i].next == c[i - 1])
        && (forall i {:trigger c[i].prev} :: 1 <= i <= n ==> c[i].prev == c[i + 1])
        && head.prev == null && head.next == c[1] && tail.prev == c[n] && tail.next == null
    {
      ghost var c, n := Nodes(), |elems|;
      var e := head.next;
      ghost var k := 1;
      while e != tail
        invariant 1 <= k <= n + 1 && c[k] == e
        invariant forall i {:trigger c[i].next} :: 1 <= i <= n ==> c[i].next == if i < k then c[i - 1] else c[i + 1]
        invariant forall i {:trigger c[i].prev} :: 1 <= i <= n ==> c[i].prev == if i < k then c[i + 1] else c[i - 1]
        invariant head.prev == null && head.next == c[1] && tail.prev == c[n] && tail.next == null
        decreases n + 1 - k
      {
        e.prev, e.next := e.next, e.prev;
        e := e.prev;
        k := k + 1;
      }
    }
  }

  /** Two lists that share no node. */
  ghost predicate Apart(a: List, b: List)
    reads a, b
  {
    a != b && a.Repr() !! b.Repr()
  }

  lemma NotAtTail(l: List, k: nat)
    requires l.Valid() && k <= |l.elems|
    ensures l.Nodes()[k + 1] == l.tail <==> k == |l.elems|
    ensures k < |l.elems| ==> l.Nodes()[k + 1] == l.elems[k]
  {
    assert l.Nodes()[|l.elems| + 1] == l.tail;
  }

  lemma RemovedMembers<T>(c: seq<T>, k: nat)
    requires k < |c| && Distinct(c)
    ensures var r := c[..k] + c[k + 1..]; forall x :: x in r <==> x in c && x != c[k]
  {
  }
}
