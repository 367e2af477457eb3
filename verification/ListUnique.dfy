/** list_unique (lib/kernel/list.c): drops all but the first of each run of equal neighbours. */
module ListUnique {
  import opened Order
  import opened KernelList

  predicate Same<T>(less: (T, T) -> bool, x: T, y: T) {
    !less(x, y) && !less(y, x)
  }

  /** The elements kept: each differs from the one kept before it. */
  ghost function Kept<T>(less: (T, T) -> bool, s: seq<T>): (r: seq<T>)
    ensures s != [] ==> r != []
  {
    if |s| <= 1 then s
    else
      var k := Kept(less, s[..|s| - 1]);
      if Same(less, k[|k| - 1], s[|s| - 1]) then k else k + [s[|s| - 1]]
  }

  /** The elements dropped, in order. */
  ghost function Dups<T>(less: (T, T) -> bool, s: seq<T>): seq<T> {
    if |s| <= 1 then []
    else
      var k := Kept(less, s[..|s| - 1]);
      Dups(less, s[..|s| - 1]) + if Same(less, k[|k| - 1], s[|s| - 1]) then [s[|s| - 1]] else []
  }

  lemma KeptNext<T>(less: (T, T) -> bool, s: seq<T>, i: nat)
    requires 1 <= i < |s|
    ensures var k := Kept(less, s[..i]); var same := Same(less, k[|k| - 1], s[i]);
      && Kept(less, s[..i + 1]) == (if same then k else k + [s[i]])
      && Dups(less, s[..i + 1]) == Dups(less, s[..i]) + if same then [s[i]] else []
  {
    assert s[..i + 1][..i] == s[..i];
  }

  /** Nothing is lost or doubled, and no two neighbours that stay are equal. */
  lemma {:induction false} KeptAndDups<T>(less: (T, T) -> bool, s: seq<T>, n: nat)
    requires n <= |s|
    ensures var k, d := Kept(less, s[..n]), Dups(less, s[..n]);
      multiset(k) + multiset(d) == multiset(s[..n]) && ApartNeighbours(less, k)
  {
    FirstKept(less, s);
    FirstApart(less, s);
    hide Kept, Dups, Same, ApartNeighbours;
    if n > 1 {
      KeptAndDups(less, s, n - 1);
      KeptNext(less, s, n - 1);
      var t, x := s[..n - 1], s[n - 1];
      var k, d := Kept(less, t), Dups(less, t);
      assert s[..n] == t + [x] && d + [] == d;
      OneMore(k, d, t, x);
      GrownApart(less, k, x);
    }
  }

  lemma FirstApart<T>(less: (T, T) -> bool, s: seq<T>)
    ensures s[..0] == [] && ApartNeighbours(less, s[..0]) && (s != [] ==> ApartNeighbours(less, s[..1]))
  {
  }

  lemma GrownApart<T>(less: (T, T) -> bool, k: seq<T>, x: T)
    requires ApartNeighbours(less, k) && k != []
    ensures !Same(less, k[|k| - 1], x) ==> ApartNeighbours(less, k + [x])
  {
  }

  ghost predicate ApartNeighbours<T>(less: (T, T) -> bool, s: seq<T>) {
    forall i :: 0 <= i < |s| - 1 ==> !Same(less, s[i], s[i + 1])
  }

  lemma OneMore<T>(k: seq<T>, d: seq<T>, t: seq<T>, x: T)
    requires multiset(k) + multiset(d) == multiset(t)
    ensures multiset(k) + multiset(d + [x]) == multiset(t + [x]) == multiset(k + [x]) + multiset(d)
  {
  }

  /** `k` picks exactly one from each set of equal elements of `s`, in order. */
  ghost predicate Represents<T>(less: (T, T) -> bool, k: seq<T>, s: seq<T>) {
    && (forall i, j :: 0 <= i < j < |k| ==> less(k[i], k[j]))
    && (forall x :: x in k ==> x in s)
    && (forall x :: x in s ==> exists i :: 0 <= i < |k| && Same(less, k[i], x))
    && (s != [] ==> k != [] && Same(less, k[|k| - 1], s[|s| - 1]))
  }

  /** In a sorted list exactly one element of each set of equal ones stays. */
  lemma {:induction false} KeptOfSorted<T>(less: (T, T) -> bool, s: seq<T>)
    requires StrictWeak(less, s) && Ascending(less, s, 0, |s|)
    ensures Represents(less, Kept(less, s), s)
  {
    if |s| > 1 {
      var t, x := s[..|s| - 1], s[|s| - 1];
      assert s == t + [x];
      SortedPrefix(less, t, x);
      KeptOfSorted(less, t);
      hide Represents, StrictWeak, Ascending;
      KeptGrows(less, t, x, Kept(less, t));
    } else if |s| == 1 {
      assert s[0] in s && Same(less, Kept(less, s)[0], s[0]);
    }
  }

  lemma SortedPrefix<T>(less: (T, T) -> bool, t: seq<T>, x: T)
    requires StrictWeak(less, t + [x]) && Ascending(less, t + [x], 0, |t| + 1)
    ensures StrictWeak(less, t) && Ascending(less, t, 0, |t|)
  {
    var s := t + [x];
    assert forall y :: y in t ==> y in s;
    assert forall i :: 0 <= i < |t| ==> s[i] == t[i];
  }

  lemma KeptGrows<T>(less: (T, T) -> bool, t: seq<T>, x: T, k: seq<T>)
    requires StrictWeak(less, t + [x]) && Ascending(less, t + [x], 0, |t| + 1) && t != [] && k != []
    requires Represents(less, k, t)
    ensures Represents(less, if Same(less, k[|k| - 1], x) then k else k + [x], t + [x])
  {
    NewIsGreatest(less, t, x, k);
    if Same(less, k[|k| - 1], x) {
      OldStands(less, t, x, k);
    } else {
      NewStands(less, t, x, k);
    }
  }

  lemma OldStands<T>(less: (T, T) -> bool, t: seq<T>, x: T, k: seq<T>)
    requires Represents(less, k, t) && k != [] && Same(less, k[|k| - 1], x)
    ensures Represents(less, k, t + [x])
  {
    hide Same;
    assert forall y :: y in t + [x] ==> y in t || y == x;
    assert (t + [x])[|t|] == x;
  }

  lemma NewStands<T>(less: (T, T) -> bool, t: seq<T>, x: T, k: seq<T>)
    requires Represents(less, k, t) && Same(less, x, x) && forall i :: 0 <= i < |k| ==> less(k[i], x)
    ensures Represents(less, k + [x], t + [x])
  {
    hide Same;
    var r := k + [x];
    assert r[|k|] == x && (t + [x])[|t|] == x;
    forall y | y in t + [x] ensures exists i :: 0 <= i < |r| && Same(less, r[i], y) {
      if y in t {
        var i :| 0 <= i < |k| && Same(less, k[i], y);
        assert r[i] == k[i];
      } else {
        assert Same(less, r[|k|], y);
      }
    }
  }

  lemma NewIsGreatest<T>(less: (T, T) -> bool, t: seq<T>, x: T, k: seq<T>)
    requires StrictWeak(less, t + [x]) && Ascending(less, t + [x], 0, |t| + 1) && t != [] && k != []
    requires Represents(less, k, t)
    ensures Same(less, x, x)
    ensures !Same(less, k[|k| - 1], x) ==> forall i :: 0 <= i < |k| ==> less(k[i], x)
  {
    var s, last := t + [x], k[|k| - 1];
    assert x in s && last in s && s[|t| - 1] == t[|t| - 1] && s[|t|] == x && s[|t| - 1] in s;
    assert !less(x, t[|t| - 1]);
    assert !less(x, last);
    if !Same(less, last, x) {
      assert less(last, x);
      forall i | 0 <= i < |k| ensures less(k[i], x) {
        assert k[i] in s;
        assert i < |k| - 1 ==> less(k[i], last);
      }
    }
  }

  // ----- The list of duplicates, which may be absent

  ghost predicate Ready(list: List, duplicates: List?)
    reads list, list.Repr(), if duplicates == null then {} else {duplicates}
    reads if duplicates == null then {} else duplicates.Repr()
  {
    list.Valid() && (duplicates != null ==> duplicates.Valid() && Apart(list, duplicates))
  }

  ghost function Nodes(list: List, duplicates: List?): set<ListElem>
    reads list, if duplicates == null then {} else {duplicates}
  {
    list.Repr() + if duplicates == null then {} else duplicates.Repr()
  }

  ghost function ElemsOf(duplicates: List?): seq<ListElem>
    reads if duplicates == null then {} else {duplicates}
  {
    if duplicates == null then [] else duplicates.elems
  }

  /** The duplicates after `more` have been appended, if there is a list of them. */
  ghost function Appended(duplicates: List?, d: seq<ListElem>, more: seq<ListElem>): seq<ListElem> {
    if duplicates == null then [] else d + more
  }

  lemma AppendedMore(duplicates: List?, d: seq<ListElem>, a: seq<ListElem>, b: seq<ListElem>)
    ensures Appended(duplicates, Appended(duplicates, d, a), b) == Appended(duplicates, d, a + b)
    ensures Appended(duplicates, ElemsOf(duplicates), []) == ElemsOf(duplicates)
  {
    assert d + a + b == d + (a + b);
    assert ElemsOf(duplicates) + [] == ElemsOf(duplicates);
  }

  /** Unlinks the k'th element and, if there is a list of duplicates, appends it there. */
  method DropNext(list: List, next: ListElem, duplicates: List?, ghost k: nat)
    requires Ready(list, duplicates) && k < |list.elems| && list.elems[k] == next
    modifies list`elems, (if duplicates == null then {} else {duplicates})`elems, Nodes(list, duplicates)
    ensures Ready(list, duplicates) && Nodes(list, duplicates) <= old(Nodes(list, duplicates))
    ensures list.elems == old(list.elems[..k] + list.elems[k + 1..])
    ensures ElemsOf(duplicates) == Appended(duplicates, old(ElemsOf(duplicates)), [next])
  {
    hide Chain;
    list.Members();
    var _ := list.RemoveElem(next, k);
    if duplicates != null {
      duplicates.Members();
      duplicates.PushBack(next);
      duplicates.Members();
    }
  }

  /** One turn of the loop: the next element is dropped if it equals the last one kept. */
  method Consider(list: List, elem: ListElem, next: ListElem, duplicates: List?, less: (ListElem, ListElem) -> bool,
                  ghost k: nat) returns (last: ListElem)
    requires Ready(list, duplicates) && k < |list.elems| && list.elems[k] == next
    modifies list`elems, (if duplicates == null then {} else {duplicates})`elems, Nodes(list, duplicates)
    ensures Ready(list, duplicates) && Nodes(list, duplicates) <= old(Nodes(list, duplicates))
    ensures last == if Same(less, elem, next) then elem else next
    ensures list.elems == if Same(less, elem, next) then old(list.elems[..k] + list.elems[k + 1..]) else old(list.elems)
    ensures ElemsOf(duplicates) ==
      Appended(duplicates, old(ElemsOf(duplicates)), if Same(less, elem, next) then [next] else [])
  {
    hide Ready, Nodes;
    if !less(elem, next) && !less(next, elem) {
      DropNext(list, next, duplicates, k);
      last := elem;
    } else {
      last := next;
      assert ElemsOf(duplicates) + [] == ElemsOf(duplicates);
    }
  }

  /** Midway: what stays of was[..i], `elem` last, and then the elements yet to come. */
  ghost predicate Midway(less: (ListElem, ListElem) -> bool, was: seq<ListElem>, i: nat, elem: ListElem,
                         q: seq<ListElem>)
  {
    && 1 <= i <= |was| && q == Kept(less, was[..i]) + was[i..]
    && elem == Kept(less, was[..i])[|Kept(less, was[..i])| - 1]
  }

  lemma MidwayNext(less: (ListElem, ListElem) -> bool, was: seq<ListElem>, i: nat, elem: ListElem, q: seq<ListElem>)
    requires Midway(less, was, i, elem, q) && i < |was|
    ensures var k := |Kept(less, was[..i])|; var same := Same(less, elem, was[i]);
      && k < |q| && q[k] == was[i]
      && Midway(less, was, i + 1, if same then elem else was[i], if same then q[..k] + q[k + 1..] else q)
      && Dups(less, was[..i + 1]) == Dups(less, was[..i]) + if same then [was[i]] else []
  {
    KeptNext(less, was, i);
    SplitNext(q, Kept(less, was[..i]), was, i);
  }

  lemma MidwayStarts(less: (ListElem, ListElem) -> bool, was: seq<ListElem>)
    requires was != []
    ensures Midway(less, was, 1, was[0], was) && Dups(less, was[..1]) == []
  {
    FirstKept(less, was);
    hide Kept, Dups;
    assert was == was[..1] + was[1..];
  }

  lemma MidwayEnds(less: (ListElem, ListElem) -> bool, was: seq<ListElem>, elem: ListElem, q: seq<ListElem>)
    requires Midway(less, was, |was|, elem, q)
    ensures q == Kept(less, was) && was[..|was|] == was
  {
    hide Kept;
    assert was[..|was|] == was && was[|was|..] == [] && Kept(less, was) + [] == Kept(less, was);
  }

  method Unique(list: List, duplicates: List?, less: (ListElem, ListElem) -> bool)
    requires Ready(list, duplicates)
    modifies list`elems, (if duplicates == null then {} else {duplicates})`elems, Nodes(list, duplicates)
    ensures Ready(list, duplicates)
    ensures list.elems == Kept(less, old(list.elems))
    ensures duplicates != null ==> duplicates.elems == old(duplicates.elems + Dups(less, list.elems))
  {
    hide Chain, Kept, Dups, Ready, Midway;
    ghost var was := list.elems;
    FirstKept(less, was);
    assert list.Valid() by {
      ReadyIsValid(list, duplicates);
    }
    var elem := list.Begin();
    if elem == list.tail {
      AddedDup(ElemsOf(duplicates), [], elem);
      return;
    }
    MidwayStarts(less, was);
    assert elem == was[0] by {
      NotAtTail(list, 0);
    }
    Scan(list, elem, duplicates, less);
  }

  lemma ReadyIsValid(list: List, duplicates: List?)
    requires Ready(list, duplicates)
    ensures list.Valid()
  {
  }

  /** One turn of the loop: `next` stays as the new last kept node, or goes to the duplicates. */
  method Turn(list: List, elem0: ListElem, next0: ListElem, duplicates: List?, less: (ListElem, ListElem) -> bool,
              ghost was: seq<ListElem>, ghost d: seq<ListElem>, ghost i: nat)
    returns (elem: ListElem, next: ListElem)
    requires Ready(list, duplicates) && Midway(less, was, i, elem0, list.elems)
    requires 1 <= i < |was| && next0 == was[i]
    requires ElemsOf(duplicates) == Appended(duplicates, d, Dups(less, was[..i]))
    modifies list`elems, (if duplicates == null then {} else {duplicates})`elems, Nodes(list, duplicates)
    ensures Ready(list, duplicates) && Nodes(list, duplicates) <= old(Nodes(list, duplicates))
    ensures Midway(less, was, i + 1, elem, list.elems)
    ensures (next == list.tail <==> i + 1 == |was|) && (i + 1 < |was| ==> next == was[i + 1])
    ensures ElemsOf(duplicates) == Appended(duplicates, d, Dups(less, was[..i + 1]))
  {
    hide Chain, Kept, Dups, Same, Midway, Nodes, Ready, Appended, ElemsOf;
    MidwayNext(less, was, i, elem0, list.elems);
    AppendedMore(duplicates, d, Dups(less, was[..i]), if Same(less, elem0, next0) then [next0] else []);
    elem := Consider(list, elem0, next0, duplicates, less, |Kept(less, was[..i])|);
    next := Following(list, elem, duplicates, less, was, i + 1);
  }

  /** The loop of list_unique over a list that is not empty. */
  method Scan(list: List, first: ListElem, duplicates: List?, less: (ListElem, ListElem) -> bool)
    requires Ready(list, duplicates) && list.elems != [] && first == list.elems[0]
    modifies list`elems, (if duplicates == null then {} else {duplicates})`elems, Nodes(list, duplicates)
    ensures Ready(list, duplicates) && list.elems == Kept(less, old(list.elems))
    ensures ElemsOf(duplicates) == Appended(duplicates, old(ElemsOf(duplicates)), Dups(less, old(list.elems)))
  {
    hide Chain, Kept, Dups, Same, Midway, Nodes, Ready, Appended, ElemsOf;
    ghost var was, R, d := list.elems, Nodes(list, duplicates), ElemsOf(duplicates);
    ghost var i := 1;
    var elem := first;
    MidwayStarts(less, was);
    AppendedMore(duplicates, d, [], []);
    var next := Following(list, elem, duplicates, less, was, i);
    while next != list.tail
      invariant Ready(list, duplicates) && Nodes(list, duplicates) <= R
      invariant Midway(less, was, i, elem, list.elems) && 1 <= i <= |was|
      invariant (next == list.tail <==> i == |was|) && (i < |was| ==> next == was[i])
      invariant ElemsOf(duplicates) == Appended(duplicates, d, Dups(less, was[..i]))
      decreases |was| - i
    {
      elem, next := Turn(list, elem, next, duplicates, less, was, d, i);
      i := i + 1;
    }
    MidwayEnds(less, was, elem, list.elems);
  }

  method Following(list: List, elem: ListElem, ghost duplicates: List?, ghost less: (ListElem, ListElem) -> bool,
                   ghost was: seq<ListElem>, ghost i: nat) returns (next: ListElem)
    requires Ready(list, duplicates) && Midway(less, was, i, elem, list.elems)
    ensures (next == list.tail <==> i == |was|) && (i < |was| ==> next == was[i])
    ensures Ready(list, duplicates)
  {
    NextOf(list, elem, Kept(less, was[..i]), was, i);
    next := elem.next;
  }

  lemma FirstKept<T>(less: (T, T) -> bool, s: seq<T>)
    ensures Kept(less, []) == [] == Dups(less, [])
    ensures s != [] ==> Kept(less, s[..1]) == s[..1] && Dups(less, s[..1]) == []
  {
  }

  lemma NextOf(l: List, elem: ListElem, kept: seq<ListElem>, was: seq<ListElem>, i: nat)
    requires l.Valid() && i <= |was| && l.elems == kept + was[i..] && kept != [] && elem == kept[|kept| - 1]
    ensures elem.next != null && (elem.next == l.tail <==> i == |was|) && (i < |was| ==> elem.next == was[i])
  {
    hide Chain;
    l.Linkage();
    NotAtTail(l, |kept| - 1);
    NotAtTail(l, |kept|);
    assert l.Nodes()[|kept|] == elem;
  }

  lemma AddedDup<T>(d: seq<T>, dups: seq<T>, x: T)
    ensures d + dups + [x] == d + (dups + [x]) && d + (dups + []) == d + dups && d + [] == d
  {
  }
}
