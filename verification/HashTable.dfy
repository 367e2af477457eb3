/**
 The kernel's chained hash table (lib/kernel/hash.c), refining a set of elements no two
 of which are equal under the caller's order.
 */
module HashTable {
  import opened Options
  import opened Integers
  import opened Order

  /** Neither element is less than the other. */
  predicate Equal<T>(less: (T, T) -> bool, x: T, y: T) {
    !less(x, y) && !less(y, x)
  }

  /** What the caller of hash_init promises: a strict weak order whose equal elements hash alike. */
  ghost predicate Consistent<T(!new)>(hash: T -> nat, less: (T, T) -> bool) {
    && (forall x, y {:trigger less(x, y)} :: less(x, y) ==> !less(y, x))
    && (forall x, y, z {:trigger less(x, y), less(y, z)} :: !less(x, y) && !less(y, z) ==> !less(x, z))
    && (forall x, y :: Equal(less, x, y) ==> hash(x) == hash(y))
  }

  lemma EqualTrans<T(!new)>(hash: T -> nat, less: (T, T) -> bool, x: T, y: T, z: T)
    requires Consistent(hash, less)
    ensures Equal(less, x, x) && (Equal(less, x, y) ==> Equal(less, y, x))
    ensures Equal(less, x, y) && Equal(less, y, z) ==> Equal(less, x, z)
  {
  }

  /** hash & (bucket_cnt - 1). */
  function BucketIdx<T>(hash: T -> nat, e: T, cnt: nat): nat
    requires cnt > 0
  {
    And(hash(e), cnt - 1)
  }

  lemma BucketInRange<T>(hash: T -> nat, e: T, cnt: nat)
    requires IsPow2(cnt)
    ensures BucketIdx(hash, e, cnt) == hash(e) % cnt < cnt
  {
    var k := IsPow2Exponent(cnt);
    AndMask(hash(e), k);
  }

  // ----- Buckets

  /** `buckets` hold exactly the elements of `s`, each once and in its own bucket. */
  ghost predicate Holds<T(!new)>(hash: T -> nat, buckets: seq<seq<T>>, s: set<T>) {
    && IsPow2(|buckets|) && |buckets| >= 4
    && (forall i :: 0 <= i < |buckets| ==> Distinct(buckets[i]))
    && (forall i, x :: 0 <= i < |buckets| && x in buckets[i] ==> x in s && BucketIdx(hash, x, |buckets|) == i)
    && (forall x :: x in s ==> BucketIdx(hash, x, |buckets|) < |buckets| && x in buckets[BucketIdx(hash, x, |buckets|)])
  }

  ghost predicate NoTwoEqual<T>(less: (T, T) -> bool, s: set<T>) {
    forall x, y :: x in s && y in s && Equal(less, x, y) ==> x == y
  }

  lemma NoneEqualAdded<T(!new)>(hash: T -> nat, less: (T, T) -> bool, s: set<T>, e: T)
    requires Consistent(hash, less) && NoTwoEqual(less, s) && forall x :: x in s ==> !Equal(less, x, e)
    ensures NoTwoEqual(less, s + {e})
  {
    forall x | x in s ensures !Equal(less, e, x) {
      EqualTrans(hash, less, e, x, e);
    }
  }

  ghost function Pushed<T>(buckets: seq<seq<T>>, i: nat, e: T): seq<seq<T>>
    requires i < |buckets|
  {
    buckets[i := [e] + buckets[i]]
  }

  lemma PushHolds<T(!new)>(hash: T -> nat, buckets: seq<seq<T>>, s: set<T>, e: T)
    requires Holds(hash, buckets, s) && e !in s
    ensures var i := BucketIdx(hash, e, |buckets|);
      i < |buckets| && Holds(hash, Pushed(buckets, i, e), s + {e})
  {
    BucketInRange(hash, e, |buckets|);
  }

  ghost function WithoutElem<T>(buckets: seq<seq<T>>, i: nat, k: nat): seq<seq<T>>
    requires i < |buckets| && k < |buckets[i]|
  {
    buckets[i := buckets[i][..k] + buckets[i][k + 1..]]
  }

  lemma DropHolds<T(!new)>(hash: T -> nat, buckets: seq<seq<T>>, s: set<T>, i: nat, k: nat)
    requires Holds(hash, buckets, s) && i < |buckets| && k < |buckets[i]|
    ensures buckets[i][k] in s && Holds(hash, WithoutElem(buckets, i, k), s - {buckets[i][k]})
  {
    var b := buckets[i];
    var r := b[..k] + b[k + 1..];
    assert forall x :: x in b <==> x in r || x == b[k];
    assert b[k] !in r;
  }

  // ----- The rehash loop

  /** Midway through rehash: `moved` are the elements already in the new buckets, those ahead of
      position j of old bucket i. */
  ghost predicate Moving<T(!new)>(hash: T -> nat, old_: seq<seq<T>>, s: set<T>, i: nat, j: nat, moved: set<T>)
    requires |old_| > 0 && i <= |old_| && (i < |old_| ==> j <= |old_[i]|)
  {
    && (forall x :: x in moved ==> x in s)
    && (forall x {:trigger x in moved} :: x in s ==>
          (x in moved <==> BucketIdx(hash, x, |old_|) < i || (i < |old_| && x in old_[i][..j])))
  }

  lemma MoveNext<T(!new)>(hash: T -> nat, old_: seq<seq<T>>, s: set<T>, i: nat, j: nat, moved: set<T>)
    requires Holds(hash, old_, s) && i < |old_| && j < |old_[i]| && Moving(hash, old_, s, i, j, moved)
    ensures old_[i][j] in s && old_[i][j] !in moved
    ensures Moving(hash, old_, s, i, j + 1, moved + {old_[i][j]})
  {
    var b := old_[i];
    assert b[j] !in b[..j];
    assert forall x :: x in b[..j + 1] <==> x in b[..j] || x == b[j];
  }

  lemma MoveBucketDone<T(!new)>(hash: T -> nat, old_: seq<seq<T>>, s: set<T>, i: nat, moved: set<T>)
    requires Holds(hash, old_, s) && i < |old_| && Moving(hash, old_, s, i, |old_[i]|, moved)
    ensures Moving(hash, old_, s, i + 1, 0, moved)
  {
    assert old_[i][..|old_[i]|] == old_[i];
  }

  lemma MoveStart<T(!new)>(hash: T -> nat, old_: seq<seq<T>>, s: set<T>)
    requires Holds(hash, old_, s)
    ensures Moving(hash, old_, s, 0, 0, {})
  {
  }

  lemma MovedAll<T(!new)>(hash: T -> nat, old_: seq<seq<T>>, s: set<T>, moved: set<T>)
    requires Holds(hash, old_, s) && Moving(hash, old_, s, |old_|, 0, moved)
    ensures moved == s
  {
    forall x | x in s ensures x in moved {
      assert x in old_[BucketIdx(hash, x, |old_|)];
    }
  }

  lemma EmptyHolds<T(!new)>(hash: T -> nat, buckets: seq<seq<T>>)
    requires IsPow2(|buckets|) && |buckets| >= 4 && forall i :: 0 <= i < |buckets| ==> buckets[i] == []
    ensures Holds(hash, buckets, {})
  {
  }

  /** The bucket count rehash aims below: one bucket for two elements, at least four. */
  ghost function Goal(elemCnt: nat): nat {
    if elemCnt / 2 < 4 then 4 else elemCnt / 2
  }

  ghost predicate Best(cnt: nat, elemCnt: nat) {
    cnt <= Goal(elemCnt) < 2 * cnt
  }

  lemma FourBelow(k: nat, goal: nat)
    requires 4 <= goal < Pow2(k + 1)
    ensures Pow2(k) >= 4
  {
    if k > 2 {
      Pow2Add(2, k - 2);
    }
    assert Pow2(0) == 1 && Pow2(1) == 2 && Pow2(2) == 4;
  }

  class Hash<T(==, !new)> {
    var elemCnt: nat
    var buckets: seq<seq<T>>
    const hash: T -> nat
    const less: (T, T) -> bool
    ghost var contents: set<T>

    ghost predicate Valid()
      reads this
    {
      && Consistent(hash, less)
      && Holds(hash, buckets, contents)
      && NoTwoEqual(less, contents)
      && elemCnt == |contents|
    }

    constructor (hash: T -> nat, less: (T, T) -> bool)
      requires Consistent(hash, less)
      ensures Valid() && contents == {} && this.hash == hash && this.less == less
    {
      this.hash, this.less := hash, less;
      elemCnt := 0;
      buckets := seq(4, _ => []);
      contents := {};
      new;
      assert IsPow2(4) by {
        AndPredecessor(4);
        AndPredecessor(2);
        AndPredecessor(1);
      }
    }

    /** find_elem: the position in bucket i of an element equal to E. */
    method FindElem(i: nat, e: T) returns (k: Option<nat>)
      requires Valid() && i < |buckets| && i == BucketIdx(hash, e, |buckets|)
      ensures k.Some? ==> k.value < |buckets[i]| && Equal(less, buckets[i][k.value], e)
      ensures k.None? ==> forall x :: x in contents ==> !Equal(less, x, e)
    {
      var n := 0;
      while n < |buckets[i]|
        invariant n <= |buckets[i]|
        invariant forall m :: 0 <= m < n ==> !Equal(less, buckets[i][m], e)
      {
        var hi := buckets[i][n];
        if !less(hi, e) && !less(e, hi) {
          return Some(n);
        }
        n := n + 1;
      }
      return None;
    }

    /** find_bucket. */
    method FindBucket(e: T) returns (i: nat)
      requires Valid()
      ensures i == BucketIdx(hash, e, |buckets|) < |buckets|
    {
      BucketInRange(hash, e, |buckets|);
      i := BucketIdx(hash, e, |buckets|);
    }

    /** Inserts E unless an equal element is there, which is returned. */
    method Insert(e: T, memory: bool) returns (was: Option<T>)
      requires Valid()
      modifies this
      ensures Valid()
      ensures was.None? ==> contents == old(contents) + {e} && forall x :: x in old(contents) ==> !Equal(less, x, e)
      ensures was.Some? ==> contents == old(contents) && was.value in contents && Equal(less, was.value, e)
    {
      var i := FindBucket(e);
      var k := FindElem(i, e);
      if k.None? {
        InsertElem(i, e);
        was := None;
      } else {
        was := Some(buckets[i][k.value]);
      }
      Rehash(memory);
    }

    method InsertElem(i: nat, e: T)
      requires Valid() && i == BucketIdx(hash, e, |buckets|)
      requires forall x :: x in contents ==> !Equal(less, x, e)
      modifies this
      ensures Valid() && contents == old(contents) + {e} && |buckets| == old(|buckets|)
    {
      EqualTrans(hash, less, e, e, e);
      PushHolds(hash, buckets, contents, e);
      NoneEqualAdded(hash, less, contents, e);
      hide Holds, Consistent, NoTwoEqual;
      elemCnt := elemCnt + 1;
      buckets := buckets[i := [e] + buckets[i]];
      contents := contents + {e};
    }

    method RemoveElem(i: nat, k: nat) returns (e: T)
      requires Valid() && i < |buckets| && k < |buckets[i]|
      modifies this
      ensures Valid() && e == old(buckets[i][k]) && e in old(contents)
      ensures contents == old(contents) - {e} && |buckets| == old(|buckets|)
    {
      e := buckets[i][k];
      DropHolds(hash, buckets, contents, i, k);
      elemCnt := elemCnt - 1;
      buckets := buckets[i := buckets[i][..k] + buckets[i][k + 1..]];
      contents := contents - {e};
    }

    /** Inserts E in place of an equal element, which is returned. */
    method Replace(e: T, memory: bool) returns (was: Option<T>)
      requires Valid()
      modifies this
      ensures Valid()
      ensures was.None? ==> contents == old(contents) + {e} && forall x :: x in old(contents) ==> !Equal(less, x, e)
      ensures was.Some? ==> was.value in old(contents) && Equal(less, was.value, e)
      ensures was.Some? ==> contents == old(contents) - {was.value} + {e}
    {
      var i := FindBucket(e);
      var k := FindElem(i, e);
      if k.Some? {
        var old_ := RemoveElem(i, k.value);
        forall x | x in contents ensures !Equal(less, x, e) {
          EqualTrans(hash, less, old_, e, x);
          EqualTrans(hash, less, x, e, old_);
        }
        was := Some(old_);
      } else {
        was := None;
      }
      InsertElem(i, e);
      Rehash(memory);
    }

    method Find(e: T) returns (found: Option<T>)
      requires Valid()
      ensures found.Some? ==> found.value in contents && Equal(less, found.value, e)
      ensures found.None? ==> forall x :: x in contents ==> !Equal(less, x, e)
    {
      var i := FindBucket(e);
      var k := FindElem(i, e);
      found := if k.Some? then Some(buckets[i][k.value]) else None;
    }

    /** Removes and returns the element equal to E, if there is one. */
    method Delete(e: T, memory: bool) returns (found: Option<T>)
      requires Valid()
      modifies this
      ensures Valid()
      ensures found.Some? ==> found.value in old(contents) && Equal(less, found.value, e)
      ensures found.Some? ==> contents == old(contents) - {found.value}
      ensures found.None? ==> contents == old(contents) && forall x :: x in contents ==> !Equal(less, x, e)
    {
      var i := FindBucket(e);
      var k := FindElem(i, e);
      if k.Some? {
        var x := RemoveElem(i, k.value);
        found := Some(x);
        Rehash(memory);
      } else {
        found := None;
      }
    }

    /** Changes the number of buckets to the greatest power of two that leaves two elements
        or more for each, but at least four, if memory allows. */
    method Rehash(memory: bool)
      requires Valid()
      modifies this`buckets
      ensures Valid()
      ensures memory ==> Best(|buckets|, elemCnt)
      ensures !memory ==> buckets == old(buckets)
    {
      var newCnt := elemCnt / 2;
      if newCnt < 4 {
        newCnt := 4;
      }
      ghost var k := Log2(newCnt);
      while !IsPow2(newCnt)
        modifies {}
        invariant Pow2(k) <= newCnt <= Goal(elemCnt) < Pow2(k + 1)
        decreases newCnt
      {
        Pow2IsPow2(k);
        PredecessorKeepsTop(newCnt, k);
        newCnt := And(newCnt, newCnt - 1);
      }
      assert newCnt >= 4 by {
        FourBelow(k, Goal(elemCnt));
      }
      if newCnt == |buckets| || !memory {
        return;
      }
      MoveAll(newCnt);
    }

    /** The end of rehash: installs new buckets and moves each old element to its new bucket. */
    method MoveAll(newCnt: nat)
      requires Valid() && IsPow2(newCnt) && newCnt >= 4
      modifies this`buckets
      ensures Valid() && |buckets| == newCnt
    {
      assert |buckets| > 0;
      hide Holds, Consistent, Moving;
      var oldBuckets := buckets;
      var fresh_: seq<seq<T>> := seq(newCnt, _ => []);
      buckets := fresh_;
      ghost var moved: set<T> := {};
      EmptyHolds(hash, buckets);
      MoveStart(hash, oldBuckets, contents);
      var i := 0;
      while i < |oldBuckets|
        invariant i <= |oldBuckets| && |buckets| == newCnt
        invariant Holds(hash, buckets, moved) && Moving(hash, oldBuckets, contents, i, 0, moved)
      {
        var j := 0;
        while j < |oldBuckets[i]|
          invariant j <= |oldBuckets[i]| && |buckets| == newCnt
          invariant Holds(hash, buckets, moved) && Moving(hash, oldBuckets, contents, i, j, moved)
        {
          var e := oldBuckets[i][j];
          MoveNext(hash, oldBuckets, contents, i, j, moved);
          PushHolds(hash, buckets, moved, e);
          BucketInRange(hash, e, newCnt);
          var b := BucketIdx(hash, e, newCnt);
          buckets := buckets[b := [e] + buckets[b]];
          moved := moved + {e};
          j := j + 1;
        }
        MoveBucketDone(hash, oldBuckets, contents, i, moved);
        i := i + 1;
      }
      MovedAll(hash, oldBuckets, contents, moved);
    }
  }

  // ----- Iteration

  /** The elements of the buckets from i on, in table order. */
  ghost function Rest<T>(buckets: seq<seq<T>>, i: nat): seq<T>
    decreases |buckets| - i
  {
    if i >= |buckets| then [] else buckets[i] + Rest(buckets, i + 1)
  }

  lemma {:induction false} RestOnce<T(!new)>(hash: T -> nat, buckets: seq<seq<T>>, s: set<T>, i: nat)
    requires Holds(hash, buckets, s) && i <= |buckets|
    ensures Distinct(Rest(buckets, i))
    ensures forall x :: x in Rest(buckets, i) <==> x in s && BucketIdx(hash, x, |buckets|) >= i
    decreases |buckets| - i
  {
    if i < |buckets| {
      RestOnce(hash, buckets, s, i + 1);
      var b, r := buckets[i], Rest(buckets, i + 1);
      forall j, k | 0 <= j < k < |b + r| ensures (b + r)[j] != (b + r)[k] {
        if j < |b| <= k {
          assert b[j] in b && r[k - |b|] in r;
        }
      }
    }
  }

  /** The elements from position j of bucket i on. */
  ghost function From<T>(buckets: seq<seq<T>>, i: nat, j: int): seq<T>
    requires i < |buckets| ==> 0 <= j <= |buckets[i]|
  {
    if i >= |buckets| then [] else buckets[i][j..] + Rest(buckets, i + 1)
  }

  lemma FromNext<T>(buckets: seq<seq<T>>, i: nat, j: int)
    requires i < |buckets| && 0 <= j <= |buckets[i]|
    ensures j == |buckets[i]| ==> From(buckets, i, j) == From(buckets, i + 1, 0)
    ensures j < |buckets[i]| ==>
      && From(buckets, i, j) != [] && From(buckets, i, j)[0] == buckets[i][j]
      && From(buckets, i, j)[1..] == From(buckets, i, j + 1)
    ensures From(buckets, |buckets|, 0) == []
  {
  }

  class HashIterator<T(==, !new)> {
    const hash: Hash<T>
    var bucket: nat
    var elem: int // position in the bucket, -1 for the list head

    /** The elements yet to be visited. */
    ghost function Ahead(): seq<T>
      requires Valid()
      reads this, hash
    {
      From(hash.buckets, bucket, elem + 1)
    }

    ghost predicate Valid()
      reads this, hash
    {
      bucket <= |hash.buckets| && (bucket < |hash.buckets| ==> -1 <= elem < |hash.buckets[bucket]|)
    }

    /** hash_first. */
    constructor (h: Hash<T>)
      requires h.Valid()
      ensures hash == h && Valid() && bucket < |h.buckets| && Ahead() == Rest(h.buckets, 0)
    {
      hash := h;
      bucket := 0;
      elem := -1;
    }

    /** The next element, or none at the end of the table. */
    method HashNext() returns (e: Option<T>)
      requires Valid() && bucket < |hash.buckets|
      modifies this
      ensures Valid() && (bucket == |hash.buckets| <==> e.None?)
      ensures e == if old(Ahead()) == [] then None else Some(old(Ahead())[0])
      ensures e.Some? ==> Ahead() == old(Ahead())[1..]
    {
      hide From;
      ghost var ahead, buckets := Ahead(), hash.buckets;
      elem := elem + 1;
      while elem == |hash.buckets[bucket]|
        invariant bucket < |hash.buckets| && 0 <= elem <= |hash.buckets[bucket]|
        invariant ahead == From(buckets, bucket, elem) && hash.buckets == buckets
        decreases |hash.buckets| - bucket
      {
        FromNext(buckets, bucket, elem);
        bucket := bucket + 1;
        if bucket >= |hash.buckets| {
          return None;
        }
        elem := 0;
      }
      FromNext(buckets, bucket, elem);
      e := Some(hash.buckets[bucket][elem]);
    }
  }

  /** The iteration idiom visits each element of the table once. */
  method VisitAll<T(==, !new)>(h: Hash<T>) returns (visited: seq<T>)
    requires h.Valid()
    ensures Distinct(visited) && |visited| == h.elemCnt
    ensures forall x :: x in visited <==> x in h.contents
  {
    hide From, Holds, Consistent, NoTwoEqual;
    visited := [];
    var i := new HashIterator(h);
    ghost var all := Rest(h.buckets, 0);
    RestOnce(h.hash, h.buckets, h.contents, 0);
    AllOnce(all, h.contents);
    var e := i.HashNext();
    while e.Some?
      invariant i.Valid() && i.hash == h && (i.bucket == |h.buckets| <==> e.None?)
      invariant visited <= all
      invariant e.None? <==> visited == all
      invariant e.Some? ==> visited < all && e.value == all[|visited|]
      invariant e.Some? ==> i.Ahead() == all[|visited| + 1..]
      decreases |all| - |visited|
    {
      Advance(all, visited, e.value);
      visited := visited + [e.value];
      e := i.HashNext();
    }
  }

  lemma Advance<T>(all: seq<T>, done: seq<T>, x: T)
    requires done < all && x == all[|done|]
    ensures done + [x] <= all
    ensures var rest := all[|done| + 1..]; if rest == [] then done + [x] == all
      else done + [x] < all && rest[0] == all[|done| + 1] && rest[1..] == all[|done| + 2..]
  {
  }

  lemma {:induction false} AllOnce<T>(q: seq<T>, s: set<T>)
    requires Distinct(q) && forall x :: x in q <==> x in s
    ensures |q| == |s|
  {
    if q != [] {
      var m := q[..|q| - 1];
      assert forall x :: x in q <==> x in m || x == q[|q| - 1];
      AllOnce(m, s - {q[|q| - 1]});
    } else {
      assert s == {};
    }
  }
}
