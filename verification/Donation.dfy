/**
 Priority donation over nested locks (threads/thread.c, called from threads/synch.c when
 -mlfqs is off), one call at a time.

 A thread waiting for a held lock is registered on the holder's lock_waiter list, kept here
 as a sequence; ordered insertion and sorting are the functions that the list module's
 methods are proved to compute.
 */
module Donation {
  import opened Order

  class Lock {
    var holder: Thread?
  }

  class Thread {
    var priority: int
    var initPriority: int
    var lockWait: Lock?
    var lockWaiter: seq<Thread>
  }

  /** `prio` gives the priorities of the threads of `q` at this moment. */
  ghost predicate Current(prio: Thread -> int, q: seq<Thread>)
    reads q`priority
  {
    forall t :: t in q ==> prio(t) == t.priority
  }

  function Max(a: int, b: int): int { if a > b then a else b }

  // ----- The chain from a lock's holder along the locks waited for

  ghost function Holders(locks: set<Lock>): map<Lock, Thread>
    reads locks`holder
  {
    map l | l in locks && l.holder != null :: l.holder
  }

  ghost function Waits(threads: set<Thread>): map<Thread, Lock>
    reads threads`lockWait
  {
    map t | t in threads && t.lockWait != null :: t.lockWait
  }

  ghost function Waiters(threads: set<Thread>): map<Thread, seq<Thread>>
    reads threads`lockWaiter
  {
    map t | t in threads :: t.lockWaiter
  }

  ghost function Prios(threads: set<Thread>): map<Thread, int>
    reads threads`priority
  {
    map t | t in threads :: t.priority
  }

  ghost function Inits(threads: set<Thread>): map<Thread, int>
    reads threads`initPriority
  {
    map t | t in threads :: t.initPriority
  }

  ghost function Raised(prio: map<Thread, int>, route: seq<Thread>, p: int): map<Thread, int> {
    map t | t in prio :: if t in route then p else prio[t]
  }

  ghost predicate Closed(threads: set<Thread>, locks: set<Lock>)
    reads threads`lockWait, locks`holder
  {
    && (forall l :: l in locks && l.holder != null ==> l.holder in threads)
    && (forall t :: t in threads && t.lockWait != null ==> t.lockWait in locks)
  }

  const DEPTH: nat := 8

  /** The first `n` threads of the chain that starts with `h`. */
  ghost function Route(holders: map<Lock, Thread>, waits: map<Thread, Lock>, h: Thread, n: nat): (r: seq<Thread>)
    ensures |r| <= n && (n > 0 ==> r != [] && r[0] == h)
  {
    if n == 0 then []
    else if h in waits && waits[h] in holders then [h] + Route(holders, waits, holders[waits[h]], n - 1)
    else [h]
  }

  /** With `n` threads to go from `h` on, the loop reads the fields of a null holder. */
  ghost predicate Faults(holders: map<Lock, Thread>, waits: map<Thread, Lock>, h: Thread, n: nat) {
    n > 1 && h in waits && (waits[h] in holders ==> Faults(holders, waits, holders[waits[h]], n - 1))
  }

  lemma FollowOne(holders: map<Lock, Thread>, waits: map<Thread, Lock>, h: Thread, n: nat)
    requires n > 0
    ensures h !in waits ==> Route(holders, waits, h, n) == [h] && !Faults(holders, waits, h, n)
    ensures h in waits && waits[h] !in holders ==>
      Route(holders, waits, h, n) == [h] && (Faults(holders, waits, h, n) <==> n > 1)
    ensures h in waits && waits[h] in holders ==> var next := holders[waits[h]];
      && Route(holders, waits, h, n) == [h] + Route(holders, waits, next, n - 1)
      && (Faults(holders, waits, h, n) <==> Faults(holders, waits, next, n - 1))
  {
  }

  lemma FollowNone(holders: map<Lock, Thread>, waits: map<Thread, Lock>, h: Thread)
    ensures Route(holders, waits, h, 0) == [] && !Faults(holders, waits, h, 0)
  {
  }

  ghost predicate Linked(holders: map<Lock, Thread>, waits: map<Thread, Lock>, t: Thread, u: Thread) {
    t in waits && waits[t] in holders && holders[waits[t]] == u
  }

  /** It does so exactly if the chain breaks off, before `n` threads, at one that waits for a lock
      without a holder. */
  lemma {:induction false} FaultsExactly(holders: map<Lock, Thread>, waits: map<Thread, Lock>, h: Thread, n: nat)
    requires n > 0
    ensures var r := Route(holders, waits, h, n);
      && (forall i :: 0 <= i < |r| - 1 ==> Linked(holders, waits, r[i], r[i + 1]))
      && (Faults(holders, waits, h, n) <==>
            |r| < n && r[|r| - 1] in waits && waits[r[|r| - 1]] !in holders)
      && (|r| < n && r[|r| - 1] in waits ==> waits[r[|r| - 1]] !in holders)
  {
    if n > 1 && h in waits && waits[h] in holders {
      var r := Route(holders, waits, holders[waits[h]], n - 1);
      FaultsExactly(holders, waits, holders[waits[h]], n - 1);
      assert Route(holders, waits, h, n) == [h] + r;
      forall i | 0 <= i < |r| ensures Linked(holders, waits, ([h] + r)[i], ([h] + r)[i + 1]) {
        assert i > 0 ==> Linked(holders, waits, r[i - 1], r[i]);
      }
    }
  }

  ghost predicate Chained(holders: map<Lock, Thread>, waits: map<Thread, Lock>, chain: seq<Thread>) {
    chain != [] && forall i :: 0 <= i < |chain| - 1 ==> Linked(holders, waits, chain[i], chain[i + 1])
  }

  lemma {:induction false} RouteOfChain(holders: map<Lock, Thread>, waits: map<Thread, Lock>,
                                        chain: seq<Thread>, n: nat)
    requires Chained(holders, waits, chain)
    requires |chain| >= n || chain[|chain| - 1] !in waits
    ensures Route(holders, waits, chain[0], n) == if |chain| <= n then chain else chain[..n]
  {
    if n > 0 && |chain| > 1 {
      assert Linked(holders, waits, chain[0], chain[1]);
      assert Chained(holders, waits, chain[1..]) by {
        forall i | 0 <= i < |chain| - 2 ensures Linked(holders, waits, chain[1..][i], chain[1..][i + 1]) {
          assert Linked(holders, waits, chain[i + 1], chain[i + 2]);
        }
      }
      RouteOfChain(holders, waits, chain[1..], n - 1);
      assert chain == [chain[0]] + chain[1..];
      assert n < |chain| ==> chain[..n] == [chain[0]] + chain[1..][..n - 1];
    }
  }

  /** A donation raises all of a chain of at most eight threads, and exactly the first eight of a longer one. */
  lemma EightDeep(holders: map<Lock, Thread>, waits: map<Thread, Lock>, chain: seq<Thread>,
                  prio: map<Thread, int>, p: int, t: Thread)
    requires Chained(holders, waits, chain) && t in prio
    requires |chain| >= 8 || chain[|chain| - 1] !in waits
    ensures Raised(prio, Route(holders, waits, chain[0], DEPTH), p)[t]
      == if t in (if |chain| <= 8 then chain else chain[..8]) then p else prio[t]
  {
    RouteOfChain(holders, waits, chain, 8);
  }

  // ----- Acquiring

  /** thread_lock_acquire: registers the donor and passes the best priority along the chain. */
  method DonatePriority(donor: Thread, lock: Lock, prio: Thread -> int,
                        ghost threads: set<Thread>, ghost locks: set<Lock>)
    returns (fault: bool)
    requires Closed(threads, locks) && donor in threads && lock in locks
    requires lock.holder != null && lock.holder != donor && donor !in lock.holder.lockWaiter
    requires Current(prio, lock.holder.lockWaiter + [donor])
    modifies donor`lockWait, lock.holder`lockWaiter, threads`priority
    ensures Waits(threads) == old(Waits(threads))[donor := lock]
    ensures lock.holder in old(Waiters(threads)) && Waiters(threads)
      == old(Waiters(threads))[lock.holder := Inserted(More(prio), old(lock.holder.lockWaiter), donor)]
    ensures fault <==> Faults(Holders(locks), Waits(threads), lock.holder, DEPTH)
    ensures Prios(threads) == Raised(old(Prios(threads)), Route(Holders(locks), Waits(threads), lock.holder, DEPTH),
                                     old(Donated(lock.holder.lockWaiter, donor)))
  {
    hide Inserted, More, Donated, Route, Faults, Raised, Prios, Current;
    donor.lockWait := lock;
    var holder := lock.holder;
    FirstIsBest(holder.lockWaiter, donor, prio);
    holder.lockWaiter := Inserted(More(prio), holder.lockWaiter, donor);
    var maxThread := if holder.lockWaiter[0].priority > donor.priority then holder.lockWaiter[0] else donor;
    fault := PassAlong(holder, maxThread, threads, locks);
  }

  /** The loop of thread_lock_acquire, DEPTH threads deep at most. */
  method PassAlong(holder: Thread, maxThread: Thread, ghost threads: set<Thread>, ghost locks: set<Lock>)
    returns (fault: bool)
    requires Closed(threads, locks) && holder in threads
    modifies threads`priority
    ensures fault <==> Faults(Holders(locks), Waits(threads), holder, DEPTH)
    ensures Prios(threads)
      == Raised(old(Prios(threads)), Route(Holders(locks), Waits(threads), holder, DEPTH), old(maxThread.priority))
  {
    hide Route, Faults;
    ghost var top, hs, ws := maxThread.priority, Holders(locks), Waits(threads);
    ghost var seen: seq<Thread> := [];
    var h: Thread? := holder;
    var count := 0;
    while count < DEPTH
      invariant count <= DEPTH && |seen| == count && hs == Holders(locks) && ws == Waits(threads)
      invariant h != null ==> h in threads
      invariant Route(hs, ws, holder, DEPTH) == seen + if h == null then [] else Route(hs, ws, h, DEPTH - count)
      invariant Faults(hs, ws, holder, DEPTH) <==> if h == null then count < DEPTH else Faults(hs, ws, h, DEPTH - count)
      invariant forall t :: t in threads ==> t.priority == if t in seen then top else old(t.priority)
      invariant maxThread.priority == top
      decreases DEPTH - count
    {
      if h == null {
        return true;
      }
      FollowOne(hs, ws, h, DEPTH - count);
      h.priority := maxThread.priority;
      if h.lockWait != null {
        count := count + 1;
        seen := seen + [h];
        h := h.lockWait.holder;
      } else {
        seen := seen + [h];
        return false;
      }
    }
    if h != null {
      FollowNone(hs, ws, h);
    }
    fault := false;
  }

  /** What is passed along: the donor's priority or that of the first waiter, if better. */
  function Donated(waiters: seq<Thread>, donor: Thread): int
    reads waiters`priority, donor`priority
  {
    if waiters == [] then donor.priority else Max(waiters[0].priority, donor.priority)
  }

  lemma FirstIsBest(waiters: seq<Thread>, donor: Thread, prio: Thread -> int)
    requires Current(prio, waiters + [donor])
    ensures var q := Inserted(More(prio), waiters, donor);
      Max(q[0].priority, donor.priority) == Donated(waiters, donor)
  {
    assert waiters != [] ==> waiters[0] in waiters + [donor];
    assert donor in waiters + [donor];
  }

  /** When the waiters are in order, what is passed along is the best of all of them. */
  lemma DonatedIsBest(waiters: seq<Thread>, donor: Thread)
    requires forall i, j :: 0 <= i < j < |waiters| ==> waiters[i].priority >= waiters[j].priority
    ensures forall w :: w in waiters + [donor] ==> w.priority <= Donated(waiters, donor)
    ensures exists w :: w in waiters + [donor] && w.priority == Donated(waiters, donor)
  {
    assert donor in waiters + [donor];
    assert waiters != [] ==> waiters[0] in waiters + [donor];
  }

  // ----- Releasing

  ghost function WaitingFor(q: seq<Thread>, lock: Lock): set<Thread>
    reads q`lockWait
  {
    set t | t in q && t.lockWait == lock
  }

  /** The loop of thread_lock_remove: unlinks the waiters of `lock` while stepping through the list. */
  method UnlinkWaiters(current: Thread, lock: Lock)
    modifies current`lockWaiter
    ensures current.lockWaiter == Dropped(old(current.lockWaiter), WaitingFor(old(current.lockWaiter), lock))
  {
    ghost var was, gone := current.lockWaiter, WaitingFor(current.lockWaiter, lock);
    var e: int := 0;
    ghost var seen := 0;
    ghost var kept: seq<Thread> := [];
    while e != |current.lockWaiter|
      invariant seen <= |was| && kept == Dropped(was[..seen], gone)
      invariant current.lockWaiter == kept + was[seen..] && e == |kept|
      decreases |was| - seen
    {
      var q := current.lockWaiter;
      DroppedNext(was, seen, gone);
      SplitNext(q, kept, was, seen);
      assert q[e] in gone <==> q[e].lockWait == lock;
      if q[e].lockWait == lock {
        current.lockWaiter := q[..e] + q[e + 1..];
        e := e - 1;
      } else {
        kept := kept + [q[e]];
      }
      seen := seen + 1;
      e := e + 1;
    }
    assert was[..|was|] == was;
  }

  /** thread_lock_remove. */
  method RemoveWaiters(current: Thread, lock: Lock, ghost threads: set<Thread>)
    requires current in threads
    modifies current`lockWaiter
    ensures Waiters(threads) == old(Waiters(threads))[current :=
      Dropped(old(current.lockWaiter), WaitingFor(old(current.lockWaiter), lock))]
  {
    hide Dropped, WaitingFor;
    UnlinkWaiters(current, lock);
  }

  /** Back to the initial priority, or the best waiter's if that is better. */
  method Reprioritize(current: Thread, prio: Thread -> int)
    requires Distinct(current.lockWaiter) && current !in current.lockWaiter && Current(prio, current.lockWaiter)
    modifies current`priority, current`lockWaiter
    ensures current.lockWaiter == Sorted(More(prio), old(current.lockWaiter))
    ensures current.priority == Best(current.initPriority, prio, old(current.lockWaiter))
  {
    hide Distinct, Sorted, StrictWeak, StableSort, More;
    ghost var q := current.lockWaiter;
    current.priority := current.initPriority;
    if current.lockWaiter != [] {
      FirstOfSorted(q, prio, current.initPriority);
      current.lockWaiter := Sorted(More(prio), current.lockWaiter);
      var first := current.lockWaiter[0];
      if first.priority > current.priority {
        current.priority := first.priority;
      }
    } else {
      SortedEmpty(prio);
    }
  }

  /** thread_lock_refresh. */
  method Refresh(current: Thread, prio: Thread -> int, ghost threads: set<Thread>)
    requires Distinct(current.lockWaiter) && current !in current.lockWaiter && Current(prio, current.lockWaiter)
    requires current in threads
    modifies current`priority, current`lockWaiter
    ensures Waiters(threads) == old(Waiters(threads))[current := Sorted(More(prio), old(current.lockWaiter))]
    ensures Prios(threads)
      == old(Prios(threads))[current := Best(current.initPriority, prio, old(current.lockWaiter))]
  {
    hide Distinct, Sorted, More, Best, Current;
    Reprioritize(current, prio);
  }

  lemma SortedEmpty(prio: Thread -> int)
    ensures Sorted(More(prio), []) == []
  {
  }

  /** The greatest of `init` and the priorities of `q`. */
  ghost function Best(init: int, prio: Thread -> int, q: seq<Thread>): (p: int)
    ensures p >= init && forall i :: 0 <= i < |q| ==> p >= prio(q[i])
    ensures p == init || exists i :: 0 <= i < |q| && prio(q[i]) == p
  {
    if q == [] then init else Max(Best(init, prio, q[..|q| - 1]), prio(q[|q| - 1]))
  }

  lemma FirstOfSorted(q: seq<Thread>, prio: Thread -> int, init: int)
    requires q != [] && Distinct(q)
    ensures var r := Sorted(More(prio), q); r[0] in q && Best(init, prio, q) == Max(init, prio(r[0]))
  {
    MoreIsStrictWeak(prio, q);
    SortedIsStableSort(More(prio), q);
    SortedMembers(More(prio), q);
    var r := Sorted(More(prio), q);
    hide Sorted;
    assert r[0] in multiset(r) && multiset(r) == multiset(q);
    forall i | 0 <= i < |q| ensures prio(q[i]) <= prio(r[0]) {
      assert q[i] in r;
      var k :| 0 <= k < |r| && r[k] == q[i];
      assert k > 0 ==> !More(prio)(r[k], r[0]);
    }
    var j :| 0 <= j < |q| && q[j] == r[0];
  }

  /** thread_set_priority with -mlfqs off, before it may yield. */
  method SetPriority(current: Thread, priority: int, prio: Thread -> int, ghost threads: set<Thread>)
    requires Distinct(current.lockWaiter) && current !in current.lockWaiter && Current(prio, current.lockWaiter)
    requires current in threads
    modifies current`initPriority, current`priority, current`lockWaiter
    ensures Inits(threads) == old(Inits(threads))[current := priority]
    ensures Waiters(threads) == old(Waiters(threads))[current := Sorted(More(prio), old(current.lockWaiter))]
    ensures Prios(threads) == old(Prios(threads))[current := Best(priority, prio, old(current.lockWaiter))]
  {
    hide Distinct, Sorted, More, Best, Current, Waiters, Prios;
    current.initPriority := priority;
    Refresh(current, prio, threads);
  }
}
