/**
 Semaphores and locks (threads/synch.c) under every interleaving.

 A kernel thread runs a semaphore operation with interrupts off, so the unit of
 interleaving is one interrupts-off section: a test of the value that passes or
 blocks, a re-test by a thread that an up has unblocked, or an up.  The statements of
 a lock operation outside those sections are steps of their own.  Priorities may
 change between steps, so every step that orders waiters names the current ones.
 */
module Synch {
  import opened Options
  import opened Order
  import opened KernelList

  // ----- A semaphore's transition system

  /** `woken` are the threads an up has unblocked that have not yet re-tested the value. */
  datatype Sema<T> = Sema(value: nat, waiters: seq<T>, woken: set<T>)

  datatype Step<!T> =
    | Test(t: T, prio: T -> int)
    | TryDown(t: T)
    | Up(prio: T -> int)

  ghost function InitSema<T>(value: nat): Sema<T> {
    Sema(value, [], {})
  }

  /** A blocked thread cannot run; any other may start, or (if woken) go on with, sema_down. */
  ghost predicate Enabled<T>(s: Sema<T>, step: Step<T>) {
    match step
    case Test(t, _) => t !in s.waiters
    case TryDown(t) => t !in s.waiters && t !in s.woken
    case Up(_) => true
  }

  /** Whether the step is a down that completes. */
  ghost predicate Completes<T>(s: Sema<T>, step: Step<T>) {
    !step.Up? && s.value > 0
  }

  ghost function Next<T>(s: Sema<T>, step: Step<T>): Sema<T> {
    match step
    case Test(t, prio) =>
      if s.value == 0 then
        s.(waiters := Inserted(More(prio), s.waiters, t), woken := s.woken - {t})
      else
        s.(value := s.value - 1, woken := s.woken - {t})
    case TryDown(t) =>
      if s.value > 0 then s.(value := s.value - 1) else s
    case Up(prio) =>
      if s.waiters == [] then
        s.(value := s.value + 1)
      else
        var sorted := Sorted(More(prio), s.waiters);
        Sema(s.value + 1, sorted[1..], s.woken + {sorted[0]})
  }

  ghost predicate Runs<T>(s: Sema<T>, steps: seq<Step<T>>) {
    steps == [] || (Runs(s, Most(steps)) && Enabled(After(s, Most(steps)), Last(steps)))
  }

  ghost function After<T>(s: Sema<T>, steps: seq<Step<T>>): Sema<T> {
    if steps == [] then s else Next(After(s, Most(steps)), Last(steps))
  }

  ghost function Ups<T>(steps: seq<Step<T>>): nat {
    if steps == [] then 0 else Ups(Most(steps)) + if Last(steps).Up? then 1 else 0
  }

  ghost function Downs<T>(s: Sema<T>, steps: seq<Step<T>>): nat {
    if steps == [] then 0
    else Downs(s, Most(steps)) + if Completes(After(s, Most(steps)), Last(steps)) then 1 else 0
  }

  ghost function Most<T>(s: seq<T>): seq<T>
    requires s != []
  {
    s[..|s| - 1]
  }

  ghost function Last<T>(s: seq<T>): T
    requires s != []
  {
    s[|s| - 1]
  }

  /** No lost wakeup: while threads wait, every unit of value has a woken thread coming for it. */
  ghost predicate NoLostWakeup<T>(s: Sema<T>) {
    && Distinct(s.waiters)
    && (forall t :: t in s.waiters ==> t !in s.woken)
    && (s.waiters != [] ==> s.value <= |s.woken|)
  }

  lemma NextKeepsWakeups<T>(s: Sema<T>, step: Step<T>)
    requires NoLostWakeup(s) && Enabled(s, step)
    ensures NoLostWakeup(Next(s, step))
  {
    match step
    case Test(t, prio) =>
      InsertedMembers(More(prio), s.waiters, t);
      InsertedDistinct(More(prio), s.waiters, t);
      if t in s.woken {
        assert s.woken == (s.woken - {t}) + {t};
      } else {
        assert s.woken - {t} == s.woken;
      }
    case TryDown(t) =>
    case Up(prio) =>
      if s.waiters != [] {
        var sorted := Sorted(More(prio), s.waiters);
        MoreIsStrictWeak(prio, s.waiters);
        SortedIsStableSort(More(prio), s.waiters);
        PermMembers(s.waiters, sorted);
        PermDistinct(s.waiters, sorted);
      }
  }

  /** Over every run, the value is the initial one plus the ups minus the completed downs,
      and no wakeup is lost. */
  lemma {:induction false} SemaphoreRuns<T>(initial: nat, steps: seq<Step<T>>)
    requires Runs(InitSema(initial), steps)
    ensures var s := After(InitSema(initial), steps);
      s.value + Downs(InitSema(initial), steps) == initial + Ups(steps) && NoLostWakeup(s)
  {
    if steps != [] {
      SemaphoreRuns(initial, Most(steps));
      NextKeepsWakeups(After(InitSema(initial), Most(steps)), Last(steps));
    }
  }

  /** A thread waits with the semaphore available only if another is about to take it:
      that one's next section is enabled and completes its down. */
  lemma WokenCanPass<T>(s: Sema<T>, prio: T -> int) returns (t: T)
    requires NoLostWakeup(s) && s.waiters != [] && s.value > 0
    ensures t in s.woken && Enabled(s, Test(t, prio)) && Completes(s, Test(t, prio))
  {
    assert s.woken != {};
    t :| t in s.woken;
  }

  /** Up unblocks a waiter of the highest priority, the one ahead in the queue among equals. */
  lemma UpWakesBest<T>(s: Sema<T>, prio: T -> int, w: T)
    requires NoLostWakeup(s) && w in s.waiters
    ensures var best := Sorted(More(prio), s.waiters)[0];
      && Next(s, Up(prio)).woken == s.woken + {best}
      && best in s.waiters && prio(w) <= prio(best)
      && (prio(w) == prio(best) ==> w == best || Before(s.waiters, best, w))
  {
    var less, q := More(prio), s.waiters;
    var sorted := Sorted(less, q);
    MoreIsStrictWeak(prio, q);
    SortedIsStableSort(less, q);
    PermMembers(q, sorted);
    var best := sorted[0];
    assert best in sorted && w in sorted;
    var k :| 0 <= k < |sorted| && sorted[k] == w;
    if k > 0 {
      assert !less(sorted[k], sorted[0]);
      assert Before(sorted, best, w);
    }
    if w != best {
      BeforeTotal(q, best, w);
    }
  }

  lemma UpMeans<T>(s: Sema<T>, prio: T -> int)
    ensures s.waiters == [] ==> Next(s, Step.Up(prio)) == s.(value := s.value + 1)
    ensures var sorted := Sorted(More(prio), s.waiters);
      s.waiters != [] ==> Next(s, Step.Up(prio)) == Sema(s.value + 1, sorted[1..], s.woken + {sorted[0]})
  {
  }

  // ----- struct semaphore, its waiters on an intrusive list of threads' elems

  class Semaphore {
    var value: nat
    const waiters: List
    ghost var woken: set<ListElem>

    ghost function View(): Sema<ListElem>
      reads this, waiters
    {
      Sema(value, waiters.elems, woken)
    }

    ghost predicate Valid()
      reads this, waiters, waiters.Repr()
    {
      waiters.Valid() && NoLostWakeup(View())
    }

    constructor (value: nat)
      ensures Valid() && View() == InitSema(value) && fresh(waiters) && fresh(waiters.Repr())
    {
      this.value := value;
      waiters := new List();
      woken := {};
    }

    /** One turn of sema_down's loop by the current thread T; it blocks unless it passed. */
    method Down(t: ListElem, prio: ListElem -> int) returns (passed: bool)
      requires Valid() && t !in waiters.Repr()
      modifies this, waiters`elems, waiters.Repr(), t
      ensures Valid()
      ensures View() == Next(old(View()), Test(t, prio))
      ensures passed == Completes(old(View()), Test(t, prio))
      ensures passed <==> old(value) > 0
      ensures passed ==> value == old(value) - 1 && waiters.elems == old(waiters.elems)
      ensures !passed ==> value == 0 && waiters.elems == Inserted(More(prio), old(waiters.elems), t)
    {
      waiters.Members();
      NextKeepsWakeups(View(), Test(t, prio));
      if value == 0 {
        waiters.InsertOrdered(t, More<ListElem>(prio));
        passed := false;
      } else {
        value := value - 1;
        passed := true;
      }
      woken := woken - {t};
    }

    /** Takes one unit if there is one, without waiting. */
    method TryDown(ghost t: ListElem) returns (success: bool)
      requires Valid() && Enabled(View(), Step.TryDown(t))
      modifies this
      ensures Valid()
      ensures View() == Next(old(View()), Step.TryDown(t))
      ensures success == Completes(old(View()), Step.TryDown(t))
      ensures success <==> old(value) > 0
      ensures value == (if success then old(value) - 1 else 0) && woken == old(woken)
    {
      if value > 0 {
        value := value - 1;
        success := true;
      } else {
        success := false;
      }
    }

    /** Unblocks the best waiter onto the ready list, and raises the value. */
    method Up(prio: ListElem -> int, ready: List)
      requires Valid() && ready.Valid() && Apart(waiters, ready)
      modifies this, waiters`elems, waiters.Repr(), ready`elems, ready.Repr()
      ensures Valid() && ready.Valid() && Apart(waiters, ready)
      ensures View() == Next(old(View()), Step.Up(prio))
      ensures ready.elems == if old(waiters.elems) == [] then old(ready.elems)
        else Inserted(More(prio), old(ready.elems), Sorted(More(prio), old(waiters.elems))[0])
    {
      hide Chain, Sorted, Inserted, More, NoLostWakeup, Next, Apart, Enabled, List.Repr;
      NextKeepsWakeups(View(), Step.Up(prio));
      UpMeans(View(), prio);
      var begin := waiters.Begin();
      if begin != waiters.tail {
        var t := WakeBest(waiters, ready, prio);
        woken := woken + {t};
      }
      value := value + 1;
    }
  }

  /** Sorts the waiters by their current priorities and removes the first. */
  method PopBest(waiters: List, prio: ListElem -> int) returns (t: ListElem)
    requires waiters.Valid() && waiters.elems != []
    modifies waiters`elems, waiters.Repr()
    ensures waiters.Valid()
    ensures var sorted := Sorted(More(prio), old(waiters.elems));
      t == sorted[0] && waiters.elems == sorted[1..]
    ensures t in old(waiters.Repr()) && waiters.Repr() == old(waiters.Repr()) - {t}
  {
    hide Chain, StrictWeak, StableSort, Sorted, More;
    ghost var more, q := More<ListElem>(prio), waiters.elems;
    waiters.Members();
    waiters.DistinctElems();
    MoreIsStrictWeak(prio, q);
    waiters.Sort(More<ListElem>(prio));
    SortedIsStableSort(more, q);
    SortedMembers(more, q);
    StableSortUnique(more, q, waiters.elems, Sorted(more, q));
    waiters.Members();
    t := waiters.PopFront();
  }

  /** Moves the best waiter to the ready list. */
  method WakeBest(waiters: List, ready: List, prio: ListElem -> int) returns (t: ListElem)
    requires waiters.Valid() && ready.Valid() && Apart(waiters, ready) && waiters.elems != []
    modifies waiters`elems, waiters.Repr(), ready`elems, ready.Repr()
    ensures waiters.Valid() && ready.Valid() && Apart(waiters, ready)
    ensures var sorted := Sorted(More(prio), old(waiters.elems)); t == sorted[0] && waiters.elems == sorted[1..]
    ensures ready.elems == Inserted(More(prio), old(ready.elems), t)
  {
    hide Chain, Sorted, Inserted, More;
    t := PopBest(waiters, prio);
    Unblock(t, waiters, ready, prio);
  }

  /** thread_unblock: readies T behind the ready threads of its priority. */
  method Unblock(t: ListElem, ghost from: List, ready: List, prio: ListElem -> int)
    requires from.Valid() && ready.Valid() && Apart(from, ready)
    requires t !in from.Repr() && t !in ready.Repr()
    modifies ready`elems, ready.Repr(), t
    ensures from.Valid() && ready.Valid() && Apart(from, ready)
    ensures ready.elems == Inserted(More(prio), old(ready.elems), t)
  {
    hide Chain, Inserted, More;
    ready.Members();
    InsertedMembers(More(prio), ready.elems, t);
    ready.InsertOrdered(t, More<ListElem>(prio));
    ready.Members();
  }

  // ----- Locks

  /** `won`: back from the semaphore but not yet recorded as holder; `releasing`: holder
      cleared but the semaphore not yet upped. */
  datatype LockState<T> = LockState(sema: Sema<T>, holder: Option<T>, won: set<T>, releasing: set<T>)

  datatype LockStep<!T> =
    | Acquire(t: T, prio: T -> int)
    | TryAcquire(t: T)
    | Record(t: T)
    | ClearHolder(t: T)
    | Release(t: T, prio: T -> int)

  ghost function InitLock<T>(): LockState<T> {
    LockState(InitSema(1), None, {}, {})
  }

  /** The threads between lock_acquire's semaphore and lock_release's. */
  ghost function Critical<T>(l: LockState<T>): set<T> {
    l.won + l.releasing + match l.holder case Some(t) => {t} case None => {}
  }

  ghost predicate LockEnabled<T>(l: LockState<T>, step: LockStep<T>) {
    match step
    case Acquire(t, prio) => t !in Critical(l) && Enabled(l.sema, Test(t, prio))
    case TryAcquire(t) => t !in Critical(l) && Enabled(l.sema, TryDown(t))
    case Record(t) => t in l.won
    case ClearHolder(t) => l.holder == Some(t)
    case Release(t, _) => t in l.releasing
  }

  ghost function LockNext<T>(l: LockState<T>, step: LockStep<T>): LockState<T> {
    match step
    case Acquire(t, prio) => Downed(l, t, Test(t, prio))
    case TryAcquire(t) => Downed(l, t, TryDown(t))
    case Record(t) => l.(holder := Some(t), won := l.won - {t})
    case ClearHolder(t) => l.(holder := None, releasing := l.releasing + {t})
    case Release(t, prio) => l.(sema := Next(l.sema, Up(prio)), releasing := l.releasing - {t})
  }

  ghost function Downed<T>(l: LockState<T>, t: T, step: Step<T>): LockState<T> {
    l.(sema := Next(l.sema, step), won := if Completes(l.sema, step) then l.won + {t} else l.won)
  }

  /** One token: it is the semaphore's value or with one thread at one place in the critical section. */
  ghost predicate OneToken<T>(l: LockState<T>) {
    && NoLostWakeup(l.sema)
    && l.sema.value + |l.won| + |l.releasing| + (if l.holder.Some? then 1 else 0) == 1
    && forall t :: t in Critical(l) ==> t !in l.sema.waiters && t !in l.sema.woken
  }

  lemma LockNextKeepsToken<T>(l: LockState<T>, step: LockStep<T>)
    requires OneToken(l) && LockEnabled(l, step)
    ensures OneToken(LockNext(l, step))
  {
    match step
    case Acquire(t, prio) => DownedKeepsToken(l, t, Test(t, prio));
    case TryAcquire(t) => DownedKeepsToken(l, t, TryDown(t));
    case Record(t) => assert l.won == (l.won - {t}) + {t};
    case ClearHolder(t) => AddOne(l.releasing, t); NoneElse(l, t);
    case Release(t, prio) => ReleaseKeepsToken(l, t, prio);
  }

  lemma DownedKeepsToken<T>(l: LockState<T>, t: T, step: Step<T>)
    requires OneToken(l) && t !in Critical(l) && Enabled(l.sema, step)
    requires !step.Up? && step.t == t
    ensures OneToken(Downed(l, t, step))
  {
    hide NoLostWakeup, Next, Completes, Enabled;
    NextKeepsWakeups(l.sema, step);
    DownQueues(l.sema, t, step);
    AddOne(l.won, t);
    if Completes(l.sema, step) {
      assert Critical(Downed(l, t, step)) == Critical(l) + {t};
    }
  }

  /** A down only moves its own thread on and off the queues, and spends a unit when it completes. */
  lemma DownQueues<T>(s: Sema<T>, t: T, step: Step<T>)
    requires Enabled(s, step) && !step.Up? && step.t == t
    ensures var n := Next(s, step);
      && (forall x :: x in n.waiters ==> x in s.waiters || (x == t && !Completes(s, step)))
      && (forall x :: x in n.woken ==> x in s.woken)
      && n.value == s.value - (if Completes(s, step) then 1 else 0)
      && t !in n.woken && (Completes(s, step) ==> t !in n.waiters)
  {
    if step.Test? && s.value == 0 {
      InsertedMembers(More(step.prio), s.waiters, t);
    }
  }

  lemma ReleaseKeepsToken<T>(l: LockState<T>, t: T, prio: T -> int)
    requires OneToken(l) && t in l.releasing
    ensures OneToken(LockNext(l, Release(t, prio)))
  {
    NextKeepsWakeups(l.sema, Up(prio));
    NoneElse(l, t);
    assert l.releasing == (l.releasing - {t}) + {t};
    SortedOfWaiters(l.sema, prio);
    hide NoLostWakeup, Sorted;
    assert l.won == {} && l.holder == None by {
      EmptyOrNot(l.releasing, t);
    }
  }

  lemma AddOne<T>(s: set<T>, t: T)
    ensures t !in s ==> |s + {t}| == |s| + 1
  {
  }

  lemma SortedOfWaiters<T>(s: Sema<T>, prio: T -> int)
    requires NoLostWakeup(s)
    ensures forall x :: x in Sorted(More(prio), s.waiters) <==> x in s.waiters
  {
    MoreIsStrictWeak(prio, s.waiters);
    SortedMembers(More(prio), s.waiters);
  }

  /** Mutual exclusion of one state: a thread in the critical section is there alone, and the
      semaphore is unavailable. */
  lemma NoneElse<T>(l: LockState<T>, t: T)
    requires OneToken(l) && t in Critical(l)
    ensures Critical(l) == {t} && l.sema.value == 0
    ensures l.holder == Some(t) || t in l.won || t in l.releasing
  {
    var holder := match l.holder case Some(h) => {h} case None => {};
    forall u | u in Critical(l) ensures u == t {
      SingletonMembers(l.won, t, u);
      SingletonMembers(l.releasing, t, u);
      EmptyOrNot(l.won, t);
      EmptyOrNot(l.won, u);
      EmptyOrNot(l.releasing, t);
      EmptyOrNot(l.releasing, u);
    }
  }

  /** The semaphore is available exactly while nobody is in the critical section. */
  lemma FreeIff<T>(l: LockState<T>)
    requires OneToken(l)
    ensures l.sema.value > 0 <==> Critical(l) == {}
  {
    if c :| c in Critical(l) {
      NoneElse(l, c);
    } else {
      EmptySet(l.won);
      EmptySet(l.releasing);
      assert l.holder == None;
    }
  }

  lemma EmptySet<T>(s: set<T>)
    requires forall t :: t !in s
    ensures |s| == 0
  {
    assert s == {};
  }

  lemma EmptyOrNot<T>(s: set<T>, t: T)
    ensures t in s ==> |s| >= 1
  {
    if t in s {
      assert s == (s - {t}) + {t};
    }
  }

  lemma SingletonMembers<T>(s: set<T>, t: T, u: T)
    ensures t in s && u in s && |s| <= 1 ==> t == u
  {
    if t in s && u in s && t != u {
      assert s == (s - {t, u}) + {t, u};
    }
  }

  ghost predicate LockRuns<T>(l: LockState<T>, steps: seq<LockStep<T>>) {
    steps == [] || (LockRuns(l, Most(steps)) && LockEnabled(LockAfter(l, Most(steps)), Last(steps)))
  }

  ghost function LockAfter<T>(l: LockState<T>, steps: seq<LockStep<T>>): LockState<T> {
    if steps == [] then l else LockNext(LockAfter(l, Most(steps)), Last(steps))
  }

  lemma {:induction false} LockRunsKeepToken<T>(steps: seq<LockStep<T>>)
    requires LockRuns(InitLock<T>(), steps)
    ensures OneToken(LockAfter(InitLock<T>(), steps))
  {
    if steps != [] {
      LockRunsKeepToken(Most(steps));
      LockNextKeepsToken(LockAfter(InitLock<T>(), Most(steps)), Last(steps));
    }
  }

  /** After any run, at most one thread is between acquiring and releasing the lock, the lock is
      free exactly when none is, and a recorded holder is that thread. */
  lemma MutualExclusion<T>(steps: seq<LockStep<T>>, t: T, u: T)
    requires LockRuns(InitLock<T>(), steps)
    ensures var l := LockAfter(InitLock<T>(), steps);
      && (t in Critical(l) && u in Critical(l) ==> t == u)
      && (l.sema.value == 1 <==> Critical(l) == {})
      && (l.holder == Some(t) && u in Critical(l) ==> u == t)
  {
    var l := LockAfter(InitLock<T>(), steps);
    LockRunsKeepToken(steps);
    FreeIff(l);
    if c :| c in Critical(l) {
      NoneElse(l, c);
    }
  }

  /** After any run, threads wait for the lock only while another is in the critical section or
      has been woken to take it. */
  lemma WaitersHaveCause<T>(steps: seq<LockStep<T>>)
    requires LockRuns(InitLock<T>(), steps)
    ensures var l := LockAfter(InitLock<T>(), steps);
      l.sema.waiters != [] ==> Critical(l) != {} || l.sema.woken != {}
  {
    var l := LockAfter(InitLock<T>(), steps);
    LockRunsKeepToken(steps);
    if Critical(l) == {} {
      assert l.won == {} && l.releasing == {};
    }
  }

  // ----- struct lock: its methods are the steps, on the object

  class Lock {
    const semaphore: Semaphore
    var holder: ListElem?
    ghost var won: set<ListElem>
    ghost var releasing: set<ListElem>

    ghost function View(): LockState<ListElem>
      reads this, semaphore, semaphore.waiters
    {
      LockState(semaphore.View(), if holder == null then None else Some(holder), won, releasing)
    }

    ghost predicate Valid()
      reads this, semaphore, semaphore.waiters, semaphore.waiters.Repr()
    {
      semaphore.Valid() && OneToken(View())
    }

    constructor ()
      ensures Valid() && View() == InitLock<ListElem>()
    {
      semaphore := new Semaphore(1);
      holder := null;
      won, releasing := {}, {};
    }

    /** One turn of lock_acquire's semaphore loop by the current thread T. */
    method Acquire(t: ListElem, prio: ListElem -> int) returns (passed: bool)
      requires Valid() && LockEnabled(View(), LockStep.Acquire(t, prio)) && t !in semaphore.waiters.Repr()
      modifies this`won, semaphore, semaphore.waiters`elems, semaphore.waiters.Repr(), t
      ensures Valid() && View() == LockNext(old(View()), LockStep.Acquire(t, prio))
      ensures passed == Completes(old(View()).sema, Test(t, prio))
    {
      LockNextKeepsToken(View(), LockStep.Acquire(t, prio));
      hide OneToken, NoLostWakeup, Next, Chain, More, Inserted, Completes, Critical, LockEnabled;
      ghost var l := View();
      passed := semaphore.Down(t, prio);
      if passed {
        won := won + {t};
      }
      assert View() == Downed(l, t, Test(t, prio));
    }

    /** Takes the lock exactly if nobody is between acquiring and releasing it. */
    method TryAcquire(ghost t: ListElem) returns (success: bool)
      requires Valid() && LockEnabled(View(), LockStep.TryAcquire(t))
      modifies this`won, semaphore
      ensures Valid() && View() == LockNext(old(View()), LockStep.TryAcquire(t))
      ensures success == Completes(old(View()).sema, Step.TryDown(t))
      ensures success <==> old(Critical(View())) == {}
      ensures success <==> old(semaphore.value) > 0
      ensures semaphore.value == (if success then old(semaphore.value) - 1 else 0)
      ensures won == if success then {t} else old(won)
    {
      LockNextKeepsToken(View(), LockStep.TryAcquire(t));
      FreeIff(View());
      hide OneToken, NoLostWakeup, Next;
      success := semaphore.TryDown(t);
      won := if success then won + {t} else won;
    }

    /** The assignment to `holder` that ends lock_acquire and lock_try_acquire. */
    method Record(t: ListElem)
      requires Valid() && LockEnabled(View(), LockStep.Record(t))
      modifies this
      ensures Valid() && View() == LockNext(old(View()), LockStep.Record(t))
    {
      LockNextKeepsToken(View(), LockStep.Record(t));
      holder := t;
      won := won - {t};
    }

    /** lock_release by the holder T: clear `holder`, then up the semaphore. */
    method ClearHolder(t: ListElem)
      requires Valid() && holder == t
      modifies this
      ensures Valid() && View() == LockNext(old(View()), LockStep.ClearHolder(t))
    {
      LockNextKeepsToken(View(), LockStep.ClearHolder(t));
      holder := null;
      releasing := releasing + {t};
    }

    method Release(t: ListElem, prio: ListElem -> int, ready: List)
      requires Valid() && LockEnabled(View(), LockStep.Release(t, prio))
      requires ready.Valid() && Apart(semaphore.waiters, ready)
      modifies this`releasing, semaphore, semaphore.waiters`elems, semaphore.waiters.Repr()
      modifies ready`elems, ready.Repr()
      ensures Valid() && View() == LockNext(old(View()), LockStep.Release(t, prio))
      ensures ready.Valid() && Apart(semaphore.waiters, ready)
    {
      LockNextKeepsToken(View(), LockStep.Release(t, prio));
      hide OneToken, NoLostWakeup, Next, Chain, Apart;
      releasing := releasing - {t};
      semaphore.Up(prio, ready);
    }
  }
}
