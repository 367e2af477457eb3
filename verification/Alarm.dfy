/**
 The alarm clock: timer_sleep and the wake-up scan of each timer tick (threads/thread.c,
 devices/timer.c), on the kernel's linked lists.
 */
module Alarm {
  import opened Order
  import opened KernelList
  import Synch

  // ----- What sleeping means, over every run

  /** The threads asleep, with the tick each is to be woken at. */
  datatype Clock<T> = Clock(now: int, asleep: map<T, int>)

  datatype Event<T> = Sleep(t: T, ticks: int) | Tick

  ghost predicate Enabled<T>(c: Clock<T>, e: Event<T>) {
    e.Sleep? ==> e.t !in c.asleep
  }

  /** A tick wakes exactly the threads whose time has come. */
  ghost function Next<T>(c: Clock<T>, e: Event<T>): Clock<T> {
    match e
    case Sleep(t, ticks) => c.(asleep := c.asleep[t := c.now + ticks])
    case Tick =>
      Clock(c.now + 1, map t | t in c.asleep && c.asleep[t] > c.now + 1 :: c.asleep[t])
  }

  ghost function After<T>(c: Clock<T>, run: seq<Event<T>>): Clock<T> {
    if run == [] then c else Next(After(c, run[..|run| - 1]), run[|run| - 1])
  }

  ghost predicate Runs<T>(c: Clock<T>, run: seq<Event<T>>) {
    run == [] || (Runs(c, run[..|run| - 1]) && Enabled(After(c, run[..|run| - 1]), run[|run| - 1]))
  }

  ghost function Ticks<T>(run: seq<Event<T>>): nat {
    if run == [] then 0 else Ticks(run[..|run| - 1]) + if run[|run| - 1].Tick? then 1 else 0
  }

  /** Whatever the others do, a thread that goes to sleep sleeps until the first tick at or past
      its deadline, and never past that: a deadline already past is met at the next tick. */
  lemma {:induction false} WokenOnTime<T>(c: Clock<T>, t: T, ticks: int, rest: seq<Event<T>>)
    requires Enabled(c, Sleep(t, ticks)) && Runs(Next(c, Sleep(t, ticks)), rest)
    requires forall e :: e in rest && e.Sleep? ==> e.t != t
    ensures var end, due := After(Next(c, Sleep(t, ticks)), rest), c.now + if ticks > 1 then ticks else 1;
      && end.now == c.now + Ticks(rest)
      && (t in end.asleep <==> end.now < due)
      && (t in end.asleep ==> end.asleep[t] == c.now + ticks)
  {
    if rest != [] {
      WokenOnTime(c, t, ticks, rest[..|rest| - 1]);
      assert rest[|rest| - 1] in rest;
    }
  }

  // ----- The lists

  /** `ready` after each of `woken` has been unblocked in turn. */
  ghost function Readied<T>(prio: T -> int, ready: seq<T>, woken: seq<T>): seq<T> {
    if woken == [] then ready
    else Inserted(More(prio), Readied(prio, ready, woken[..|woken| - 1]), woken[|woken| - 1])
  }

  lemma ReadiedNext<T>(prio: T -> int, ready: seq<T>, woken: seq<T>, t: T)
    ensures Readied(prio, ready, woken + [t]) == Inserted(More(prio), Readied(prio, ready, woken), t)
  {
    assert (woken + [t])[..|woken|] == woken;
  }

  class Alarm {
    const sleeping: List
    const ready: List
    var ticks: int
    var wakeupTime: map<ListElem, int> // each thread's wakeup_time

    ghost predicate Valid()
      reads this, sleeping, ready, sleeping.Repr(), ready.Repr()
    {
      && sleeping.Valid() && ready.Valid() && Apart(sleeping, ready)
      && forall t :: t in sleeping.elems ==> t in wakeupTime
    }

    ghost function View(): Clock<ListElem>
      requires Valid()
      reads this, sleeping, ready, sleeping.Repr(), ready.Repr()
    {
      Clock(ticks, map t | t in sleeping.elems :: wakeupTime[t])
    }

    ghost function Due(): set<ListElem>
      requires Valid()
      reads this, sleeping, ready, sleeping.Repr(), ready.Repr()
    {
      set t | t in sleeping.elems && ticks >= wakeupTime[t]
    }

    constructor ()
      ensures Valid() && View() == Clock(0, map[])
    {
      sleeping := new List();
      ready := new List();
      ticks, wakeupTime := 0, map[];
    }

    /** timer_sleep by thread T, which is not the idle thread. */
    method TimerSleep(t: ListElem, n: int)
      requires Valid() && t !in sleeping.Repr() && t !in ready.Repr()
      modifies this`wakeupTime, sleeping`elems, sleeping.Repr(), t
      ensures Valid() && View() == Next(old(View()), Sleep(t, n))
      ensures sleeping.elems == old(sleeping.elems) + [t] && ready.elems == old(ready.elems)
    {
      hide Chain;
      sleeping.Members();
      var start := ticks;
      AsleepAdded(sleeping.elems, wakeupTime, t, start + n);
      wakeupTime := wakeupTime[t := start + n];
      sleeping.PushBack(t);
      sleeping.Members();
    }

    /** The part of timer_interrupt that counts the tick and wakes sleepers. */
    method TimerInterrupt(prio: ListElem -> int)
      requires Valid()
      modifies this, sleeping`elems, ready`elems, sleeping.Repr(), ready.Repr()
      ensures Valid() && View() == Next(old(View()), Tick) && ticks == old(ticks) + 1
      ensures forall t :: t in old(sleeping.elems) && t !in sleeping.elems ==> t in ready.elems
    {
      hide Chain, Dropped, Readied;
      ticks := ticks + 1;
      ghost var was, due, readyWas, times := sleeping.elems, Due(), ready.elems, wakeupTime;
      WakeUp(prio);
      AsleepNext(was, due, times, ticks, sleeping.elems, wakeupTime);
      AllReadied(prio, was, due, readyWas);
    }

    /** Unlinks the k'th sleeper, readies it, and returns the node before it. */
    method WakeOne(e: ListElem, prio: ListElem -> int, ghost k: nat) returns (back: ListElem)
      requires sleeping.Valid() && ready.Valid() && Apart(sleeping, ready)
      requires k < |sleeping.elems| && sleeping.elems[k] == e
      modifies this`wakeupTime, sleeping`elems, ready`elems, sleeping.Repr(), ready.Repr()
      ensures sleeping.Valid() && ready.Valid() && Apart(sleeping, ready)
      ensures sleeping.elems == old(sleeping.elems[..k] + sleeping.elems[k + 1..])
      ensures ready.elems == Inserted(More(prio), old(ready.elems), e)
      ensures back == sleeping.Nodes()[k] && wakeupTime == old(wakeupTime)[e := 0]
      ensures sleeping.Repr() + ready.Repr() == old(sleeping.Repr() + ready.Repr())
    {
      hide Chain, Inserted, More;
      sleeping.Members();
      ready.Members();
      var after := sleeping.RemoveElem(e, k);
      sleeping.Linkage();
      assert sleeping.Nodes()[k + 1] == after && after.prev == sleeping.Nodes()[k];
      back := after.prev;
      wakeupTime := wakeupTime[e := 0];
      ghost var r := ready.elems;
      Synch.Unblock(e, sleeping, ready, prio);
      InsertedMembers(More(prio), r, e);
      ready.Members();
    }

    ghost predicate ListsOk()
      reads this, sleeping, ready, sleeping.Repr(), ready.Repr()
    {
      sleeping.Valid() && ready.Valid() && Apart(sleeping, ready)
    }

    /** One turn of the scan: the sleeper is woken if its time has come; returns the next node. */
    method Turn(e: ListElem, prio: ListElem -> int, ghost k: nat) returns (next: ListElem)
      requires ListsOk() && k < |sleeping.elems| && sleeping.elems[k] == e && e in wakeupTime
      modifies this`wakeupTime, sleeping`elems, ready`elems, sleeping.Repr(), ready.Repr()
      ensures ListsOk() && sleeping.Repr() + ready.Repr() == old(sleeping.Repr() + ready.Repr())
      ensures var due := ticks >= old(wakeupTime)[e];
        && (due ==> sleeping.elems == old(sleeping.elems[..k] + sleeping.elems[k + 1..]))
        && (!due ==> sleeping.elems == old(sleeping.elems))
        && ready.elems == (if due then Inserted(More(prio), old(ready.elems), e) else old(ready.elems))
        && wakeupTime == (if due then old(wakeupTime)[e := 0] else old(wakeupTime))
        && next == sleeping.Nodes()[(if due then k else k + 1) + 1]
    {
      hide Chain, Inserted, More;
      NotAtTail(sleeping, k);
      var back := e;
      if ticks >= wakeupTime[e] {
        back := WakeOne(e, prio, k);
      }
      sleeping.Linkage();
      assert back == sleeping.Nodes()[if ticks >= old(wakeupTime)[e] then k else k + 1];
      next := back.next;
    }

    /** thread_wake_up: unlinks the due sleepers while stepping through the list, and readies
        them in list order. */
    method WakeUp(prio: ListElem -> int)
      requires Valid()
      modifies this`wakeupTime, sleeping`elems, ready`elems, sleeping.Repr(), ready.Repr()
      ensures Valid() && TimesKept(old(wakeupTime), wakeupTime, sleeping.elems)
      ensures sleeping.elems == Dropped(old(sleeping.elems), old(Due()))
      ensures ready.elems ==
        Readied(prio, old(ready.elems), Woken(old(sleeping.elems), old(Due()), |old(sleeping.elems)|))
    {
      hide Chain, Inserted, More, Dropped, Readied, Midway, Woken, ListsOk, TimesKept, Distinct, Apart;
      TimesStart(wakeupTime, sleeping.elems);
      ghost var was, due, readyWas, times := sleeping.elems, Due(), ready.elems, wakeupTime;
      ghost var R := sleeping.Repr() + ready.Repr();
      assert ListsOk() by {
        ListsAreOk();
      }
      ghost var seen := 0;
      ListsMean();
      FirstPlace(sleeping);
      assert forall t :: t in was ==> (t in due <==> ticks >= times[t]);
      MidwayStarts(was, due, prio, readyWas);
      var e: ListElem := sleeping.Begin();
      while e != sleeping.tail
        invariant ListsOk() && sleeping.Repr() + ready.Repr() == R
        invariant seen <= |was| && Scanning(e, prio, was, due, seen, times, readyWas)
        decreases |was| - seen
      {
        e := ScanOne(e, prio, was, due, seen, times, readyWas);
        seen := seen + 1;
      }
      MidwayEnds(was, due, seen, sleeping.elems);
      ListsMean();
      TimesEnd(times, wakeupTime, sleeping.elems);
    }

    /** What the scan has done so far, and the node it stands at. */
    ghost predicate Scanning(e: ListElem, prio: ListElem -> int, was: seq<ListElem>, due: set<ListElem>, seen: nat,
                             times: map<ListElem, int>, readyWas: seq<ListElem>)
      reads this, sleeping, ready
    {
      && Midway(was, due, seen, sleeping.elems)
      && (e == sleeping.tail <==> seen == |was|) && (seen < |was| ==> e == was[seen])
      && ready.elems == Readied(prio, readyWas, Woken(was, due, seen))
      && TimesKept(times, wakeupTime, sleeping.elems)
      && DueAt(was, due, times, ticks)
    }

    method ScanOne(e: ListElem, prio: ListElem -> int, ghost was: seq<ListElem>, ghost due: set<ListElem>,
                   ghost seen: nat,
                   ghost times: map<ListElem, int>, ghost readyWas: seq<ListElem>) returns (next: ListElem)
      requires ListsOk() && Scanning(e, prio, was, due, seen, times, readyWas) && seen < |was|
      modifies this`wakeupTime, sleeping`elems, ready`elems, sleeping.Repr(), ready.Repr()
      ensures ListsOk() && sleeping.Repr() + ready.Repr() == old(sleeping.Repr() + ready.Repr())
      ensures Scanning(next, prio, was, due, seen + 1, times, readyWas)
    {
      hide Chain, Inserted, More, Dropped, Readied, Midway, Woken, ListsOk, TimesKept, Distinct, Apart, Scanning;
      hide DueAt, List.Valid, List.Nodes, List.Repr;
      ghost var k, q, r, now := |Dropped(was[..seen], due)|, sleeping.elems, ready.elems, wakeupTime;
      ScanPlace(e, prio, was, due, seen, times, readyWas);
      next := Turn(e, prio, k);
      Advanced(prio, was, due, seen, times, readyWas, q, r, now, sleeping.elems, ready.elems, wakeupTime);
      ListsMean();
      MidwayPlace(was, due, seen + 1, sleeping);
      Scans(next, prio, was, due, seen + 1, times, readyWas);
    }

    /** What the scan is about to look at. */
    lemma ScanPlace(e: ListElem, prio: ListElem -> int, was: seq<ListElem>, due: set<ListElem>, seen: nat,
                    times: map<ListElem, int>, readyWas: seq<ListElem>)
      requires ListsOk() && Scanning(e, prio, was, due, seen, times, readyWas) && seen < |was|
      ensures Midway(was, due, seen, sleeping.elems) && TimesKept(times, wakeupTime, sleeping.elems)
      ensures Distinct(sleeping.elems) && ready.elems == Readied(prio, readyWas, Woken(was, due, seen))
      ensures DueAt(was, due, times, ticks)
      ensures var k := |Dropped(was[..seen], due)|;
        && k < |sleeping.elems| && sleeping.elems[k] == e == was[seen]
        && e in wakeupTime && (e in due <==> ticks >= wakeupTime[e])
        && |Dropped(was[..seen + 1], due)| == if e in due then k else k + 1
    {
      hide Chain, Inserted, More, Dropped, Readied, Midway, Woken, ListsOk, TimesKept, Distinct, Apart;
      ListsMean();
      MidwayNext(was, due, seen, sleeping.elems);
      TimesNext(times, wakeupTime, sleeping.elems, |Dropped(was[..seen], due)|);
      assert e in was;
    }

    lemma Scans(e: ListElem, prio: ListElem -> int, was: seq<ListElem>, due: set<ListElem>, seen: nat,
                times: map<ListElem, int>, readyWas: seq<ListElem>)
      requires Midway(was, due, seen, sleeping.elems) && TimesKept(times, wakeupTime, sleeping.elems)
      requires (e == sleeping.tail <==> seen == |was|) && (seen < |was| ==> e == was[seen])
      requires ready.elems == Readied(prio, readyWas, Woken(was, due, seen))
      requires DueAt(was, due, times, ticks)
      ensures Scanning(e, prio, was, due, seen, times, readyWas)
    {
      hide Readied, Midway, Woken, TimesKept;
    }

    lemma ListsMean()
      requires ListsOk()
      ensures sleeping.Valid() && ready.Valid() && Apart(sleeping, ready) && Distinct(sleeping.elems)
    {
      sleeping.DistinctElems();
    }

    lemma ListsAreOk()
      requires sleeping.Valid() && ready.Valid() && Apart(sleeping, ready)
      ensures ListsOk()
    {
    }
  }

  lemma AsleepAdded<T>(q: seq<T>, times: map<T, int>, x: T, time: int)
    requires x !in q && forall t :: t in q ==> t in times
    ensures (map t | t in q + [x] :: times[x := time][t]) == (map t | t in q :: times[t])[x := time]
  {
    assert forall t :: t in q + [x] <==> t in q || t == x;
  }

  lemma AsleepNext<T>(was: seq<T>, due: set<T>, times: map<T, int>, now: int, q: seq<T>, times': map<T, int>)
    requires forall t :: t in was ==> t in times
    requires due == set t | t in was && now >= times[t]
    requires q == Dropped(was, due) && TimesKept(times, times', q)
    ensures var asleep := map t | t in was :: times[t];
      (map t | t in q :: times'[t]) == map t | t in asleep && asleep[t] > now :: asleep[t]
  {
    DroppedMembers(was, due);
  }

  lemma {:induction false} ReadiedMembers<T>(prio: T -> int, ready: seq<T>, woken: seq<T>)
    ensures forall t :: t in Readied(prio, ready, woken) <==> t in ready || t in woken
  {
    if woken != [] {
      var most := woken[..|woken| - 1];
      ReadiedMembers(prio, ready, most);
      InsertedMembers(More(prio), Readied(prio, ready, most), woken[|woken| - 1]);
      assert woken == most + [woken[|woken| - 1]];
    }
  }

  /** Every sleeper ends up on one of the two lists. */
  lemma AllReadied<T>(prio: T -> int, was: seq<T>, due: set<T>, ready: seq<T>)
    ensures forall t :: t in was ==> t in Dropped(was, due) || t in Readied(prio, ready, Woken(was, due, |was|))
  {
    assert was[..|was|] == was;
    DroppedMembers(was, due);
    DroppedMembers(was, (set t | t in was) - due);
    ReadiedMembers(prio, ready, Woken(was, due, |was|));
  }

  /** The sleepers among the first `seen` that are woken, in order. */
  ghost function Woken<T>(was: seq<T>, due: set<T>, seen: nat): seq<T>
    requires seen <= |was|
  {
    Dropped(was[..seen], (set t | t in was) - due)
  }

  /** Midway: of the first `seen` sleepers those not due are left, then come the others. */
  ghost predicate Midway<T>(was: seq<T>, due: set<T>, seen: nat, q: seq<T>) {
    Distinct(was) && seen <= |was| && q == Dropped(was[..seen], due) + was[seen..]
  }

  /** The threads of `q` have the wake-up times they had. */
  ghost predicate TimesKept<T>(times: map<T, int>, times': map<T, int>, q: seq<T>) {
    forall t :: t in q ==> t in times && t in times' && times'[t] == times[t]
  }

  /** The due threads of `q` are those whose time has come. */
  ghost predicate DueAt<T>(q: seq<T>, due: set<T>, times: map<T, int>, ticks: int) {
    forall t :: t in q ==> t in times && (t in due <==> ticks >= times[t])
  }

  lemma TimesStart<T>(times: map<T, int>, q: seq<T>)
    requires forall t :: t in q ==> t in times
    ensures TimesKept(times, times, q)
  {
  }

  lemma TimesEnd<T>(times: map<T, int>, times': map<T, int>, q: seq<T>)
    requires TimesKept(times, times', q)
    ensures forall t :: t in q ==> t in times'
  {
  }

  lemma TimesNext<T>(times: map<T, int>, times': map<T, int>, q: seq<T>, k: nat)
    requires TimesKept(times, times', q) && k < |q| && Distinct(q)
    ensures q[k] in times' && times'[q[k]] == times[q[k]]
    ensures TimesKept(times, times'[q[k] := 0], q[..k] + q[k + 1..])
  {
    RemovedMembers(q, k);
  }

  lemma MidwayStarts<T>(was: seq<T>, due: set<T>, prio: T -> int, ready: seq<T>)
    requires Distinct(was)
    ensures Midway(was, due, 0, was) && Woken(was, due, 0) == [] && Readied(prio, ready, []) == ready
  {
    assert [] + was == was;
  }

  lemma MidwayNext<T>(was: seq<T>, due: set<T>, seen: nat, q: seq<T>)
    requires Midway(was, due, seen, q) && seen < |was|
    ensures var k := |Dropped(was[..seen], due)|;
      && k < |q| && q[k] == was[seen]
      && |Dropped(was[..seen + 1], due)| == (if was[seen] in due then k else k + 1)
      && (was[seen] in due ==> Midway(was, due, seen + 1, q[..k] + q[k + 1..]))
      && (was[seen] !in due ==> Midway(was, due, seen + 1, q))
    ensures was[seen] in due ==> Woken(was, due, seen + 1) == Woken(was, due, seen) + [was[seen]]
    ensures was[seen] !in due ==> Woken(was, due, seen + 1) == Woken(was, due, seen)
  {
    DroppedNext(was, seen, due);
    DroppedNext(was, seen, (set t | t in was) - due);
    SplitNext(q, Dropped(was[..seen], due), was, seen);
    assert was[seen] in was;
  }

  /** What one turn does to the lists and the times keeps the scan's description of them. */
  lemma Advanced<T>(prio: T -> int, was: seq<T>, due: set<T>, seen: nat, times: map<T, int>, readyWas: seq<T>,
                    q: seq<T>, r: seq<T>, now: map<T, int>, q': seq<T>, r': seq<T>, now': map<T, int>)
    requires Midway(was, due, seen, q) && seen < |was| && TimesKept(times, now, q) && Distinct(q)
    requires r == Readied(prio, readyWas, Woken(was, due, seen))
    requires var k, e := |Dropped(was[..seen], due)|, was[seen];
      && k < |q|
      && (e in due ==> q' == q[..k] + q[k + 1..] && r' == Inserted(More(prio), r, e) && now' == now[e := 0])
      && (e !in due ==> q' == q && r' == r && now' == now)
    ensures Midway(was, due, seen + 1, q') && TimesKept(times, now', q')
    ensures r' == Readied(prio, readyWas, Woken(was, due, seen + 1))
  {
    hide Midway, TimesKept, Distinct, Dropped, Woken, Readied, Inserted, More;
    MidwayNext(was, due, seen, q);
    TimesNext(times, now, q, |Dropped(was[..seen], due)|);
    ReadiedNext(prio, readyWas, Woken(was, due, seen), was[seen]);
  }

  lemma MidwayPlace(was: seq<ListElem>, due: set<ListElem>, seen: nat, l: List)
    requires Midway(was, due, seen, l.elems) && l.Valid()
    ensures var e := l.Nodes()[|Dropped(was[..seen], due)| + 1];
      (e == l.tail <==> seen == |was|) && (seen < |was| ==> e == was[seen])
  {
    NotAtTail(l, |Dropped(was[..seen], due)|);
  }

  lemma FirstPlace(l: List)
    requires l.Valid()
    ensures (l.Nodes()[1] == l.tail <==> l.elems == []) && (l.elems != [] ==> l.Nodes()[1] == l.elems[0])
  {
    NotAtTail(l, 0);
  }

  lemma MidwayEnds<T>(was: seq<T>, due: set<T>, seen: nat, q: seq<T>)
    requires Midway(was, due, seen, q) && seen == |was|
    ensures q == Dropped(was, due)
  {
    assert was[..|was|] == was && was[|was|..] == [] && Dropped(was, due) + [] == Dropped(was, due);
  }
}
