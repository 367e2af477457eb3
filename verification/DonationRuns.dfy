/**
 Priority donation as a transition system whose steps are the calls of lock_acquire and
 lock_release (threads/synch.c) into the donation code, each by any thread at any time: a
 tick may come between any two of them.

 A thread in lock_release is `releasing` its lock from thread_lock_remove until `holder` is
 cleared, ahead of sema_up.
 */
module DonationRuns {
  import opened Order
  import opened Donation

  datatype Phase = Removed(lock: Lock) | Refreshed(lock: Lock)

  datatype System = System(
    holder: map<Lock, Thread>,
    wait: map<Thread, Lock>,
    waiters: map<Thread, seq<Thread>>,
    prio: map<Thread, int>,
    init: map<Thread, int>,
    releasing: map<Thread, Phase>)

  /** By thread `t`: thread_lock_acquire; the rest of lock_acquire after its down has passed;
      thread_lock_remove, thread_lock_refresh and the clearing of `holder` in lock_release;
      thread_set_priority. */
  datatype Step =
    | Register(t: Thread, lock: Lock)
    | Pass(t: Thread, lock: Lock)
    | Remove(t: Thread, lock: Lock)
    | Refresh(t: Thread)
    | Clear(t: Thread, lock: Lock)
    | SetPriority(t: Thread, p: int)

  function Lookup(m: map<Thread, int>): Thread -> int { t => if t in m then m[t] else 0 }

  /** The threads on t's lock_waiter list. */
  ghost function On(s: System, t: Thread): seq<Thread> { if t in s.waiters then s.waiters[t] else [] }

  ghost predicate WaitsFor(s: System, w: Thread, lock: Lock) { w in s.wait && s.wait[w] == lock }

  ghost predicate Holds(s: System, h: Thread, lock: Lock) { lock in s.holder && s.holder[lock] == h }

  ghost predicate Busy(s: System, t: Thread) { t in s.wait || t in s.releasing }

  /** The list element of `t` is on no list. */
  ghost predicate Unlisted(s: System, t: Thread) { forall h :: h in s.waiters ==> t !in s.waiters[h] }

  /** Each list element is on one list at most, and no thread's on its own. */
  ghost predicate ListsSound(waiters: map<Thread, seq<Thread>>) {
    && (forall h :: h in waiters ==> Distinct(waiters[h]) && h !in waiters[h])
    && (forall h, w :: h in waiters && w in waiters[h] ==> w in waiters)
    && (forall h, g, w :: h in waiters && g in waiters && w in waiters[h] && w in waiters[g] ==> h == g)
  }

  /** What holds of every run; in particular a lock that is being released is still held. */
  ghost predicate Sound(s: System) {
    && s.waiters.Keys == s.prio.Keys == s.init.Keys && ListsSound(s.waiters)
    && (forall l :: l in s.holder ==> s.holder[l] in s.prio)
    && (forall h :: h in s.releasing ==> h in s.prio && h !in s.wait && Holds(s, h, s.releasing[h].lock))
  }

  ghost predicate Enabled(s: System, step: Step) {
    && step.t in s.prio
    && match step
      case Register(w, l) =>
        && !Busy(s, w) && Unlisted(s, w) && l in s.holder && s.holder[l] != w
        && !Faults(s.holder, s.wait[w := l], s.holder[l], DEPTH)
      case Pass(w, l) => w !in s.releasing && l !in s.holder && (w in s.wait ==> s.wait[w] == l)
      case Remove(h, l) => !Busy(s, h) && Holds(s, h, l)
      case Refresh(h) => h in s.releasing && s.releasing[h].Removed?
      case Clear(h, l) => h in s.releasing && s.releasing[h] == Refreshed(l)
      case SetPriority(h, _) => !Busy(s, h)
  }

  /** What a registration passes along. */
  ghost function Passed(s: System, h: Thread, w: Thread): int {
    var q := On(s, h);
    if q == [] then Lookup(s.prio)(w) else Max(Lookup(s.prio)(q[0]), Lookup(s.prio)(w))
  }

  /** Whom it is passed to. */
  ghost function Donees(s: System, w: Thread, l: Lock): (r: seq<Thread>)
    requires l in s.holder
    ensures r != [] && r[0] == s.holder[l]
  {
    Route(s.holder, s.wait[w := l], s.holder[l], DEPTH)
  }

  ghost function Waiting(s: System, h: Thread, lock: Lock): set<Thread> {
    set w | w in On(s, h) && WaitsFor(s, w, lock)
  }

  ghost function Next(s: System, step: Step): System
    requires Enabled(s, step)
  {
    match step
    case Register(w, l) =>
      var h := s.holder[l];
      s.(wait := s.wait[w := l],
         waiters := s.waiters[h := Inserted(More(Lookup(s.prio)), On(s, h), w)],
         prio := Raised(s.prio, Donees(s, w, l), Passed(s, h, w)))
    case Pass(w, l) => s.(wait := s.wait - {w}, holder := s.holder[l := w])
    case Remove(h, l) =>
      s.(waiters := s.waiters[h := Dropped(On(s, h), Waiting(s, h, l))], releasing := s.releasing[h := Removed(l)])
    case Refresh(h) =>
      Reset(s, h, Lookup(s.init)(h)).(releasing := s.releasing[h := Refreshed(s.releasing[h].lock)])
    case Clear(h, l) => s.(holder := s.holder - {l}, releasing := s.releasing - {h})
    case SetPriority(h, p) => Reset(s, h, p)
  }

  /** The thread's own priority becomes `p`, and its effective one the best of its own and its waiters'. */
  ghost function Reset(s: System, h: Thread, p: int): System {
    s.(init := s.init[h := p],
       prio := s.prio[h := Best(p, Lookup(s.prio), On(s, h))],
       waiters := s.waiters[h := Sorted(More(Lookup(s.prio)), On(s, h))])
  }

  // ----- Every run

  ghost predicate Boot(s: System) {
    && s.waiters.Keys == s.prio.Keys && s.prio == s.init && s.holder == map[] && s.wait == map[] && s.releasing == map[]
    && forall h :: h in s.waiters ==> s.waiters[h] == []
  }

  ghost predicate StepAt(states: seq<System>, steps: seq<Step>, i: nat)
    requires i < |steps| < |states|
  {
    Enabled(states[i], steps[i]) && states[i + 1] == Next(states[i], steps[i])
  }

  ghost predicate IsRun(states: seq<System>, steps: seq<Step>) {
    && |states| == |steps| + 1 && Sound(states[0])
    && forall i: nat :: i < |steps| ==> StepAt(states, steps, i)
  }

  ghost function HolderAfter(s: System, step: Step): map<Lock, Thread> {
    match step
    case Pass(w, l) => s.holder[l := w]
    case Clear(h, l) => s.holder - {l}
    case _ => s.holder
  }

  ghost function WaitAfter(s: System, step: Step): map<Thread, Lock> {
    match step
    case Register(w, l) => s.wait[w := l]
    case Pass(w, l) => s.wait - {w}
    case _ => s.wait
  }

  ghost function ReleasingAfter(s: System, step: Step): map<Thread, Phase> {
    match step
    case Remove(h, l) => s.releasing[h := Removed(l)]
    case Refresh(h) => if h in s.releasing then s.releasing[h := Refreshed(s.releasing[h].lock)] else s.releasing
    case Clear(h, l) => s.releasing - {h}
    case _ => s.releasing
  }

  lemma NextParts(s: System, step: Step)
    requires Enabled(s, step)
    ensures var s' := Next(s, step);
      && s'.holder == HolderAfter(s, step) && s'.wait == WaitAfter(s, step)
      && s'.releasing == ReleasingAfter(s, step)
  {
    hide Best, Donees, Faults, Inserted, Sorted, Dropped, More, Distinct, Passed, Lookup, Waiting, On;
  }

  lemma SortedSame(s: System, h: Thread, w: Thread)
    requires Sound(s) && h in s.waiters
    ensures var r := Sorted(More(Lookup(s.prio)), s.waiters[h]); Distinct(r) && (w in r <==> w in s.waiters[h])
  {
    MoreIsStrictWeak(Lookup(s.prio), s.waiters[h]);
    SortedMembers(More(Lookup(s.prio)), s.waiters[h]);
  }

  /** Whether `w` is on h's list after a step. */
  ghost predicate Lists(s: System, step: Step, h: Thread, w: Thread) {
    match step
    case Register(t, l) => w in On(s, h) || (w == t && Holds(s, h, l))
    case Remove(t, l) => w in On(s, h) && !(h == t && WaitsFor(s, w, l))
    case _ => w in On(s, h)
  }

  lemma ListAfter(s: System, step: Step, h: Thread, w: Thread)
    requires Sound(s) && Enabled(s, step) && h in s.waiters
    ensures var s' := Next(s, step);
      s'.waiters.Keys == s.waiters.Keys && Distinct(s'.waiters[h]) && (w in s'.waiters[h] <==> Lists(s, step, h, w))
  {
    hide Best, Donees, Faults, Inserted, Sorted, Dropped, More, Distinct, Passed, Lookup;
    match step {
      case Register(t, l) =>
        InsertedMembers(More(Lookup(s.prio)), On(s, s.holder[l]), t);
        InsertedDistinct(More(Lookup(s.prio)), On(s, s.holder[l]), t);
      case Remove(t, l) => DroppedMembers(On(s, t), Waiting(s, t, l));
      case Refresh(t) => SortedSame(s, t, w);
      case SetPriority(t, _) => SortedSame(s, t, w);
      case _ =>
    }
  }

  lemma ListsStaySound(s: System, step: Step, h: Thread, g: Thread, w: Thread)
    requires Sound(s) && Enabled(s, step) && h in s.waiters && g in s.waiters && Lists(s, step, h, w)
    ensures w in s.waiters && w != h && (Lists(s, step, g, w) ==> h == g)
  {
    hide Distinct, Faults;
  }

  lemma NextLists(s: System, step: Step)
    requires Sound(s) && Enabled(s, step)
    ensures Next(s, step).waiters.Keys == s.waiters.Keys && ListsSound(Next(s, step).waiters)
  {
    var waiters := Next(s, step).waiters;
    assert step.t in s.waiters;
    ListAfter(s, step, step.t, step.t);
    hide Next, Distinct, Lists, Enabled, Sound;
    forall h | h in waiters ensures Distinct(waiters[h]) && h !in waiters[h] {
      ListAfter(s, step, h, h);
      if Lists(s, step, h, h) {
        ListsStaySound(s, step, h, h, h);
      }
    }
    forall h, w | h in waiters && w in waiters[h] ensures w in waiters {
      ListAfter(s, step, h, w);
      ListsStaySound(s, step, h, h, w);
    }
    forall h, g, w | h in waiters && g in waiters && w in waiters[h] && w in waiters[g] ensures h == g {
      ListAfter(s, step, h, w);
      ListAfter(s, step, g, w);
      ListsStaySound(s, step, h, g, w);
    }
  }

  lemma NextKeys(s: System, step: Step)
    requires Sound(s) && Enabled(s, step)
    ensures var s' := Next(s, step); s'.waiters.Keys == s'.prio.Keys == s'.init.Keys == s.prio.Keys == s.waiters.Keys
  {
    hide Best, Donees, Faults, Inserted, Sorted, Dropped, More, ListsSound;
  }

  /** A lock changes hands only when its holder, releasing it, clears it and another thread passes. */
  lemma HoldersStaySound(s: System, step: Step, h: Thread, l: Lock)
    requires Sound(s) && Enabled(s, step)
    ensures var holder, wait, releasing := HolderAfter(s, step), WaitAfter(s, step), ReleasingAfter(s, step);
      && (l in holder ==> holder[l] in s.prio)
      && (h in releasing ==> h in s.prio && h !in wait && releasing[h].lock in holder && holder[releasing[h].lock] == h)
  {
    hide ListsSound, Faults, Unlisted;
  }

  lemma NextSound(s: System, step: Step)
    requires Sound(s) && Enabled(s, step)
    ensures Sound(Next(s, step))
  {
    var s' := Next(s, step);
    NextLists(s, step);
    NextKeys(s, step);
    NextParts(s, step);
    hide Next, ListsSound, Enabled, HolderAfter, WaitAfter, ReleasingAfter;
    forall l | l in s'.holder ensures s'.holder[l] in s'.prio {
      HoldersStaySound(s, step, step.t, l);
    }
    forall h | h in s'.releasing ensures h in s'.prio && h !in s'.wait && Holds(s', h, s'.releasing[h].lock) {
      HoldersStaySound(s, step, h, s'.releasing[h].lock);
    }
  }

  lemma {:induction false} RunSound(states: seq<System>, steps: seq<Step>, k: nat)
    requires IsRun(states, steps) && k < |states|
    ensures Sound(states[k])
  {
    hide Sound, Next, Enabled;
    if k > 0 {
      RunSound(states, steps, k - 1);
      assert StepAt(states, steps, k - 1);
      NextSound(states[k - 1], steps[k - 1]);
    }
  }

  // ----- Who is registered with a thread waits for a lock which that thread holds

  ghost predicate RegisteredAt(s: System, h: Thread) {
    forall w :: w in On(s, h) ==> w in s.wait && Holds(s, h, s.wait[w])
  }

  ghost predicate Registered(s: System) { forall h :: h in s.waiters ==> RegisteredAt(s, h) }

  /** A thread that waits for `lock` is on h's list. */
  ghost predicate Late(s: System, h: Thread, lock: Lock) {
    exists w :: w in On(s, h) && WaitsFor(s, w, lock)
  }

  lemma EntryStep(s: System, step: Step, h: Thread, w: Thread)
    requires Sound(s) && Enabled(s, step) && h in s.waiters && Lists(s, step, h, w)
    requires w in On(s, h) ==> w in s.wait && Holds(s, h, s.wait[w])
    requires step.Clear? && step.t == h ==> !WaitsFor(s, w, step.lock)
    ensures var wait, holder := WaitAfter(s, step), HolderAfter(s, step);
      w in wait && wait[w] in holder && holder[wait[w]] == h
  {
    hide ListsSound, Faults;
  }

  /** Only clearing a lock's holder can break this, and does so exactly if one of its waiters is listed. */
  lemma RegisteredStep(s: System, step: Step, h: Thread)
    requires Sound(s) && Enabled(s, step) && h in s.waiters && RegisteredAt(s, h)
    ensures RegisteredAt(Next(s, step), h) <==> !(step.Clear? && step.t == h && Late(s, h, step.lock))
  {
    hide Faults, ListsSound, Unlisted;
    var s' := Next(s, step);
    NextParts(s, step);
    ListAfter(s, step, h, h);
    if step.Clear? && step.t == h && Late(s, h, step.lock) {
      var w :| w in On(s, h) && WaitsFor(s, w, step.lock);
      ListAfter(s, step, h, w);
      hide Next, Sound, Enabled;
      assert w in On(s', h) && s'.wait[w] !in s'.holder;
    } else {
      hide Next, Sound, Enabled, WaitAfter, HolderAfter;
      forall w | w in On(s', h) ensures w in s'.wait && Holds(s', h, s'.wait[w]) {
        ListAfter(s, step, h, w);
        EntryStep(s, step, h, w);
      }
    }
  }

  predicate Registers(step: Step, lock: Lock) { step.Register? && step.lock == lock }

  lemma LateEntryStep(s: System, step: Step, h: Thread, lock: Lock, w: Thread)
    requires Sound(s) && Enabled(s, step) && Holds(s, h, lock) && (step.t == h ==> step.Refresh?)
    ensures var wait := WaitAfter(s, step);
      Lists(s, step, h, w) && w in wait && wait[w] == lock
      <==> (w in On(s, h) && WaitsFor(s, w, lock)) || (Registers(step, lock) && w == step.t)
  {
    hide ListsSound, Faults;
  }

  /** While `h` holds `lock`, a waiter of it gets on h's list by registering, and none gets off. */
  lemma LateStep(s: System, step: Step, h: Thread, lock: Lock)
    requires Sound(s) && Enabled(s, step) && Holds(s, h, lock) && (step.t == h ==> step.Refresh?)
    ensures Late(Next(s, step), h, lock) <==> Late(s, h, lock) || Registers(step, lock)
  {
    var s' := Next(s, step);
    assert h in s.waiters;
    NextParts(s, step);
    ListAfter(s, step, h, h);
    hide Next, Sound, Enabled, WaitAfter, Lists;
    forall w ensures w in On(s', h) && WaitsFor(s', w, lock)
      <==> (w in On(s, h) && WaitsFor(s, w, lock)) || (Registers(step, lock) && w == step.t)
    {
      ListAfter(s, step, h, w);
      LateEntryStep(s, step, h, lock, w);
    }
    if Registers(step, lock) {
      assert step.t in On(s', h) && WaitsFor(s', step.t, lock);
    }
    if Late(s, h, lock) {
      var w :| w in On(s, h) && WaitsFor(s, w, lock);
      assert w in On(s', h) && WaitsFor(s', w, lock);
    }
  }

  // ----- The window between thread_lock_remove and the clearing of `holder`

  /** Steps `i` and `j` begin and end a thread's release of a lock. */
  ghost predicate Window(steps: seq<Step>, i: nat, j: nat) {
    && i < j < |steps| && steps[i].Remove? && steps[j] == Clear(steps[i].t, steps[i].lock)
    && forall m :: i < m < j && steps[m].t == steps[i].t ==> steps[m].Refresh?
  }

  /** Step `k` registers a waiter of the lock that is being released in the window. */
  ghost predicate RegistersIn(steps: seq<Step>, i: nat, k: nat, j: nat) {
    Window(steps, i, j) && i < k < j && Registers(steps[k], steps[i].lock)
  }

  ghost predicate Releases(s: System, h: Thread, lock: Lock) { h in s.releasing && s.releasing[h].lock == lock }

  /** thread_lock_remove leaves no waiter of the lock on the list, and until `holder` is cleared the
      thread itself only refreshes. */
  lemma RemoveStep(s: System, step: Step)
    requires Sound(s) && Enabled(s, step) && step.Remove?
    ensures Releases(Next(s, step), step.t, step.lock) && !Late(Next(s, step), step.t, step.lock)
  {
    var s' := Next(s, step);
    NextParts(s, step);
    forall w ensures !(w in On(s', step.t) && WaitsFor(s', w, step.lock)) {
      ListAfter(s, step, step.t, w);
    }
  }

  lemma ReleasesStep(s: System, step: Step, h: Thread, lock: Lock)
    requires Sound(s) && Enabled(s, step) && Releases(s, h, lock)
    ensures Releases(Next(s, step), h, lock) <==> !(step == Clear(h, lock))
    ensures step.t == h ==> step.Refresh? || step == Clear(h, lock)
    ensures Holds(s, h, lock)
  {
    NextParts(s, step);
    hide Next, Faults;
  }

  lemma NotReleasing(s: System, step: Step, h: Thread)
    requires Enabled(s, step) && h in Next(s, step).releasing
    ensures h in s.releasing || (step.Remove? && step.t == h)
    ensures h in s.releasing ==> s.releasing[h].lock == Next(s, step).releasing[h].lock
  {
    NextParts(s, step);
    hide Next, Faults;
  }

  /** Within a window the lock stays held, and its listed waiters are those that registered in it. */
  lemma {:induction false} InWindow(states: seq<System>, steps: seq<Step>, i: nat, j: nat, m: nat)
    requires IsRun(states, steps) && Window(steps, i, j) && i < m <= j
    ensures Sound(states[m]) && Releases(states[m], steps[i].t, steps[i].lock)
    ensures Late(states[m], steps[i].t, steps[i].lock) <==> exists k :: i < k < m && RegistersIn(steps, i, k, j)
  {
    hide Next, Sound, Late, Releases, Enabled, Holds;
    var h, l := steps[i].t, steps[i].lock;
    RunSound(states, steps, m - 1);
    RunSound(states, steps, m);
    var s, step := states[m - 1], steps[m - 1];
    assert StepAt(states, steps, m - 1);
    if m == i + 1 {
      RemoveStep(s, step);
    } else {
      InWindow(states, steps, i, j, m - 1);
      assert step.t == h ==> step.Refresh?;
      ReleasesStep(s, step, h, l);
      LateStep(s, step, h, l);
      hide IsRun;
      assert Registers(step, l) <==> RegistersIn(steps, i, m - 1, j);
    }
  }

  /** A thread that is releasing a lock began to at some step. */
  lemma {:induction false} WindowBegins(states: seq<System>, steps: seq<Step>, h: Thread, j: nat) returns (i: nat)
    requires IsRun(states, steps) && states[0].releasing == map[] && j < |states| && h in states[j].releasing
    ensures i < j && steps[i] == Remove(h, states[j].releasing[h].lock)
    ensures forall m :: i < m < j && steps[m].t == h ==> steps[m].Refresh?
  {
    var s, step := states[j - 1], steps[j - 1];
    RunSound(states, steps, j - 1);
    assert StepAt(states, steps, j - 1);
    NotReleasing(s, step, h);
    if step.Remove? && step.t == h {
      i := j - 1;
      RemoveStep(s, step);
    } else {
      i := WindowBegins(states, steps, h, j - 1);
      ReleasesStep(s, step, h, s.releasing[h].lock);
    }
  }

  ghost predicate AlwaysRegistered(states: seq<System>) { forall k :: 0 <= k < |states| ==> Registered(states[k]) }

  ghost predicate NoneInWindows(steps: seq<Step>) { forall i: nat, k: nat, j: nat :: !RegistersIn(steps, i, k, j) }

  /** In a run from boot, whoever is on a list waits for a lock which that list's thread holds, at
      every moment, exactly if no thread registers for a lock while it is being released. */
  lemma RegisteredIff(states: seq<System>, steps: seq<Step>)
    requires IsRun(states, steps) && Registered(states[0]) && states[0].releasing == map[]
    ensures AlwaysRegistered(states) <==> NoneInWindows(steps)
  {
    if NoneInWindows(steps) {
      forall k | 0 <= k < |states| ensures Registered(states[k]) {
        StaysRegistered(states, steps, k);
      }
    }
    if AlwaysRegistered(states) {
      forall i: nat, k: nat, j: nat ensures !RegistersIn(steps, i, k, j) {
        if RegistersIn(steps, i, k, j) {
          WindowBreaks(states, steps, i, k, j);
        }
      }
    }
  }

  lemma WindowBreaks(states: seq<System>, steps: seq<Step>, i: nat, k: nat, j: nat)
    requires IsRun(states, steps) && RegistersIn(steps, i, k, j)
    ensures !(Registered(states[j]) && Registered(states[j + 1]))
  {
    var h := steps[i].t;
    InWindow(states, steps, i, j, j);
    assert StepAt(states, steps, j);
    NextKeys(states[j], steps[j]);
    hide Next, Late;
    if Registered(states[j]) {
      RegisteredStep(states[j], steps[j], h);
    }
  }

  lemma RegisteredNext(s: System, step: Step)
    requires Sound(s) && Enabled(s, step) && Registered(s) && (step.Clear? ==> !Late(s, step.t, step.lock))
    ensures Registered(Next(s, step))
  {
    NextKeys(s, step);
    hide Next, Late, RegisteredAt;
    forall h | h in Next(s, step).waiters ensures RegisteredAt(Next(s, step), h) {
      RegisteredStep(s, step, h);
    }
  }

  lemma ClearReleases(s: System, step: Step)
    requires Enabled(s, step) && step.Clear?
    ensures step.t in s.releasing && s.releasing[step.t].lock == step.lock
  {
  }

  /** Without registrations in windows, no waiter of the lock is listed when its holder is cleared. */
  lemma ClearClean(states: seq<System>, steps: seq<Step>, k: nat)
    requires IsRun(states, steps) && states[0].releasing == map[] && NoneInWindows(steps)
    requires k < |steps| && steps[k].Clear?
    ensures !Late(states[k], steps[k].t, steps[k].lock)
  {
    hide Next, Late, Enabled, Sound;
    assert StepAt(states, steps, k);
    ClearReleases(states[k], steps[k]);
    var i := WindowBegins(states, steps, steps[k].t, k);
    assert Window(steps, i, k);
    InWindow(states, steps, i, k, k);
  }

  lemma {:induction false} StaysRegistered(states: seq<System>, steps: seq<Step>, k: nat)
    requires IsRun(states, steps) && Registered(states[0]) && states[0].releasing == map[] && NoneInWindows(steps)
    requires k < |states|
    ensures Registered(states[k])
  {
    if k > 0 {
      hide Next, Registered, Sound, Late, Enabled;
      StaysRegistered(states, steps, k - 1);
      var s, step := states[k - 1], steps[k - 1];
      RunSound(states, steps, k - 1);
      assert StepAt(states, steps, k - 1);
      if step.Clear? {
        ClearClean(states, steps, k - 1);
      }
      RegisteredNext(s, step);
    }
  }

  // ----- Whose priority is right

  /** t's priority is the best of its own and those of the threads on its list. */
  ghost predicate PrioRight(s: System, t: Thread) {
    Lookup(s.prio)(t) == Best(Lookup(s.init)(t), Lookup(s.prio), On(s, t))
  }

  lemma BestUnique(init: int, prio: Thread -> int, q: seq<Thread>, p: int)
    requires p >= init && forall t :: t in q ==> p >= prio(t)
    requires p == init || exists t :: t in q && prio(t) == p
    ensures p == Best(init, prio, q)
  {
    var best := Best(init, prio, q);
    assert best != init ==> exists t :: t in q && prio(t) == best;
  }

  lemma BestIff(init: int, prio: Thread -> int, q: seq<Thread>, p: int)
    ensures p == Best(init, prio, q) <==>
      p >= init && (forall t :: t in q ==> prio(t) <= p) && (p == init || exists t :: t in q && prio(t) == p)
  {
    var best := Best(init, prio, q);
    if p == best {
      assert forall t :: t in q ==> exists i :: 0 <= i < |q| && q[i] == t;
    } else if p >= init && (forall t :: t in q ==> prio(t) <= p) && (p == init || exists t :: t in q && prio(t) == p) {
      BestUnique(init, prio, q, p);
    }
  }

  lemma {:induction false} BestSame(init: int, prio: Thread -> int, prio': Thread -> int, q: seq<Thread>)
    requires forall t :: t in q ==> prio(t) == prio'(t)
    ensures Best(init, prio, q) == Best(init, prio', q)
  {
    if q != [] {
      BestSame(init, prio, prio', q[..|q| - 1]);
    }
  }

  /** A step whose donation reaches `h` or a thread on its list. */
  ghost predicate Reaches(s: System, step: Step, h: Thread) {
    && step.Register? && step.lock in s.holder
    && exists t :: t in Donees(s, step.t, step.lock) && (t == h || t in On(s, h))
  }

  /** Steps that change the thread's own list or priority. */
  ghost predicate Rebuilds(step: Step) { step.Remove? || step.Refresh? || step.SetPriority? }

  lemma PrioSame(s: System, step: Step, h: Thread, t: Thread)
    requires Sound(s) && Enabled(s, step) && !Reaches(s, step, h) && !(step.t == h && Rebuilds(step))
    requires h in s.prio && RegisteredAt(s, h) && (t == h || t in On(s, h))
    ensures Lookup(Next(s, step).prio)(t) == Lookup(s.prio)(t)
  {
    assert t in s.prio && (t != h ==> t in s.wait);
    hide Best, Inserted, Sorted, Dropped, More, Distinct, ListsSound, Passed, Waiting, Faults, Donees;
  }

  lemma ListSame(s: System, step: Step, h: Thread)
    requires Sound(s) && Enabled(s, step) && !Reaches(s, step, h) && !(step.t == h && Rebuilds(step)) && h in s.prio
    ensures On(Next(s, step), h) == On(s, h) && Lookup(Next(s, step).init)(h) == Lookup(s.init)(h)
  {
    hide Best, Inserted, Sorted, Dropped, More, Distinct, ListsSound, Passed, Waiting, Faults, Donees;
    if step.Register? {
      assert Donees(s, step.t, step.lock)[0] in Donees(s, step.t, step.lock);
    }
  }

  /** Steps that do not reach `h` leave its priority as right as it was, unless they are its own
      removals, refreshes and new priorities. */
  lemma PrioStep(s: System, step: Step, h: Thread)
    requires Sound(s) && Enabled(s, step) && !Reaches(s, step, h) && !(step.t == h && Rebuilds(step))
    requires h in s.prio && RegisteredAt(s, h)
    ensures PrioRight(Next(s, step), h) <==> PrioRight(s, h)
  {
    var s' := Next(s, step);
    ListSame(s, step, h);
    forall t | t == h || t in On(s, h) ensures Lookup(s'.prio)(t) == Lookup(s.prio)(t) {
      PrioSame(s, step, h, t);
    }
    hide Next, Sound, Enabled, Reaches, Lookup;
    BestSame(Lookup(s.init)(h), Lookup(s.prio), Lookup(s'.prio), On(s, h));
  }

  /** thread_lock_refresh and thread_set_priority make it right. */
  lemma ResetRight(s: System, h: Thread, p: int)
    requires Sound(s) && h in s.prio
    ensures PrioRight(Reset(s, h, p), h)
  {
    hide Best, Sorted, More, Distinct;
    var s', q, best := Reset(s, h, p), On(s, h), Best(p, Lookup(s.prio), On(s, h));
    forall t ensures t in On(s', h) <==> t in q {
      SortedSame(s, h, t);
    }
    assert Lookup(s'.prio)(h) == best && Lookup(s'.init)(h) == p;
    assert forall t :: t in q ==> Lookup(s'.prio)(t) == Lookup(s.prio)(t);
    hide Reset, Lookup;
    BestIff(p, Lookup(s.prio), q, best);
    BestIff(p, Lookup(s'.prio), On(s', h), best);
  }

  lemma RefreshRight(s: System, h: Thread)
    requires Sound(s) && Enabled(s, Refresh(h))
    ensures PrioRight(Next(s, Refresh(h)), h)
  {
    hide Best, Reset, More, Distinct;
    ResetRight(s, h, Lookup(s.init)(h));
  }

  /** In a window no step breaks the list's invariant until `holder` is cleared. */
  lemma {:induction false} WindowRegistered(states: seq<System>, steps: seq<Step>, i: nat, j: nat, m: nat)
    requires IsRun(states, steps) && Window(steps, i, j) && i <= m <= j && RegisteredAt(states[i], steps[i].t)
    ensures RegisteredAt(states[m], steps[i].t) && steps[i].t in states[m].waiters
  {
    hide Next, Sound, Late, Enabled, RegisteredAt;
    RunSound(states, steps, i);
    assert StepAt(states, steps, i);
    ActorKnown(states[i], steps[i]);
    if m > i {
      WindowRegistered(states, steps, i, j, m - 1);
      RunSound(states, steps, m - 1);
      assert StepAt(states, steps, m - 1);
      NextKeys(states[m - 1], steps[m - 1]);
      assert !(steps[m - 1].Clear? && steps[m - 1].t == steps[i].t);
      RegisteredStep(states[m - 1], steps[m - 1], steps[i].t);
    }
  }

  lemma ActorKnown(s: System, step: Step)
    requires Enabled(s, step) && Sound(s)
    ensures step.t in s.waiters && s.waiters.Keys == s.prio.Keys
  {
  }

  /** The priority of `t` after w's registration for `l`. */
  ghost function Given(s: System, w: Thread, l: Lock, t: Thread): int
    requires l in s.holder
  {
    if t in Donees(s, w, l) then Passed(s, s.holder[l], w) else Lookup(s.prio)(t)
  }

  /** What makes w's registration for `l` come out right for `d`: d's priority is not below its own or
      that of one of its waiters so far, and is one of these unless `d` is the lock's holder. */
  ghost predicate Fits(s: System, w: Thread, l: Lock, d: Thread)
    requires l in s.holder
  {
    var p := Given(s, w, l, d);
    && p >= Lookup(s.init)(d) && (forall t :: t in On(s, d) ==> Given(s, w, l, t) <= p)
    && (d == s.holder[l] || p == Lookup(s.init)(d) || exists t :: t in On(s, d) && Given(s, w, l, t) == p)
  }

  lemma {:induction false} RouteKnown(holders: map<Lock, Thread>, waits: map<Thread, Lock>, h: Thread, n: nat,
                                      t: Thread)
    requires t in Route(holders, waits, h, n)
    ensures t == h || exists l :: l in holders && holders[l] == t
  {
    FollowNone(holders, waits, h);
    if n > 0 && t != h {
      FollowOne(holders, waits, h, n);
      RouteKnown(holders, waits, holders[waits[h]], n - 1, t);
    }
  }

  lemma GivenAfter(s: System, w: Thread, l: Lock, t: Thread)
    requires Sound(s) && Enabled(s, Register(w, l))
    ensures Lookup(Next(s, Register(w, l)).prio)(t) == Given(s, w, l, t)
  {
    hide Best, Inserted, Sorted, Dropped, More, Distinct, ListsSound, Passed, Waiting, Faults, Route, On;
    if t in Donees(s, w, l) {
      RouteKnown(s.holder, s.wait[w := l], s.holder[l], DEPTH, t);
    }
  }

  /** The newcomer or the first waiter has what is passed along, and the newcomer no more. */
  lemma NewcomerFits(s: System, w: Thread, l: Lock)
    requires Sound(s) && Enabled(s, Register(w, l))
    ensures var h := s.holder[l];
      && Given(s, w, l, h) == Passed(s, h, w) >= Given(s, w, l, w)
      && (Given(s, w, l, w) == Passed(s, h, w) || exists t :: t in On(s, h) && Given(s, w, l, t) == Passed(s, h, w))
  {
    var h := s.holder[l];
    assert Donees(s, w, l)[0] in Donees(s, w, l);
    assert On(s, h) != [] ==> On(s, h)[0] in On(s, h);
    hide Sound, Enabled, Donees, On;
  }

  lemma ListGrows(s: System, w: Thread, l: Lock, d: Thread)
    requires Sound(s) && Enabled(s, Register(w, l)) && d in s.prio
    ensures var s' := Next(s, Register(w, l));
      && Lookup(s'.init)(d) == Lookup(s.init)(d)
      && forall t :: t in On(s', d) <==> t in On(s, d) || (d == s.holder[l] && t == w)
  {
    var s' := Next(s, Register(w, l));
    forall t ensures t in On(s', d) <==> t in On(s, d) || (d == s.holder[l] && t == w) {
      ListAfter(s, Register(w, l), d, t);
    }
    hide Best, Inserted, Sorted, Dropped, More, Distinct, ListsSound, Passed, Waiting, Faults, Donees;
  }

  /** A registration leaves the priority of a thread right, wherever the thread stands along the chain
      and whatever the order of its waiters, exactly if it fits. */
  lemma DonationRightIff(s: System, w: Thread, l: Lock, d: Thread)
    requires Sound(s) && Enabled(s, Register(w, l)) && d in s.prio
    ensures PrioRight(Next(s, Register(w, l)), d) <==> Fits(s, w, l, d)
  {
    var s', h := Next(s, Register(w, l)), s.holder[l];
    forall t ensures Lookup(s'.prio)(t) == Given(s, w, l, t) {
      GivenAfter(s, w, l, t);
    }
    ListGrows(s, w, l, d);
    NewcomerFits(s, w, l);
    hide Best, Next, Sound, Enabled, On, Given, Lookup, Passed;
    BestIff(Lookup(s'.init)(d), Lookup(s'.prio), On(s', d), Given(s, w, l, d));
  }

  /** For a thread that the donation reaches: what is passed along is not below its own priority or
      that of a waiter which the donation does not reach. */
  lemma ReachedFits(s: System, w: Thread, l: Lock, d: Thread)
    requires l in s.holder && d in Donees(s, w, l)
    ensures var p, ds := Passed(s, s.holder[l], w), Donees(s, w, l);
      Fits(s, w, l, d) <==>
        && p >= Lookup(s.init)(d) && (forall t :: t in On(s, d) && t !in ds ==> Lookup(s.prio)(t) <= p)
        && (d == s.holder[l] || p == Lookup(s.init)(d)
            || exists t :: t in On(s, d) && (t in ds || Lookup(s.prio)(t) == p))
  {
    hide Donees, Passed, On, Lookup;
  }

  // ----- Over whole runs

  /** Between thread_lock_remove and thread_lock_refresh a priority may be out of date. */
  ghost predicate Settled(s: System, h: Thread) { h in s.prio && !(h in s.releasing && s.releasing[h].Removed?) }

  ghost predicate AllRight(s: System) { forall h :: h in s.prio && Settled(s, h) ==> PrioRight(s, h) }

  ghost predicate ReachFits(s: System, step: Step, d: Thread) {
    Reaches(s, step, d) ==> Fits(s, step.t, step.lock, d)
  }

  ghost predicate FitsFor(s: System, step: Step, d: Thread) {
    Settled(s, d) ==> ReachFits(s, step, d)
  }

  ghost predicate FitsAll(s: System, step: Step) { forall d :: d in s.prio ==> FitsFor(s, step, d) }

  lemma PhaseSame(s: System, step: Step, h: Thread)
    requires Sound(s) && Enabled(s, step) && !(step.t == h && (step.Remove? || step.Refresh?))
    ensures Settled(Next(s, step), h) <==> Settled(s, h)
  {
    NextKeys(s, step);
    NextParts(s, step);
    hide Next, Faults, ListsSound;
  }

  lemma UnsettledBy(s: System, step: Step)
    requires Sound(s) && Enabled(s, step) && step.Remove?
    ensures !Settled(Next(s, step), step.t)
  {
    NextParts(s, step);
  }

  lemma SetPriorityRight(s: System, step: Step)
    requires Sound(s) && Enabled(s, step) && step.SetPriority?
    ensures PrioRight(Next(s, step), step.t)
  {
    hide Best, Reset, More, Distinct;
    ResetRight(s, step.t, step.p);
  }

  /** What a step does to the priority of a thread that is settled after it. */
  lemma RightAfter(s: System, step: Step, h: Thread)
    requires Sound(s) && Enabled(s, step) && Registered(s) && AllRight(s) && Settled(Next(s, step), h)
    ensures PrioRight(Next(s, step), h) <==> FitsFor(s, step, h)
  {
    hide Next, Sound, PrioRight, Enabled, Registered;
    if step.t == h && step.Refresh? {
      RefreshRight(s, h);
    } else if step.t == h && step.SetPriority? {
      SetPriorityRight(s, step);
    } else if step.t == h && step.Remove? {
      UnsettledBy(s, step);
    } else {
      PhaseSame(s, step, h);
      if Reaches(s, step, h) {
        DonationRightIff(s, step.t, step.lock, h);
      } else {
        AtList(s, h);
        PrioStep(s, step, h);
      }
    }
  }

  lemma AtList(s: System, h: Thread)
    requires Sound(s) && Registered(s) && h in s.prio
    ensures RegisteredAt(s, h)
  {
  }

  lemma FitsUnsettled(s: System, step: Step, h: Thread)
    requires Sound(s) && Enabled(s, step) && h in s.prio && !Settled(Next(s, step), h)
    ensures FitsFor(s, step, h)
  {
    hide Faults, ListsSound, Next, Fits;
    if step.Register? {
      PhaseSame(s, step, h);
    }
  }

  lemma AllRightStep(s: System, step: Step)
    requires Sound(s) && Enabled(s, step) && Registered(s) && AllRight(s)
    ensures AllRight(Next(s, step)) <==> FitsAll(s, step)
  {
    NextKeys(s, step);
    hide Next, Sound, PrioRight, Enabled, Registered, FitsFor, Settled;
    forall h | h in s.prio
      ensures FitsFor(s, step, h) <==> (Settled(Next(s, step), h) ==> PrioRight(Next(s, step), h))
    {
      if Settled(Next(s, step), h) {
        RightAfter(s, step, h);
      } else {
        FitsUnsettled(s, step, h);
      }
    }
  }

  ghost predicate AlwaysRight(states: seq<System>) { forall k :: 0 <= k < |states| ==> AllRight(states[k]) }

  ghost predicate AlwaysFits(states: seq<System>, steps: seq<Step>)
    requires |states| == |steps| + 1
  {
    forall k :: 0 <= k < |steps| ==> FitsAll(states[k], steps[k])
  }

  /** In a run from boot without a registration in a release window, every thread that is not between
      its removal and its refresh always has the best of its own priority and its waiters', exactly if
      every registration fits for all of these that it reaches. */
  lemma AlwaysRightIff(states: seq<System>, steps: seq<Step>)
    requires IsRun(states, steps) && Boot(states[0]) && NoneInWindows(steps)
    ensures AlwaysRight(states) <==> AlwaysFits(states, steps)
  {
    hide Next, Sound, Enabled, Registered, AllRight, FitsAll;
    BootRight(states[0]);
    RegisteredIff(states, steps);
    if AlwaysRight(states) {
      forall k | 0 <= k < |steps| ensures FitsAll(states[k], steps[k]) {
        RunSound(states, steps, k);
        assert StepAt(states, steps, k);
        AllRightStep(states[k], steps[k]);
      }
    }
    if AlwaysFits(states, steps) {
      forall k | 0 <= k < |states| ensures AllRight(states[k]) {
        StaysRight(states, steps, k);
      }
    }
  }

  lemma BootRight(s: System)
    requires Boot(s)
    ensures Registered(s) && AllRight(s) && s.releasing == map[]
  {
  }

  lemma RightNext(states: seq<System>, steps: seq<Step>, k: nat)
    requires IsRun(states, steps) && AlwaysRegistered(states) && AlwaysFits(states, steps) && k < |steps|
    requires AllRight(states[k])
    ensures AllRight(states[k + 1])
  {
    hide Next, Sound, Enabled, Registered, FitsAll, AllRight;
    RunSound(states, steps, k);
    assert StepAt(states, steps, k) && Registered(states[k]) && FitsAll(states[k], steps[k]);
    AllRightStep(states[k], steps[k]);
  }

  lemma {:induction false} StaysRight(states: seq<System>, steps: seq<Step>, k: nat)
    requires IsRun(states, steps) && AllRight(states[0]) && AlwaysRegistered(states) && AlwaysFits(states, steps)
    requires k < |states|
    ensures AllRight(states[k])
  {
    if k > 0 {
      hide AllRight, AlwaysRegistered, AlwaysFits, IsRun;
      StaysRight(states, steps, k - 1);
      RightNext(states, steps, k - 1);
    }
  }

  // ----- At the up of a release

  /** In the window the thread refreshes once. */
  lemma {:induction false} RefreshesOnce(states: seq<System>, steps: seq<Step>, i: nat, r: nat, j: nat, m: nat)
    requires IsRun(states, steps) && Window(steps, i, j) && i < r < m <= j && steps[r] == Refresh(steps[i].t)
    ensures steps[i].t in states[m].releasing && states[m].releasing[steps[i].t].Refreshed?
    ensures m < j ==> steps[m].t != steps[i].t
  {
    hide Next, Sound, Faults;
    var h := steps[i].t;
    assert StepAt(states, steps, m - 1) && (m < j ==> StepAt(states, steps, m));
    NextParts(states[m - 1], steps[m - 1]);
    if m > r + 1 {
      RefreshesOnce(states, steps, i, r, j, m - 1);
    }
  }

  /** Step `k` is the last before step `m`, since step `r`, whose donation reaches `h` or one of its waiters. */
  ghost predicate LastReach(states: seq<System>, steps: seq<Step>, h: Thread, r: nat, k: nat, m: nat)
    requires m < |states| == |steps| + 1
  {
    r < k < m && Reaches(states[k], steps[k], h) && forall n :: k < n < m ==> !Reaches(states[n], steps[n], h)
  }

  /** That donation, if there is one, fitted. */
  ghost predicate LastFits(states: seq<System>, steps: seq<Step>, h: Thread, r: nat, m: nat)
    requires m < |states| == |steps| + 1
  {
    forall k: nat :: LastReach(states, steps, h, r, k, m) ==> ReachFits(states[k], steps[k], h)
  }

  lemma LastFitsStep(states: seq<System>, steps: seq<Step>, h: Thread, r: nat, m: nat)
    requires r < m < |steps| && |states| == |steps| + 1
    ensures LastFits(states, steps, h, r, m + 1) <==>
      if Reaches(states[m], steps[m], h) then ReachFits(states[m], steps[m], h)
      else LastFits(states, steps, h, r, m)
  {
    hide Reaches, ReachFits;
    if Reaches(states[m], steps[m], h) {
      assert LastReach(states, steps, h, r, m, m + 1);
      forall k: nat | LastReach(states, steps, h, r, k, m + 1) && ReachFits(states[m], steps[m], h)
        ensures ReachFits(states[k], steps[k], h)
      {
        assert k <= m;
      }
    } else {
      assert forall k: nat :: LastReach(states, steps, h, r, k, m + 1) <==> LastReach(states, steps, h, r, k, m);
    }
  }

  lemma {:induction false} WindowPrioIff(states: seq<System>, steps: seq<Step>, i: nat, r: nat, j: nat, m: nat)
    requires IsRun(states, steps) && Window(steps, i, j) && i < r < m <= j && steps[r] == Refresh(steps[i].t)
    requires RegisteredAt(states[i], steps[i].t)
    ensures PrioRight(states[m], steps[i].t) <==> LastFits(states, steps, steps[i].t, r, m)
  {
    hide Next, Sound, Late, Enabled, RegisteredAt, PrioRight, Reaches, ReachFits, LastFits;
    var h := steps[i].t;
    RunSound(states, steps, m - 1);
    assert StepAt(states, steps, m - 1);
    var s, step := states[m - 1], steps[m - 1];
    if m == r + 1 {
      RefreshRight(s, h);
      NoneSince(states, steps, h, r);
    } else {
      WindowPrioIff(states, steps, i, r, j, m - 1);
      WindowRegistered(states, steps, i, j, m - 1);
      RefreshesOnce(states, steps, i, r, j, m - 1);
      LastFitsStep(states, steps, h, r, m - 1);
      ActorKnown(s, step);
      PrioAfter(s, step, h);
    }
  }

  lemma NoneSince(states: seq<System>, steps: seq<Step>, h: Thread, r: nat)
    requires r + 1 < |states| == |steps| + 1
    ensures LastFits(states, steps, h, r, r + 1)
  {
  }

  lemma PrioAfter(s: System, step: Step, h: Thread)
    requires Sound(s) && Enabled(s, step) && step.t != h && h in s.prio && RegisteredAt(s, h)
    ensures PrioRight(Next(s, step), h) <==>
      if Reaches(s, step, h) then ReachFits(s, step, h) else PrioRight(s, h)
  {
    if Reaches(s, step, h) {
      DonationRightIff(s, step.t, step.lock, h);
    } else {
      PrioStep(s, step, h);
    }
  }

  lemma ClearKeepsPrio(s: System, h: Thread, lock: Lock)
    requires Enabled(s, Clear(h, lock))
    ensures PrioRight(Next(s, Clear(h, lock)), h) <==> PrioRight(s, h)
  {
  }

  /** When lock_release comes to its up, the caller's list holds waiters of its other locks alone
      exactly if nobody registered for the lock between thread_lock_remove and the clearing of
      `holder`, and its priority is the best of its own and theirs exactly if the last donation
      since the refresh that reached the caller or one of them, if any did, fitted. */
  lemma ReleaseIff(states: seq<System>, steps: seq<Step>, i: nat, r: nat, j: nat)
    requires IsRun(states, steps) && Window(steps, i, j) && i < r < j && steps[r] == Refresh(steps[i].t)
    requires RegisteredAt(states[i], steps[i].t)
    ensures RegisteredAt(states[j + 1], steps[i].t) <==> forall k: nat :: !RegistersIn(steps, i, k, j)
    ensures PrioRight(states[j + 1], steps[i].t) <==> LastFits(states, steps, steps[i].t, r, j)
  {
    hide Next, Sound, Enabled, RegisteredAt, PrioRight, LastFits, Late;
    var h := steps[i].t;
    InWindow(states, steps, i, j, j);
    WindowRegistered(states, steps, i, j, j);
    assert StepAt(states, steps, j);
    RegisteredStep(states[j], steps[j], h);
    WindowPrioIff(states, steps, i, r, j, j);
    ClearKeepsPrio(states[j], h, steps[i].lock);
  }

  // ----- Runs from boot

  /** The states after the steps, one after the other. */
  ghost function Play(s: System, steps: seq<Step>): (states: seq<System>)
    ensures |states| == |steps| + 1 && states[0] == s
  {
    if steps == [] then [s]
    else
      var most := Play(s, steps[..|steps| - 1]);
      var last, step := most[|most| - 1], steps[|steps| - 1];
      most + [if Enabled(last, step) then Next(last, step) else last]
  }

  lemma BootIsRun(s: System)
    requires Boot(s)
    ensures IsRun(Play(s, []), []) && Registered(s)
  {
  }

  lemma PlayStep(s: System, steps: seq<Step>, step: Step)
    requires IsRun(Play(s, steps), steps) && Enabled(Play(s, steps)[|steps|], step)
    ensures var states := Play(s, steps + [step]);
      IsRun(states, steps + [step]) && states[|steps| + 1] == Next(Play(s, steps)[|steps|], step)
  {
    hide Next, Enabled, Sound;
    var most, more := Play(s, steps), steps + [step];
    assert more[..|more| - 1] == steps;
    var states := Play(s, more);
    assert states == most + [Next(most[|steps|], step)];
    forall i: nat | i < |more| ensures StepAt(states, more, i) {
      assert i < |steps| ==> StepAt(most, steps, i);
    }
  }

  /** A low-priority thread that registers for the lock of a high-priority one lowers it. */
  lemma LoweredRun(s: System, a: Thread, w: Thread, l: Lock) returns (steps: seq<Step>)
    requires Boot(s) && a in s.prio && w in s.prio && s.prio[w] < s.prio[a]
    ensures IsRun(Play(s, steps), steps)
    ensures var e := Play(s, steps)[|steps|];
      Holds(e, a, l) && e.prio.Keys == s.prio.Keys && e.init == s.init && e.prio[a] == s.prio[w]
  {
    BootIsRun(s);
    steps := [Pass(a, l)];
    assert [] + steps == steps;
    PlayStep(s, [], Pass(a, l));
    var s1 := Play(s, steps)[1];
    PlayStep(s, steps, Register(w, l));
    steps := steps + [Register(w, l)];
  }

  lemma RegisterWith(s: System, w: Thread, l: Lock, h: Thread, ds: seq<Thread>, p: int)
    requires Sound(s) && w in s.prio && !Busy(s, w) && Unlisted(s, w) && Holds(s, h, l) && h != w
    requires !Faults(s.holder, s.wait[w := l], h, DEPTH) && Donees(s, w, l) == ds && Passed(s, h, w) == p
    ensures Enabled(s, Register(w, l))
    ensures Next(s, Register(w, l))
      == System(s.holder, s.wait[w := l], s.waiters[h := Inserted(More(Lookup(s.prio)), On(s, h), w)],
                Raised(s.prio, ds, p), s.init, s.releasing)
  {
    hide Inserted, Raised, Donees, Passed, Faults;
  }

  /** `h` holds l1 with `a` and `b` on its list, and `b` holds l2. */
  lemma Queued(s: System, h: Thread, a: Thread, b: Thread, l1: Lock, l2: Lock) returns (steps: seq<Step>)
    requires Boot(s) && h != a && h != b && a != b && {h, a, b} <= s.prio.Keys && l1 != l2 && s.prio[b] <= s.prio[a]
    ensures |steps| == 4 && IsRun(Play(s, steps), steps)
    ensures Play(s, steps)[4]
      == System(map[l1 := h, l2 := b], map[a := l1, b := l1], s.waiters[h := [a, b]], s.prio[h := s.prio[a]],
                s.init, map[])
  {
    hide IsRun, Sound, Enabled, Next, Play, Donees, Passed;
    steps := TwoPasses(s, h, l1, b, l2);
    RunSound(Play(s, steps), steps, 2);
    var s2 := Play(s, steps)[2];
    FirstInLine(s2, h, a, l1);
    PlayStep(s, steps, Register(a, l1));
    steps := steps + [Register(a, l1)];
    RunSound(Play(s, steps), steps, 3);
    var s3 := Play(s, steps)[3];
    SecondInLine(s3, h, a, b, l1);
    PlayStep(s, steps, Register(b, l1));
    steps := steps + [Register(b, l1)];
  }

  lemma FirstInLine(e: System, h: Thread, a: Thread, l: Lock)
    requires Sound(e) && a in e.prio && a != h && Holds(e, h, l) && e.wait == map[] && e.releasing == map[]
    requires Unlisted(e, a) && h in e.waiters && e.waiters[h] == [] && h in e.prio
    ensures Enabled(e, Register(a, l))
    ensures Next(e, Register(a, l))
      == e.(wait := map[a := l], waiters := e.waiters[h := [a]], prio := e.prio[h := e.prio[a]])
  {
    hide Sound, Enabled, Next;
    FollowOne(e.holder, e.wait[a := l], h, DEPTH);
    assert On(e, h) == [] && Raised(e.prio, [h], e.prio[a]) == e.prio[h := e.prio[a]];
    RegisterWith(e, a, l, h, [h], e.prio[a]);
    assert Inserted(More(Lookup(e.prio)), [], a) == [a];
  }

  lemma SecondInLine(e: System, h: Thread, a: Thread, b: Thread, l: Lock)
    requires Sound(e) && {h, a, b} <= e.prio.Keys && b != h && a != b && Holds(e, h, l) && e.wait == map[a := l]
    requires e.releasing == map[] && Unlisted(e, b) && h in e.waiters && e.waiters[h] == [a] && a != h
    requires e.prio[b] <= e.prio[a] == e.prio[h]
    ensures Enabled(e, Register(b, l))
    ensures Next(e, Register(b, l)) == e.(wait := map[a := l, b := l], waiters := e.waiters[h := [a, b]])
  {
    hide Sound, Enabled, Next;
    FollowOne(e.holder, e.wait[b := l], h, DEPTH);
    assert On(e, h) == [a] && Raised(e.prio, [h], e.prio[a]) == e.prio;
    RegisterWith(e, b, l, h, [h], e.prio[a]);
    assert Inserted(More(Lookup(e.prio)), [a], b) == [a, b];
  }

  /** Then `c` asks for l2, which raises `b` and `h`. */
  lemma Nested(s: System, h: Thread, a: Thread, b: Thread, c: Thread, l1: Lock, l2: Lock) returns (steps: seq<Step>)
    requires Boot(s) && h != a && h != b && a != b && {h, a, b, c} <= s.prio.Keys && c !in {h, a, b} && l1 != l2
    requires s.prio[b] <= s.prio[a] < s.prio[c]
    ensures |steps| == 5 && IsRun(Play(s, steps), steps)
    ensures Play(s, steps)[5] == System(map[l1 := h, l2 := b], map[a := l1, b := l1, c := l2],
                                        s.waiters[h := [a, b]][b := [c]], s.prio[h := s.prio[c]][b := s.prio[c]],
                                        s.init, map[])
  {
    hide IsRun, Sound, Enabled, Next;
    steps := Queued(s, h, a, b, l1, l2);
    RunSound(Play(s, steps), steps, 4);
    var s4 := Play(s, steps)[4];
    FollowOne(s4.holder, s4.wait[c := l2], b, DEPTH);
    FollowOne(s4.holder, s4.wait[c := l2], h, DEPTH - 1);
    assert On(s4, b) == [] && Raised(s4.prio, [b, h], s.prio[c]) == s.prio[h := s.prio[c]][b := s.prio[c]];
    RegisterWith(s4, c, l2, b, [b, h], s.prio[c]);
    assert Inserted(More(Lookup(s4.prio)), [], c) == [c];
    PlayStep(s, steps, Register(c, l2));
    steps := steps + [Register(c, l2)];
  }

  lemma NestedRegister(e: System, h: Thread, b: Thread, w: Thread, l: Lock)
    requires Sound(e) && {h, b, w} <= e.prio.Keys && h != b && h != w && b != w && Holds(e, h, l) && b in On(e, h)
    requires h !in e.wait && b in On(e, h) && !Busy(e, w) && Unlisted(e, w) && Passed(e, h, w) < e.prio[b]
    ensures Enabled(e, Register(w, l))
    ensures var e' := Next(e, Register(w, l));
      b in On(e', h) && Lookup(e'.prio)(h) == Passed(e, h, w) && Lookup(e'.prio)(b) == e.prio[b]
  {
    hide Sound, Enabled, Next, Passed, More, Route, Faults;
    FollowOne(e.holder, e.wait[w := l], h, DEPTH);
    RegisterWith(e, w, l, h, [h], Passed(e, h, w));
    InsertedMembers(More(Lookup(e.prio)), On(e, h), w);
    assert h in e.prio && b in e.prio && h != b && w != h;
  }

  /** A donation that is not below the holder's own priority may still lower it below a waiter's: of
      h's waiters `b` has since been given c's priority, but stands behind `a`. */
  lemma NestedLoweredRun(s: System, h: Thread, a: Thread, b: Thread, c: Thread, w: Thread, l1: Lock, l2: Lock)
    returns (steps: seq<Step>)
    requires Boot(s) && h != a && h != b && a != b && c !in {h, a, b} && w !in {h, a, b, c} && l1 != l2
    requires {h, a, b, c, w} <= s.prio.Keys
    requires s.prio[b] <= s.prio[a] < s.prio[w] < s.prio[c] && s.prio[h] <= s.prio[w]
    ensures |steps| == 6 && IsRun(Play(s, steps), steps) && steps[5] == Register(w, l1)
    ensures var e, e' := Play(s, steps)[5], Play(s, steps)[6];
      && Holds(e, h, l1) && h !in e.wait && Passed(e, h, w) == s.prio[w] >= Lookup(e.init)(h)
      && !PrioRight(e', h) && b in On(e', h) && Lookup(e'.prio)(h) == s.prio[w] < Lookup(e'.prio)(b) == s.prio[c]
  {
    hide IsRun, Sound, Enabled, Next, PrioRight, Play;
    steps := Nested(s, h, a, b, c, l1, l2);
    RunSound(Play(s, steps), steps, 5);
    var e := Play(s, steps)[5];
    assert On(e, h) == [a, b] && e.prio[a] == s.prio[a] && e.prio[w] == s.prio[w] && [a, b][1] in On(e, h);
    NestedRegister(e, h, b, w, l1);
    PlayStep(s, steps, Register(w, l1));
    LastIsPlayed(s, steps, Register(w, l1));
    steps := steps + [Register(w, l1)];
    BelowWaiter(Play(s, steps)[6], h, b);
  }

  lemma BelowWaiter(e: System, h: Thread, b: Thread)
    requires b in On(e, h) && Lookup(e.prio)(h) < Lookup(e.prio)(b)
    ensures !PrioRight(e, h)
  {
    BestIff(Lookup(e.init)(h), Lookup(e.prio), On(e, h), Lookup(e.prio)(h));
  }

  lemma LastIsPlayed(s: System, steps: seq<Step>, step: Step)
    ensures Play(s, steps + [step])[|steps|] == Play(s, steps)[|steps|]
  {
    assert (steps + [step])[..|steps|] == steps;
  }

  /** A thread without waiters of its own and with no donated priority. */
  ghost predicate Alone(s: System, a: Thread) {
    && a in s.prio && a in s.init && a in s.waiters
    && s.prio[a] == s.init[a] && s.waiters[a] == []
  }

  lemma RemoveWith(s: System, a: Thread, l: Lock)
    requires Alone(s, a) && !Busy(s, a) && Holds(s, a, l)
    ensures Enabled(s, Remove(a, l))
    ensures Next(s, Remove(a, l)) == s.(releasing := s.releasing[a := Removed(l)])
  {
  }

  lemma RefreshWith(s: System, a: Thread, l: Lock)
    requires Alone(s, a) && a in s.releasing && s.releasing[a] == Removed(l)
    ensures Enabled(s, Refresh(a))
    ensures Next(s, Refresh(a)) == s.(releasing := s.releasing[a := Refreshed(l)])
  {
  }

  /** A release up to its refresh by such a thread. */
  lemma ReleaseAlone(s: System, steps: seq<Step>, a: Thread, l: Lock) returns (steps': seq<Step>)
    requires IsRun(Play(s, steps), steps)
    requires var e := Play(s, steps)[|steps|]; Alone(e, a) && !Busy(e, a) && Holds(e, a, l)
    ensures IsRun(Play(s, steps'), steps') && steps' == steps + [Remove(a, l), Refresh(a)]
    ensures var e := Play(s, steps)[|steps|];
      Play(s, steps')[|steps'|] == e.(releasing := e.releasing[a := Refreshed(l)])
  {
    hide IsRun, Next, Enabled, Play, Holds;
    var e := Play(s, steps)[|steps|];
    RemoveWith(e, a, l);
    PlayStep(s, steps, Remove(a, l));
    steps' := steps + [Remove(a, l)];
    RefreshWith(Play(s, steps')[|steps'|], a, l);
    PlayStep(s, steps', Refresh(a));
    steps' := steps' + [Refresh(a)];
    assert e.releasing[a := Removed(l)][a := Refreshed(l)] == e.releasing[a := Refreshed(l)];
  }

  /** A lock taken, and released up to its refresh, without anybody else. */
  lemma ReleasingRun(s: System, a: Thread, l: Lock) returns (steps: seq<Step>)
    requires Boot(s) && a in s.prio
    ensures IsRun(Play(s, steps), steps) && steps == [Pass(a, l), Remove(a, l), Refresh(a)]
    ensures Play(s, steps)[3] == s.(holder := map[l := a], releasing := map[a := Refreshed(l)])
  {
    BootIsRun(s);
    assert [] + [Pass(a, l)] == [Pass(a, l)];
    PlayStep(s, [], Pass(a, l));
    steps := [Pass(a, l)];
    assert Play(s, steps)[1] == s.(holder := map[l := a]);
    hide IsRun, Sound, Next, Enabled;
    steps := ReleaseAlone(s, steps, a, l);
  }

  lemma StaleRegister(s: System, a: Thread, w: Thread, l: Lock) returns (steps: seq<Step>)
    requires Boot(s) && a in s.prio && w in s.prio && s.prio[a] < s.prio[w]
    ensures |steps| == 4 && IsRun(Play(s, steps), steps)
    ensures Play(s, steps)[4] == System(map[l := a], map[w := l], s.waiters[a := [w]], s.prio[a := s.prio[w]], s.init,
                                        map[a := Refreshed(l)])
  {
    steps := ReleasingRun(s, a, l);
    var s3 := Play(s, steps)[3];
    assert Donees(s3, w, l) == [a] && Passed(s3, a, w) == s.prio[w] && On(s3, a) == [];
    assert Raised(s.prio, [a], s.prio[w]) == s.prio[a := s.prio[w]];
    assert Inserted(More(Lookup(s.prio)), [], w) == [w];
    PlayStep(s, steps, Register(w, l));
    steps := steps + [Register(w, l)];
  }

  /** A registration between the refresh and the clearing of `holder` outlives the release: `a` keeps
      the donated priority, and `w` holds the lock, waits for nothing, and is still on a's list. */
  lemma StaleRun(s: System, a: Thread, w: Thread, l: Lock) returns (steps: seq<Step>)
    requires Boot(s) && a in s.prio && w in s.prio && s.prio[a] < s.prio[w]
    ensures IsRun(Play(s, steps), steps)
    ensures var e := Play(s, steps)[|steps|];
      && e.holder == map[l := w] && !Busy(e, a) && !Busy(e, w) && On(e, a) == [w] && !RegisteredAt(e, a)
      && Lookup(e.prio)(a) == s.prio[w] > Lookup(e.init)(a) && !Unlisted(e, w)
  {
    steps := StaleRegister(s, a, w, l);
    PlayStep(s, steps, Clear(a, l));
    steps := steps + [Clear(a, l)];
    assert Play(s, steps)[5]
      == System(map[], map[w := l], s.waiters[a := [w]], s.prio[a := s.prio[w]], s.init, map[]);
    PlayStep(s, steps, Pass(w, l));
    steps := steps + [Pass(w, l)];
    assert w in On(Play(s, steps)[6], a);
  }

  /** Two locks taken, and one of them released up to its refresh, without anybody else. */
  lemma ReleasingOne(s: System, a: Thread, l: Lock, m: Lock) returns (steps: seq<Step>)
    requires Boot(s) && a in s.prio && l != m
    ensures |steps| == 4 && IsRun(Play(s, steps), steps) && NoRegister(steps)
    ensures Play(s, steps)[4] == s.(holder := map[m := a, l := a], releasing := map[a := Refreshed(l)])
  {
    hide IsRun, Sound, Next, Enabled;
    steps := TwoPasses(s, a, m, a, l);
    steps := ReleaseAlone(s, steps, a, l);
  }

  ghost predicate NoRegister(steps: seq<Step>) { forall i :: 0 <= i < |steps| ==> !steps[i].Register? }

  lemma RegisterOther(s: System, a: Thread, w: Thread, l: Lock, m: Lock) returns (steps: seq<Step>)
    requires Boot(s) && a in s.prio && w in s.prio && s.prio[w] < s.prio[a] && l != m
    ensures |steps| == 5 && IsRun(Play(s, steps), steps) && forall i :: 0 <= i < 5 ==> !Registers(steps[i], l)
    ensures Play(s, steps)[5] == System(map[m := a, l := a], map[w := m], s.waiters[a := [w]], s.prio[a := s.prio[w]],
                                        s.init, map[a := Refreshed(l)])
  {
    hide IsRun, Sound, Next, Enabled;
    steps := ReleasingOne(s, a, l, m);
    RunSound(Play(s, steps), steps, 4);
    var s4 := Play(s, steps)[4];
    FollowOne(s4.holder, s4.wait[w := m], a, DEPTH);
    assert On(s4, a) == [] && Raised(s.prio, [a], s.prio[w]) == s.prio[a := s.prio[w]];
    RegisterWith(s4, w, m, a, [a], s.prio[w]);
    assert Inserted(More(Lookup(s4.prio)), [], w) == [w];
    PlayStep(s, steps, Register(w, m));
    steps := steps + [Register(w, m)];
  }

  lemma ClearWith(s: System, a: Thread, l: Lock)
    requires a in s.prio && a in s.releasing && s.releasing[a] == Refreshed(l)
    ensures Enabled(s, Clear(a, l))
    ensures Next(s, Clear(a, l)) == s.(holder := s.holder - {l}, releasing := s.releasing - {a})
  {
  }

  lemma BelowItself(e: System, a: Thread, w: Thread)
    requires On(e, a) == [w] && Lookup(e.prio)(a) < Lookup(e.init)(a)
    ensures !PrioRight(e, a)
  {
  }

  /** Without a registration for the lock being released, one for another of the caller's locks after
      the refresh may leave its priority below its own. */
  lemma LoweredInRelease(s: System, a: Thread, w: Thread, l: Lock, m: Lock) returns (steps: seq<Step>)
    requires Boot(s) && a in s.prio && w in s.prio && s.prio[w] < s.prio[a] && l != m
    ensures IsRun(Play(s, steps), steps) && |steps| == 6 && steps[5] == Clear(a, l)
    ensures forall i :: 0 <= i < 6 ==> !Registers(steps[i], l)
    ensures var e := Play(s, steps)[6];
      RegisteredAt(e, a) && !PrioRight(e, a) && Lookup(e.prio)(a) == s.prio[w] < Lookup(e.init)(a)
  {
    hide IsRun, Sound, Next, Enabled, PrioRight;
    steps := RegisterOther(s, a, w, l, m);
    ClearWith(Play(s, steps)[5], a, l);
    PlayStep(s, steps, Clear(a, l));
    steps := steps + [Clear(a, l)];
    var e := Play(s, steps)[6];
    assert e.holder == map[m := a] && e.wait == map[w := m] && On(e, a) == [w];
    BelowItself(e, a, w);
  }

  lemma KeepsOff(s: System, step: Step, d: Thread)
    requires Sound(s) && Enabled(s, step) && step.t != d && Unlisted(s, d)
    ensures Unlisted(Next(s, step), d)
  {
    NextKeys(s, step);
    hide Next;
    forall x | x in Next(s, step).waiters ensures d !in Next(s, step).waiters[x] {
      ListAfter(s, step, x, d);
    }
  }

  /** A release without anybody else in between. */
  lemma ReleaseRun(s: System, steps: seq<Step>, r: Thread, l: Lock, d: Thread) returns (steps': seq<Step>)
    requires IsRun(Play(s, steps), steps) && r != d
    requires var e := Play(s, steps)[|steps|]; r in e.prio && !Busy(e, r) && Holds(e, r, l) && Unlisted(e, d)
    ensures IsRun(Play(s, steps'), steps')
    ensures var e, e' := Play(s, steps)[|steps|], Play(s, steps')[|steps'|];
      && e'.holder == e.holder - {l} && e'.wait == e.wait && e'.releasing == e.releasing && e'.prio.Keys == e.prio.Keys
      && Unlisted(e', d)
  {
    hide Next, Sound, Unlisted, Play, IsRun;
    var e := Play(s, steps)[|steps|];
    steps' := OneMore(s, steps, Remove(r, l), d);
    var e1 := Play(s, steps')[|steps'|];
    assert e1.holder == e.holder && e1.wait == e.wait && e1.releasing == e.releasing[r := Removed(l)];
    steps' := OneMore(s, steps', Refresh(r), d);
    var e2 := Play(s, steps')[|steps'|];
    assert e2.holder == e.holder && e2.wait == e.wait && e2.releasing == e.releasing[r := Refreshed(l)];
    steps' := OneMore(s, steps', Clear(r, l), d);
    assert e.releasing[r := Refreshed(l)] - {r} == e.releasing;
  }

  lemma OneMore(s: System, steps: seq<Step>, step: Step, d: Thread) returns (steps': seq<Step>)
    requires IsRun(Play(s, steps), steps) && Enabled(Play(s, steps)[|steps|], step)
    requires step.t != d && Unlisted(Play(s, steps)[|steps|], d)
    ensures IsRun(Play(s, steps'), steps')
    ensures var e, e' := Play(s, steps)[|steps|], Play(s, steps')[|steps'|];
      && e'.holder == HolderAfter(e, step) && e'.wait == WaitAfter(e, step) && e'.releasing == ReleasingAfter(e, step)
      && e'.prio.Keys == e.prio.Keys && Unlisted(e', d)
  {
    var e := Play(s, steps)[|steps|];
    RunSound(Play(s, steps), steps, |steps|);
    PlayStep(s, steps, step);
    KeepsOff(e, step, d);
    NextParts(e, step);
    NextKeys(e, step);
    hide Next, Sound, Unlisted, Play, IsRun, HolderAfter, WaitAfter, ReleasingAfter, Enabled;
    steps' := steps + [step];
  }

  lemma TwoPasses(s: System, h: Thread, l1: Lock, r: Thread, l2: Lock) returns (steps: seq<Step>)
    requires Boot(s) && h in s.prio && r in s.prio && l1 != l2
    ensures |steps| == 2 && IsRun(Play(s, steps), steps) && NoRegister(steps)
    ensures Play(s, steps)[2] == s.(holder := map[l1 := h, l2 := r])
  {
    BootIsRun(s);
    assert [] + [Pass(h, l1)] == [Pass(h, l1)];
    PlayStep(s, [], Pass(h, l1));
    steps := [Pass(h, l1)];
    assert Play(s, steps)[1] == s.(holder := map[l1 := h]);
    PlayStep(s, steps, Pass(r, l2));
    steps := steps + [Pass(r, l2)];
  }

  lemma ChainBroken(holder: map<Lock, Thread>, wait: map<Thread, Lock>, h: Thread)
    requires h in wait && wait[h] !in holder
    ensures Faults(holder, wait, h, DEPTH)
  {
  }

  /** `r` has let go of l2 but `h` has not run since: now `d` asks for l1, which `h` holds, and the
      donation follows l2 to a null holder. */
  lemma FaultRun(s: System, r: Thread, h: Thread, d: Thread, l1: Lock, l2: Lock) returns (steps: seq<Step>)
    requires Boot(s) && r in s.prio && h in s.prio && d in s.prio && r != h && h != d && d != r && l1 != l2
    ensures IsRun(Play(s, steps), steps)
    ensures var e := Play(s, steps)[|steps|];
      && d in e.prio && !Busy(e, d) && Unlisted(e, d) && Holds(e, h, l1)
      && Faults(e.holder, e.wait[d := l1], h, DEPTH)
  {
    hide Play, IsRun, Sound, Faults;
    steps := TwoPasses(s, h, l1, r, l2);
    var e := Play(s, steps)[|steps|];
    assert !Faults(e.holder, e.wait[h := l2], r, DEPTH) by {
      FollowOne(e.holder, e.wait[h := l2], r, DEPTH);
    }
    steps := OneMore(s, steps, Register(h, l2), d);
    hide Unlisted, Next;
    steps := ReleaseRun(s, steps, r, l2, d);
    e := Play(s, steps)[|steps|];
    assert e.holder == map[l1 := h] && e.wait == map[h := l2];
    ChainBroken(e.holder, e.wait[d := l1], h);
  }

  // ----- The code's calls are these steps

  ghost function View(threads: set<Thread>, locks: set<Lock>, releasing: map<Thread, Phase>): System
    reads threads, locks`holder
  {
    System(Holders(locks), Waits(threads), Waiters(threads), Prios(threads), Inits(threads), releasing)
  }

  /** What the sound lists of a view say about the objects. */
  lemma ListsOf(threads: set<Thread>, locks: set<Lock>, releasing: map<Thread, Phase>, h: Thread, current: Thread)
    requires Sound(View(threads, locks, releasing)) && h in threads && current in threads
    ensures Distinct(h.lockWaiter) && h !in h.lockWaiter && h in Prios(threads)
    ensures On(View(threads, locks, releasing), h) == h.lockWaiter && Lookup(Inits(threads))(h) == h.initPriority
    ensures forall t :: t in h.lockWaiter ==> t in threads
    ensures Current(Lookup(Prios(threads)), h.lockWaiter + [current])
    ensures Current(Lookup(Prios(threads)), h.lockWaiter)
    ensures Unlisted(View(threads, locks, releasing), current) ==> current !in h.lockWaiter
  {
    hide Distinct, Holders, Waits;
    assert Waiters(threads)[h] == h.lockWaiter;
    forall t | t in h.lockWaiter ensures t in threads {
      assert t in Waiters(threads);
    }
  }

  lemma PassedIsDonated(threads: set<Thread>, locks: set<Lock>, releasing: map<Thread, Phase>, h: Thread, w: Thread)
    requires h in threads && w in threads && Current(Lookup(Prios(threads)), h.lockWaiter + [w])
    ensures Passed(View(threads, locks, releasing), h, w) == Donated(h.lockWaiter, w)
  {
    assert w in h.lockWaiter + [w] && (h.lockWaiter != [] ==> h.lockWaiter[0] in h.lockWaiter + [w]);
  }

  lemma RegisterParts(s: System, s': System, w: Thread, l: Lock)
    requires w in s.prio && !Busy(s, w) && Unlisted(s, w) && l in s.holder && s.holder[l] != w
    requires s'.holder == s.holder && s'.wait == s.wait[w := l] && s'.init == s.init && s'.releasing == s.releasing
    requires s'.waiters == s.waiters[s.holder[l] := Inserted(More(Lookup(s.prio)), On(s, s.holder[l]), w)]
    requires s'.prio == Raised(s.prio, Donees(s, w, l), Passed(s, s.holder[l], w))
    ensures Faults(s.holder, s'.wait, s.holder[l], DEPTH) <==> !Enabled(s, Register(w, l))
    ensures Enabled(s, Register(w, l)) ==> s' == Next(s, Register(w, l))
  {
  }

  /** What lock_acquire does before its down; `fault` if that reads through a null pointer. */
  method BeforeDown(current: Thread, lock: Lock, prio: Thread -> int,
                    ghost threads: set<Thread>, ghost locks: set<Lock>, ghost releasing: map<Thread, Phase>)
    returns (fault: bool)
    requires Closed(threads, locks) && current in threads && lock in locks && lock.holder != current
    requires var s := View(threads, locks, releasing);
      Sound(s) && !Busy(s, current) && Unlisted(s, current) && prio == Lookup(s.prio)
    modifies current`lockWait, threads`lockWaiter, threads`priority
    ensures old(lock.holder) == null ==>
      !fault && View(threads, locks, releasing) == old(View(threads, locks, releasing))
    ensures old(lock.holder) != null ==> var s, step := old(View(threads, locks, releasing)), Register(current, lock);
      (fault <==> !Enabled(s, step)) && (!fault ==> View(threads, locks, releasing) == Next(s, step))
  {
    hide Sound, Route, Faults, Inserted, More, Lookup, Passed, Waiters, Prios, Inits, On, Raised, Next, Distinct;
    hide Enabled, Current, Unlisted, Donated;
    ghost var s := View(threads, locks, releasing);
    fault := false;
    if lock.holder != null {
      ghost var h := lock.holder;
      ListsOf(threads, locks, releasing, h, current);
      ListsOf(threads, locks, releasing, current, current);
      PassedIsDonated(threads, locks, releasing, h, current);
      assert lock in s.holder && s.holder[lock] == h;
      fault := DonatePriority(current, lock, prio, threads, locks);
      RegisterParts(s, View(threads, locks, releasing), current, lock);
    }
  }

  lemma PassParts(s: System, s': System, w: Thread, l: Lock)
    requires w in s.prio && w !in s.releasing && l !in s.holder && (w in s.wait ==> s.wait[w] == l)
    requires s' == s.(wait := s.wait - {w}, holder := s.holder[l := w])
    ensures Enabled(s, Pass(w, l)) && s' == Next(s, Pass(w, l))
  {
  }

  /** What lock_acquire does after its down, behind which the lock has no holder (`LockRuns.RecordIsPass`). */
  method AfterDown(current: Thread, lock: Lock,
                   ghost threads: set<Thread>, ghost locks: set<Lock>, ghost releasing: map<Thread, Phase>)
    requires Closed(threads, locks) && current in threads && lock in locks && lock.holder == null
    requires current !in releasing && (current.lockWait == null || current.lockWait == lock)
    modifies current`lockWait, lock`holder
    ensures var s, step := old(View(threads, locks, releasing)), Pass(current, lock);
      Enabled(s, step) && View(threads, locks, releasing) == Next(s, step)
  {
    hide Waiters, Inits, Next, Enabled, Closed;
    ghost var s := View(threads, locks, releasing);
    assert current in s.prio;
    hide Prios;
    current.lockWait := null;
    assert Waits(threads) == s.wait - {current};
    lock.holder := current;
    assert Holders(locks) == s.holder[lock := current];
    PassParts(s, View(threads, locks, releasing), current, lock);
  }

  method ThreadLockRemove(current: Thread, lock: Lock,
                          ghost threads: set<Thread>, ghost locks: set<Lock>, ghost releasing: map<Thread, Phase>)
    requires Closed(threads, locks) && current in threads && lock in locks && lock.holder == current
    requires Sound(View(threads, locks, releasing)) && current.lockWait == null && current !in releasing
    modifies current`lockWaiter
    ensures var s, step := old(View(threads, locks, releasing)), Remove(current, lock);
      Enabled(s, step) && View(threads, locks, releasing[current := Removed(lock)]) == Next(s, step)
  {
    ghost var s := View(threads, locks, releasing);
    ListsOf(threads, locks, releasing, current, current);
    assert On(s, current) == current.lockWaiter && current in s.prio && !Busy(s, current) && Holds(s, current, lock);
    assert WaitingFor(current.lockWaiter, lock) == Waiting(s, current, lock);
    hide Sound, Dropped, Waits, Waiters, Prios, Inits, Holders, On, Waiting;
    RemoveWaiters(current, lock, threads);
  }

  lemma ResetParts(s: System, s': System, h: Thread, p: int)
    requires s'.init == s.init[h := p] && s'.prio == s.prio[h := Best(p, Lookup(s.prio), On(s, h))]
    requires s'.waiters == s.waiters[h := Sorted(More(Lookup(s.prio)), On(s, h))]
    requires s'.holder == s.holder && s'.wait == s.wait && s'.releasing == s.releasing
    ensures s' == Reset(s, h, p)
  {
  }

  lemma RefreshParts(s: System, s': System, h: Thread)
    requires Sound(s) && h in s.releasing && s.releasing[h].Removed? && s'.init == s.init
    requires s'.prio == s.prio[h := Best(Lookup(s.init)(h), Lookup(s.prio), On(s, h))]
    requires s'.waiters == s.waiters[h := Sorted(More(Lookup(s.prio)), On(s, h))]
    requires s'.holder == s.holder && s'.wait == s.wait
    requires s'.releasing == s.releasing[h := Refreshed(s.releasing[h].lock)]
    ensures Enabled(s, Refresh(h)) && s' == Next(s, Refresh(h))
  {
    hide Best, Sorted, More, Distinct;
    assert s.init[h := Lookup(s.init)(h)] == s.init;
  }

  method ThreadLockRefresh(current: Thread, prio: Thread -> int,
                           ghost threads: set<Thread>, ghost locks: set<Lock>, ghost releasing: map<Thread, Phase>)
    requires current in threads && current in releasing && releasing[current].Removed?
    requires Sound(View(threads, locks, releasing)) && prio == Lookup(Prios(threads))
    modifies current`priority, current`lockWaiter
    ensures var s, step := old(View(threads, locks, releasing)), Refresh(current);
      && Enabled(s, step)
      && View(threads, locks, releasing[current := Refreshed(releasing[current].lock)]) == Next(s, step)
  {
    hide Sound, Best, Sorted, Distinct, More, Next, Lookup, On, Holders, Waits, Waiters, Prios, Inits, Enabled, Current;
    ghost var s := View(threads, locks, releasing);
    ListsOf(threads, locks, releasing, current, current);
    Donation.Refresh(current, prio, threads);
    RefreshParts(s, View(threads, locks, releasing[current := Refreshed(releasing[current].lock)]), current);
  }

  method ClearHolder(current: Thread, lock: Lock,
                     ghost threads: set<Thread>, ghost locks: set<Lock>, ghost releasing: map<Thread, Phase>)
    requires current in threads && lock in locks
    requires current in releasing && releasing[current] == Refreshed(lock)
    modifies lock`holder
    ensures var s, step := old(View(threads, locks, releasing)), Clear(current, lock);
      Enabled(s, step) && View(threads, locks, releasing - {current}) == Next(s, step)
  {
    lock.holder := null;
  }

  /** thread_set_priority with -mlfqs off, before it may yield. */
  method ThreadSetPriority(current: Thread, p: int, prio: Thread -> int,
                           ghost threads: set<Thread>, ghost locks: set<Lock>, ghost releasing: map<Thread, Phase>)
    requires current in threads && current.lockWait == null && current !in releasing
    requires Sound(View(threads, locks, releasing)) && prio == Lookup(Prios(threads))
    modifies current`initPriority, current`priority, current`lockWaiter
    ensures var s, step := old(View(threads, locks, releasing)), SetPriority(current, p);
      Enabled(s, step) && View(threads, locks, releasing) == Next(s, step)
  {
    hide Sound, Best, Sorted, Distinct, More, Lookup, On, Holders, Waiters, Prios, Inits, Reset, Current;
    ghost var s := View(threads, locks, releasing);
    ListsOf(threads, locks, releasing, current, current);
    Donation.SetPriority(current, p, prio, threads);
    ResetParts(s, View(threads, locks, releasing), current, p);
  }
}
