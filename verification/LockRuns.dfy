/**
 lock_acquire, lock_try_acquire and lock_release (threads/synch.c) whole, as one transition
 system: the test of `holder`, the donation code and the semaphore of each lock, with any
 thread's step between any two.  Of the semaphore only the value is kept here; `Synch` has
 its waiters.
 */
module LockRuns {
  import opened Donation
  import D = DonationRuns

  /** Where a thread is in a call, between two steps that are not the donation code's own: it has
      seen a holder; it is to go through the semaphore; it has done so; it has cleared `holder`. */
  datatype At = Asked(lock: Lock) | Downing(lock: Lock) | Taken(lock: Lock) | Letting(lock: Lock)

  datatype Locks = Locks(d: D.System, at: map<Thread, At>, value: map<Lock, nat>)

  /** Own: thread_lock_remove, thread_lock_refresh or thread_set_priority. */
  datatype Step =
    | Ask(t: Thread, l: Lock)
    | Skip(t: Thread, l: Lock)
    | Donate(t: Thread, l: Lock)
    | Down(t: Thread, l: Lock)
    | TryDown(t: Thread, l: Lock)
    | Record(t: Thread, l: Lock)
    | Own(t: Thread, call: D.Step)
    | Clear(t: Thread, l: Lock)
    | Up(t: Thread, l: Lock)

  ghost predicate Idle(s: Locks, t: Thread) { t in s.d.prio && t !in s.at && t !in s.d.releasing }

  ghost predicate IsAt(s: Locks, t: Thread, at: At) { t in s.at && s.at[t] == at }

  /** A failed test of `holder` skips the donation; a failed lock_try_acquire is no step.  A donation
      that goes wrong, `DonateFails`, ends the run. */
  ghost predicate Enabled(s: Locks, step: Step) {
    match step
    case Ask(t, l) => Idle(s, t) && l in s.value && l in s.d.holder && s.d.holder[l] != t
    case Skip(t, l) => Idle(s, t) && l in s.value && l !in s.d.holder
    case Donate(t, l) => IsAt(s, t, Asked(l)) && D.Enabled(s.d, D.Register(t, l))
    case Down(t, l) => IsAt(s, t, Downing(l)) && l in s.value && s.value[l] > 0
    case TryDown(t, l) => Idle(s, t) && l in s.value && s.value[l] > 0
    case Record(t, l) => IsAt(s, t, Taken(l))
    case Own(t, call) =>
      call.t == t && D.Enabled(s.d, call) && (call.Refresh? || (Idle(s, t) && (call.Remove? || call.SetPriority?)))
    case Clear(t, l) => D.Enabled(s.d, D.Clear(t, l))
    case Up(t, l) => IsAt(s, t, Letting(l)) && l in s.value
  }

  ghost function Next(s: Locks, step: Step): Locks
    requires Enabled(s, step)
  {
    match step
    case Ask(t, l) => s.(at := s.at[t := Asked(l)])
    case Skip(t, l) => s.(at := s.at[t := Downing(l)])
    case Donate(t, l) => s.(at := s.at[t := Downing(l)], d := D.Next(s.d, D.Register(t, l)))
    case Down(t, l) => s.(at := s.at[t := Taken(l)], value := s.value[l := s.value[l] - 1])
    case TryDown(t, l) => s.(at := s.at[t := Taken(l)], value := s.value[l := s.value[l] - 1])
    case Record(t, l) => s.(at := s.at - {t}, d := s.d.(wait := s.d.wait - {t}, holder := s.d.holder[l := t]))
    case Own(t, call) => s.(d := D.Next(s.d, call))
    case Clear(t, l) => s.(at := s.at[t := Letting(l)], d := D.Next(s.d, D.Clear(t, l)))
    case Up(t, l) => s.(at := s.at - {t}, value := s.value[l := s.value[l] + 1])
  }

  /** The call into the donation code, or the end of lock_acquire, that a step is. */
  ghost function Calls(step: Step): seq<D.Step> {
    match step
    case Donate(t, l) => [D.Register(t, l)]
    case Record(t, l) => [D.Pass(t, l)]
    case Own(t, call) => [call]
    case Clear(t, l) => [D.Clear(t, l)]
    case _ => []
  }

  // ----- The invariant

  ghost predicate Passing(at: At, l: Lock) { at == Taken(l) || at == Letting(l) }

  /** A lock's value is 1 only if nobody is inside: neither taking it nor letting go of it, nor its
      holder; and one thread at most is.  While one takes it or lets go, `holder` is null. */
  ghost predicate TokenOk(at: map<Thread, At>, holder: map<Lock, Thread>, value: map<Lock, nat>, l: Lock) {
    && l in value && value[l] <= 1 && (l in holder ==> value[l] == 0)
    && (forall t :: t in at && Passing(at[t], l) ==> value[l] == 0 && l !in holder)
    && (forall t, u :: t in at && u in at && Passing(at[t], l) && Passing(at[u], l) ==> t == u)
  }

  /** A waiting thread is in lock_acquire for that lock, and nobody asks for a lock that it holds. */
  ghost predicate PlaceOk(s: Locks, t: Thread) {
    && (t in s.at ==> t in s.d.prio && t !in s.d.releasing && s.at[t].lock in s.value)
    && (t in s.d.wait ==> IsAt(s, t, Downing(s.d.wait[t])) || IsAt(s, t, Taken(s.d.wait[t])))
    && (t in s.at && (s.at[t].Asked? || s.at[t].Downing?) ==> !D.Holds(s.d, t, s.at[t].lock))
  }

  ghost predicate TokensOk(s: Locks) {
    && (forall l :: l in s.value ==> TokenOk(s.at, s.d.holder, s.value, l))
    && (forall l :: l in s.d.holder ==> l in s.value)
  }

  ghost predicate Inv(s: Locks) {
    D.Sound(s.d) && TokensOk(s) && forall t :: t in s.at.Keys + s.d.wait.Keys ==> PlaceOk(s, t)
  }

  // ----- Safety

  lemma Actor(s: Locks, step: Step)
    requires Inv(s) && Enabled(s, step)
    ensures step.t in s.d.prio && PlaceOk(s, step.t)
    ensures step.Clear? ==>
      && step.t in s.d.releasing && s.d.releasing[step.t].lock == step.l
      && step.t !in s.d.wait && D.Holds(s.d, step.t, step.l)
    ensures step.Own? ==> step.t !in s.at
  {
    hide D.ListsSound, Faults, D.Unlisted, TokensOk;
    assert step.t in s.at.Keys + s.d.wait.Keys ==> PlaceOk(s, step.t);
    if step.Own? && step.call.Refresh? {
      assert step.t in s.d.releasing;
    }
  }

  lemma TokenOf(s: Locks, l: Lock)
    requires Inv(s) && l in s.value
    ensures TokenOk(s.at, s.d.holder, s.value, l)
  {
  }

  lemma PassEnabled(d: D.System, t: Thread, l: Lock)
    requires t in d.prio && t !in d.releasing && l !in d.holder && (t in d.wait ==> d.wait[t] == l)
    ensures D.Enabled(d, D.Pass(t, l))
    ensures D.Next(d, D.Pass(t, l)) == d.(wait := d.wait - {t}, holder := d.holder[l := t])
  {
  }

  /** Behind the down the lock has no holder, so the end of lock_acquire is the donation system's. */
  lemma RecordIsPass(s: Locks, t: Thread, l: Lock)
    requires Inv(s) && IsAt(s, t, Taken(l))
    ensures l !in s.d.holder && D.Enabled(s.d, D.Pass(t, l))
    ensures Next(s, Record(t, l)).d == D.Next(s.d, D.Pass(t, l))
  {
    Actor(s, Record(t, l));
    TokenOf(s, l);
    hide Inv, D.Enabled, D.Next;
    PassEnabled(s.d, t, l);
  }

  /** What a step changes: the holders, who waits, who is where, and the values. */
  ghost function HolderAfter(s: Locks, step: Step): map<Lock, Thread> {
    match step
    case Record(t, l) => s.d.holder[l := t]
    case Clear(t, l) => s.d.holder - {l}
    case _ => s.d.holder
  }

  ghost function WaitAfter(s: Locks, step: Step): map<Thread, Lock> {
    match step
    case Donate(t, l) => s.d.wait[t := l]
    case Record(t, _) => s.d.wait - {t}
    case _ => s.d.wait
  }

  ghost predicate ReleasingAfter(s: Locks, step: Step, t: Thread) {
    match step
    case Own(u, call) => t in s.d.releasing || (t == u && call.Remove?)
    case Clear(u, _) => t in s.d.releasing && t != u
    case _ => t in s.d.releasing
  }

  ghost function AtAfter(s: Locks, step: Step): map<Thread, At> {
    match step
    case Ask(t, l) => s.at[t := Asked(l)]
    case Skip(t, l) => s.at[t := Downing(l)]
    case Donate(t, l) => s.at[t := Downing(l)]
    case Down(t, l) => s.at[t := Taken(l)]
    case TryDown(t, l) => s.at[t := Taken(l)]
    case Record(t, _) => s.at - {t}
    case Own(_, _) => s.at
    case Clear(t, l) => s.at[t := Letting(l)]
    case Up(t, _) => s.at - {t}
  }

  lemma DonationParts(s: Locks, step: Step)
    requires Inv(s) && Enabled(s, step) && (step.Donate? || step.Own? || step.Clear?)
    ensures var d, call := Next(s, step).d, Calls(step)[0];
      && d == D.Next(s.d, call) && D.Sound(d) && d.prio.Keys == s.d.prio.Keys
      && d.holder == D.HolderAfter(s.d, call) && d.wait == D.WaitAfter(s.d, call)
      && d.releasing == D.ReleasingAfter(s.d, call)
  {
    hide D.Sound, D.Next, D.Enabled;
    D.NextSound(s.d, Calls(step)[0]);
    D.NextParts(s.d, Calls(step)[0]);
    D.NextKeys(s.d, Calls(step)[0]);
  }

  lemma NextParts(s: Locks, step: Step)
    requires Inv(s) && Enabled(s, step)
    ensures var s' := Next(s, step);
      && D.Sound(s'.d) && s'.d.prio.Keys == s.d.prio.Keys && s'.at == AtAfter(s, step)
      && s'.d.holder == HolderAfter(s, step) && s'.d.wait == WaitAfter(s, step)
      && (forall t :: t in s'.d.releasing <==> ReleasingAfter(s, step, t))
  {
    hide D.Sound, D.Next, D.Enabled;
    if step.Donate? || step.Own? || step.Clear? {
      DonationParts(s, step);
    } else if step.Record? {
      RecordIsPass(s, step.t, step.l);
      D.NextSound(s.d, D.Pass(step.t, step.l));
    }
  }

  lemma OthersStay(s: Locks, step: Step, t: Thread)
    requires t != step.t
    ensures t in AtAfter(s, step) <==> t in s.at
    ensures t in s.at ==> AtAfter(s, step)[t] == s.at[t]
    ensures t in WaitAfter(s, step) <==> t in s.d.wait
    ensures t in s.d.wait ==> WaitAfter(s, step)[t] == s.d.wait[t]
    ensures ReleasingAfter(s, step, t) <==> t in s.d.releasing
    ensures forall l :: l in HolderAfter(s, step) && HolderAfter(s, step)[l] == t ==> D.Holds(s.d, t, l)
  {
  }

  lemma PlaceOfOther(s: Locks, step: Step, t: Thread)
    requires Inv(s) && Enabled(s, step) && Next(s, step).value.Keys == s.value.Keys && t != step.t
    ensures PlaceOk(Next(s, step), t)
  {
    NextParts(s, step);
    OthersStay(s, step, t);
    assert t in s.at.Keys + s.d.wait.Keys ==> PlaceOk(s, t);
    hide Inv, Enabled, Next, AtAfter, HolderAfter, WaitAfter, ReleasingAfter;
  }

  /** Where the acting thread comes from. */
  ghost predicate Before(s: Locks, step: Step) {
    match step
    case Ask(t, l) => Idle(s, t) && l in s.value && !D.Holds(s.d, t, l)
    case Skip(t, l) => Idle(s, t) && l in s.value && !D.Holds(s.d, t, l)
    case Donate(t, l) => IsAt(s, t, Asked(l))
    case Down(t, l) => IsAt(s, t, Downing(l)) && l in s.value
    case TryDown(t, l) => Idle(s, t) && l in s.value
    case Record(t, l) => IsAt(s, t, Taken(l))
    case Own(t, _) => t !in s.at
    case Clear(t, l) => t in s.d.releasing && t !in s.at && t !in s.d.wait && l in s.value
    case Up(t, l) => IsAt(s, t, Letting(l))
  }

  lemma ComesFrom(s: Locks, step: Step)
    requires Inv(s) && Enabled(s, step)
    ensures Before(s, step)
  {
    Actor(s, step);
    hide D.Sound, D.Enabled, D.Next;
  }

  lemma PlaceOfActor(s: Locks, step: Step)
    requires Inv(s) && Enabled(s, step) && Next(s, step).value.Keys == s.value.Keys
    ensures PlaceOk(Next(s, step), step.t)
  {
    NextParts(s, step);
    Actor(s, step);
    ComesFrom(s, step);
    hide Inv, Enabled, Next;
  }

  lemma TokenStays(at: map<Thread, At>, at': map<Thread, At>, holder: map<Lock, Thread>, holder': map<Lock, Thread>,
                   value: map<Lock, nat>, value': map<Lock, nat>, l: Lock)
    requires TokenOk(at, holder, value, l) && l in value' && value'[l] == value[l] && (l in holder' <==> l in holder)
    requires forall t :: t in at' && Passing(at'[t], l) ==> t in at && at[t] == at'[t]
    ensures TokenOk(at', holder', value', l)
  {
  }

  lemma PassingSame(s: Locks, step: Step, l: Lock)
    requires step.Own? || step.l != l || step.Ask? || step.Skip? || step.Donate?
    ensures forall t :: t in AtAfter(s, step) && Passing(AtAfter(s, step)[t], l) ==>
      t in s.at && s.at[t] == AtAfter(s, step)[t]
    ensures l in HolderAfter(s, step) <==> l in s.d.holder
  {
  }

  /** Steps of other locks, and those that do not touch this one. */
  lemma TokenOfOther(s: Locks, step: Step, l: Lock)
    requires Inv(s) && Enabled(s, step) && l in s.value
    requires step.Own? || step.l != l || step.Ask? || step.Skip? || step.Donate?
    ensures var s' := Next(s, step); TokenOk(s'.at, s'.d.holder, s'.value, l)
  {
    NextParts(s, step);
    TokenOf(s, l);
    Values(s, step, l);
    PassingSame(s, step, l);
    hide Inv, Enabled, Next, AtAfter, HolderAfter, TokenOk;
    var s' := Next(s, step);
    TokenStays(s.at, s'.at, s.d.holder, s'.d.holder, s.value, s'.value, l);
  }

  lemma TokenTaken(at: map<Thread, At>, holder: map<Lock, Thread>, value: map<Lock, nat>, value': map<Lock, nat>,
                   t: Thread, l: Lock)
    requires TokenOk(at, holder, value, l) && value[l] > 0 && l in value' && value'[l] == value[l] - 1
    ensures TokenOk(at[t := Taken(l)], holder, value', l)
  {
  }

  lemma TokenHeld(at: map<Thread, At>, holder: map<Lock, Thread>, value: map<Lock, nat>, t: Thread, l: Lock)
    requires TokenOk(at, holder, value, l) && t in at && at[t] == Taken(l)
    ensures TokenOk(at - {t}, holder[l := t], value, l)
  {
  }

  lemma TokenLet(at: map<Thread, At>, holder: map<Lock, Thread>, value: map<Lock, nat>, t: Thread, l: Lock)
    requires TokenOk(at, holder, value, l) && l in holder && t !in at
    ensures TokenOk(at[t := Letting(l)], holder - {l}, value, l)
  {
  }

  lemma TokenBack(at: map<Thread, At>, holder: map<Lock, Thread>, value: map<Lock, nat>, value': map<Lock, nat>,
                  t: Thread, l: Lock)
    requires TokenOk(at, holder, value, l) && t in at && at[t] == Letting(l)
    requires l in value' && value'[l] == value[l] + 1
    ensures TokenOk(at - {t}, holder, value', l)
  {
  }

  lemma TokenOfLock(s: Locks, step: Step)
    requires Inv(s) && Enabled(s, step) && !step.Own? && step.l in s.value
    requires !(step.Ask? || step.Skip? || step.Donate?)
    ensures var s' := Next(s, step); TokenOk(s'.at, s'.d.holder, s'.value, step.l)
  {
    NextParts(s, step);
    Actor(s, step);
    TokenOf(s, step.l);
    ComesFrom(s, step);
    Values(s, step, step.l);
    hide Inv, Enabled, Next, TokenOk, PlaceOk;
    var value' := Next(s, step).value;
    match step {
      case Down(t, l) => TokenTaken(s.at, s.d.holder, s.value, value', t, l);
      case TryDown(t, l) => TokenTaken(s.at, s.d.holder, s.value, value', t, l);
      case Record(t, l) => TokenHeld(s.at, s.d.holder, s.value, t, l);
      case Clear(t, l) => TokenLet(s.at, s.d.holder, s.value, t, l);
      case Up(t, l) => TokenBack(s.at, s.d.holder, s.value, value', t, l);
    }
  }

  lemma Values(s: Locks, step: Step, l: Lock)
    requires Inv(s) && Enabled(s, step) && l in s.value
    ensures var v, v' := s.value[l], Next(s, step).value;
      && l in v' && ((step.Down? || step.TryDown?) && step.l == l ==> v > 0 && v'[l] == v - 1)
      && (step.Up? && step.l == l ==> v'[l] == v + 1)
      && (!((step.Down? || step.TryDown? || step.Up?) && step.l == l) ==> v'[l] == v)
      && (!(step.Down? || step.TryDown? || step.Up?) ==> v' == s.value)
  {
    hide D.Sound, D.Enabled, D.Next, Inv;
  }

  lemma ValuesKept(s: Locks, step: Step)
    requires Inv(s) && Enabled(s, step)
    ensures Next(s, step).value.Keys == s.value.Keys
    ensures forall l :: l in HolderAfter(s, step) ==> l in s.value
  {
    Actor(s, step);
    hide D.Sound, D.Enabled, D.Next;
  }

  lemma NextInv(s: Locks, step: Step)
    requires Inv(s) && Enabled(s, step)
    ensures Inv(Next(s, step))
  {
    NextParts(s, step);
    ValuesKept(s, step);
    var s' := Next(s, step);
    hide Enabled, Next, TokenOk, PlaceOk, HolderAfter;
    forall l | l in s'.value ensures TokenOk(s'.at, s'.d.holder, s'.value, l) {
      if step.Own? || step.l != l || step.Ask? || step.Skip? || step.Donate? {
        TokenOfOther(s, step, l);
      } else {
        TokenOfLock(s, step);
      }
    }
    forall t | t in s'.at.Keys + s'.d.wait.Keys ensures PlaceOk(s', t) {
      if t == step.t {
        PlaceOfActor(s, step);
      } else {
        PlaceOfOther(s, step, t);
      }
    }
  }

  /** `t` has gone through the semaphore of `l` and not yet up again. */
  ghost predicate Inside(s: Locks, t: Thread, l: Lock) { (t in s.at && Passing(s.at[t], l)) || D.Holds(s.d, t, l) }

  lemma OneInside(s: Locks, t: Thread, u: Thread, l: Lock)
    requires Inv(s) && l in s.value && Inside(s, t, l) && Inside(s, u, l)
    ensures t == u && s.value[l] == 0
  {
    TokenOf(s, l);
  }

  // ----- Every run

  ghost predicate Boot(s: Locks) { D.Boot(s.d) && s.at == map[] && forall l :: l in s.value ==> s.value[l] == 1 }

  lemma BootInv(s: Locks)
    requires Boot(s)
    ensures Inv(s)
  {
  }

  ghost predicate StepAt(states: seq<Locks>, steps: seq<Step>, i: nat)
    requires i < |steps| < |states|
  {
    Enabled(states[i], steps[i]) && states[i + 1] == Next(states[i], steps[i])
  }

  ghost predicate IsRun(states: seq<Locks>, steps: seq<Step>) {
    && |states| == |steps| + 1 && Inv(states[0])
    && forall i: nat :: i < |steps| ==> StepAt(states, steps, i)
  }

  lemma {:induction false} RunInv(states: seq<Locks>, steps: seq<Step>, k: nat)
    requires IsRun(states, steps) && k < |states|
    ensures Inv(states[k])
  {
    hide Inv, Next, Enabled;
    if k > 0 {
      RunInv(states, steps, k - 1);
      assert StepAt(states, steps, k - 1);
      NextInv(states[k - 1], steps[k - 1]);
    }
  }

  /** The donation system's steps in a run. */
  ghost function Called(steps: seq<Step>): seq<D.Step> {
    if steps == [] then [] else Called(steps[..|steps| - 1]) + Calls(steps[|steps| - 1])
  }

  lemma Refines(s: Locks, step: Step)
    requires Inv(s) && Enabled(s, step)
    ensures Calls(step) == [] ==> Next(s, step).d == s.d
    ensures Calls(step) != [] ==>
      |Calls(step)| == 1 && D.Enabled(s.d, Calls(step)[0]) && Next(s, step).d == D.Next(s.d, Calls(step)[0])
  {
    hide D.Enabled, D.Next, D.Sound;
    if step.Record? {
      RecordIsPass(s, step.t, step.l);
    }
  }

  lemma RunGrows(ds: seq<D.System>, calls: seq<D.Step>, call: D.Step)
    requires D.IsRun(ds, calls) && D.Enabled(ds[|calls|], call)
    ensures D.IsRun(ds + [D.Next(ds[|calls|], call)], calls + [call])
  {
    hide D.Enabled, D.Next, D.Sound;
    var ds', calls' := ds + [D.Next(ds[|calls|], call)], calls + [call];
    forall i: nat | i < |calls'| ensures D.StepAt(ds', calls', i) {
      assert i < |calls| ==> D.StepAt(ds, calls, i);
    }
  }

  /** Every run of the locks is a run of the donation system, so what holds of all of that system's
      runs holds of lock_acquire and lock_release. */
  lemma {:induction false} Projects(states: seq<Locks>, steps: seq<Step>) returns (ds: seq<D.System>)
    requires IsRun(states, steps)
    ensures D.IsRun(ds, Called(steps)) && ds[0] == states[0].d && ds[|ds| - 1] == states[|steps|].d
  {
    hide Enabled, Next, D.Enabled, D.Next, D.Sound, Calls;
    var n := |steps|;
    if n == 0 {
      RunInv(states, steps, 0);
      ds := [states[0].d];
    } else {
      var first, before := states[..n], steps[..n - 1];
      forall i: nat | i < |before| ensures StepAt(first, before, i) {
        assert StepAt(states, steps, i);
      }
      ds := Projects(first, before);
      RunInv(states, steps, n - 1);
      assert StepAt(states, steps, n - 1);
      Refines(states[n - 1], steps[n - 1]);
      if Calls(steps[n - 1]) == [] {
        assert Called(steps) == Called(before) + [] == Called(before);
      } else {
        RunGrows(ds, Called(before), Calls(steps[n - 1])[0]);
        ds := ds + [states[n].d];
        assert Calls(steps[n - 1]) == [Calls(steps[n - 1])[0]];
      }
    }
  }

  // ----- Donations that go wrong

  /** A thread that has seen a holder cannot register exactly if that holder is null by now, if its
      list element is still on a list, or if the chain runs into a null holder. */
  lemma DonateFails(s: Locks, t: Thread, l: Lock)
    requires Inv(s) && IsAt(s, t, Asked(l))
    ensures D.Enabled(s.d, D.Register(t, l)) <==>
      && l in s.d.holder && D.Unlisted(s.d, t)
      && !Faults(s.d.holder, s.d.wait[t := l], s.d.holder[l], DEPTH)
  {
    hide D.Sound, Faults, D.Unlisted;
    assert t in s.at.Keys + s.d.wait.Keys && PlaceOk(s, t);
  }

  /** Step `m` clears the holder of `l`, and up to step `j` nobody has become its holder since. */
  ghost predicate LetGo(steps: seq<Step>, l: Lock, i: nat, m: nat, j: nat)
    requires j <= |steps|
  {
    i < m < j && steps[m].Clear? && steps[m].l == l && forall n :: m < n < j ==> !(steps[n].Record? && steps[n].l == l)
  }

  ghost predicate SomeLetGo(steps: seq<Step>, l: Lock, i: nat, j: nat)
    requires j <= |steps|
  {
    exists m: nat :: LetGo(steps, l, i, m, j)
  }

  lemma HolderStep(s: Locks, step: Step, l: Lock)
    requires Inv(s) && Enabled(s, step)
    ensures l in Next(s, step).d.holder <==>
      if step.Clear? && step.l == l then false else if step.Record? && step.l == l then true else l in s.d.holder
  {
    NextParts(s, step);
    hide Enabled, Next, Inv;
  }

  lemma AskedStays(s: Locks, step: Step, t: Thread, l: Lock)
    requires Inv(s) && Enabled(s, step) && step.t != t && IsAt(s, t, Asked(l))
    ensures IsAt(Next(s, step), t, Asked(l))
  {
    NextParts(s, step);
    OthersStay(s, step, t);
  }

  /** Between its test of `holder` and its donation a thread loses the holder, and so reads through a
      null pointer, exactly if the holder has let go in between and nobody has followed it. */
  lemma {:induction false} NullIff(states: seq<Locks>, steps: seq<Step>, t: Thread, l: Lock, i: nat, j: nat)
    requires IsRun(states, steps) && i < j <= |steps| && steps[i] == Ask(t, l)
    requires forall m :: i < m < j ==> steps[m].t != t
    ensures IsAt(states[j], t, Asked(l))
    ensures l !in states[j].d.holder <==> SomeLetGo(steps, l, i, j)
  {
    hide Inv, Next, Enabled, IsAt;
    RunInv(states, steps, j - 1);
    assert StepAt(states, steps, j - 1);
    if j == i + 1 {
      AskedNow(states[i], t, l);
    } else {
      NullIff(states, steps, t, l, i, j - 1);
      AskedStays(states[j - 1], steps[j - 1], t, l);
      HolderStep(states[j - 1], steps[j - 1], l);
      hide IsRun;
      LetGoStep(steps, l, i, j - 1);
    }
  }

  lemma AskedNow(s: Locks, t: Thread, l: Lock)
    requires Enabled(s, Ask(t, l))
    ensures var s' := Next(s, Ask(t, l)); IsAt(s', t, Asked(l)) && l in s'.d.holder
  {
  }

  lemma LetGoStep(steps: seq<Step>, l: Lock, i: nat, j: nat)
    requires i < j < |steps|
    ensures SomeLetGo(steps, l, i, j + 1) <==>
      (steps[j].Clear? && steps[j].l == l) || (SomeLetGo(steps, l, i, j) && !(steps[j].Record? && steps[j].l == l))
  {
    var k := j + 1;
    if steps[j].Clear? && steps[j].l == l {
      assert LetGo(steps, l, i, j, k);
    } else if SomeLetGo(steps, l, i, k) {
      var m: nat :| LetGo(steps, l, i, m, k);
      assert m != j && LetGo(steps, l, i, m, j);
    } else if SomeLetGo(steps, l, i, j) && !(steps[j].Record? && steps[j].l == l) {
      var m: nat :| LetGo(steps, l, i, m, j);
      assert LetGo(steps, l, i, m, k);
    }
  }

  lemma OneMore(states: seq<Locks>, steps: seq<Step>, step: Step) returns (states': seq<Locks>, steps': seq<Step>)
    requires IsRun(states, steps) && Enabled(states[|steps|], step)
    ensures steps' == steps + [step] && IsRun(states', steps')
    ensures states' == states + [Next(states[|steps|], step)]
  {
    hide Enabled, Next, Inv;
    steps', states' := steps + [step], states + [Next(states[|steps|], step)];
    forall i: nat | i < |steps'| ensures StepAt(states', steps', i) {
      assert i < |steps| ==> StepAt(states, steps, i);
    }
  }

  lemma ReleaseParts(d: D.System, r: Thread, l: Lock)
    requires D.Boot(d) && r in d.prio
    ensures var d1 := d.(holder := d.holder[l := r]);
      var d2 := d1.(releasing := map[r := D.Removed(l)]);
      var d3 := d2.(releasing := map[r := D.Refreshed(l)]);
      && D.Enabled(d1, D.Remove(r, l)) && D.Next(d1, D.Remove(r, l)) == d2
      && D.Enabled(d2, D.Refresh(r)) && D.Next(d2, D.Refresh(r)) == d3
      && D.Enabled(d3, D.Clear(r, l)) && D.Next(d3, D.Clear(r, l)) == d
  {
    var d1 := d.(holder := d.holder[l := r]);
    var d2 := d1.(releasing := map[r := D.Removed(l)]);
    var d3 := d2.(releasing := map[r := D.Refreshed(l)]);
    hide D.Enabled, D.Next;
    D.RemoveWith(d1, r, l);
    assert d1.releasing[r := D.Removed(l)] == d2.releasing;
    D.RefreshWith(d2, r, l);
    assert d2.releasing[r := D.Refreshed(l)] == d3.releasing;
    D.ClearWith(d3, r, l);
    assert d3.releasing - {r} == d.releasing && d3.holder - {l} == d.holder;
  }

  /** `r` holds the lock, and `w` has seen that. */
  lemma AskedRun(s: Locks, r: Thread, w: Thread, l: Lock) returns (states: seq<Locks>, steps: seq<Step>)
    requires Boot(s) && r in s.d.prio && w in s.d.prio && r != w && l in s.value
    ensures IsRun(states, steps) && states[0] == s && |steps| == 3
    ensures states[3] == Locks(s.d.(holder := s.d.holder[l := r]), map[w := Asked(l)], s.value[l := 0])
  {
    BootInv(s);
    hide Inv;
    states, steps := [s], [];
    states, steps := OneMore(states, steps, TryDown(r, l));
    states, steps := OneMore(states, steps, Record(r, l));
    assert states[2] == Locks(s.d.(holder := s.d.holder[l := r]), map[], s.value[l := 0]);
    states, steps := OneMore(states, steps, Ask(w, l));
  }

  /** `w` asks for the lock that `r` holds; before it can register, `r` has let go. */
  lemma NullRun(s: Locks, r: Thread, w: Thread, l: Lock) returns (states: seq<Locks>, steps: seq<Step>)
    requires Boot(s) && r in s.d.prio && w in s.d.prio && r != w && l in s.value
    ensures IsRun(states, steps) && states[0] == s
    ensures var e := states[|steps|]; IsAt(e, w, Asked(l)) && l !in e.d.holder && !D.Enabled(e.d, D.Register(w, l))
  {
    states, steps := AskedRun(s, r, w, l);
    ReleaseParts(s.d, r, l);
    hide Inv, D.Enabled, D.Next, Boot, IsRun;
    states, steps := OneMore(states, steps, Own(r, D.Remove(r, l)));
    states, steps := OneMore(states, steps, Own(r, D.Refresh(r)));
    states, steps := OneMore(states, steps, Clear(r, l));
    assert l !in s.d.holder by {
      BootFree(s, l);
    }
    RunInv(states, steps, 6);
    DonateFails(states[6], w, l);
  }

  lemma BootFree(s: Locks, l: Lock)
    requires Boot(s)
    ensures l !in s.d.holder
  {
  }
}
