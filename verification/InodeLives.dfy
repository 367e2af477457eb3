/**
 The life of inodes under inode_open, inode_close and inode_remove (filesys/inode.c), by
 header sector: when do a deleted file's sectors become free?
 */
module InodeLives {

  /** Open counts, the open inodes that have been removed, and the inodes whose sectors are in use. */
  datatype Life = Life(opens: map<nat, nat>, removed: set<nat>, live: set<nat>)

  /** Discard: a new inode that filesys_create could not enter into the directory. */
  datatype Step = Create(s: nat) | Discard(s: nat) | Open(s: nat) | Close(s: nat) | Remove(s: nat)

  predicate LifeOk(l: Life) {
    && (forall s :: s in l.opens ==> l.opens[s] > 0 && s in l.live)
    && (forall s :: s in l.removed ==> s in l.opens)
  }

  predicate Enabled(l: Life, step: Step) {
    match step
    case Create(s) => s !in l.live
    case Discard(s) => s in l.live && s !in l.opens
    case Open(s) => s in l.live
    case Close(s) => s in l.opens
    case Remove(s) => s in l.opens
  }

  function Next(l: Life, step: Step): (l': Life)
    requires LifeOk(l) && Enabled(l, step)
    ensures LifeOk(l')
  {
    match step
    case Create(s) => l.(live := l.live + {s})
    case Discard(s) => l.(live := l.live - {s})
    case Open(s) => l.(opens := l.opens[s := (if s in l.opens then l.opens[s] else 0) + 1])
    case Close(s) =>
      if l.opens[s] == 1 then
        Life(l.opens - {s}, l.removed - {s}, if s in l.removed then l.live - {s} else l.live)
      else l.(opens := l.opens[s := l.opens[s] - 1])
    case Remove(s) => l.(removed := l.removed + {s})
  }

  predicate Moves(l: Life, step: Step, l': Life) { LifeOk(l) && Enabled(l, step) && l' == Next(l, step) }

  lemma OpenThenClose(l: Life, l': Life, l'': Life, s: nat)
    requires Moves(l, Open(s), l') && Moves(l', Close(s), l'')
    ensures l'' == l
  {
    if s in l.opens {
      assert l''.opens == l.opens;
    } else {
      assert l''.opens == l.opens && l''.removed == l.removed;
    }
  }

  /** Opening an inode leaves all but its count. */
  lemma OpenOnly(l: Life, l': Life, s: nat)
    requires Moves(l, Open(s), l')
    ensures l'.removed == l.removed && l'.live == l.live && l'.opens == OneMore(l.opens, s)
  {
  }

  lemma FirstHandle(l: Life, l': Life, s: nat)
    requires Moves(l, Open(s), l')
    ensures Count(l', s) == 1 <==> s !in l.opens
  {
  }

  lemma CloseOnly(l: Life, l': Life, s: nat)
    requires Moves(l, Close(s), l') && s !in l.removed
    ensures l'.removed == l.removed && l'.live == l.live
    ensures s in l.opens && l.opens[s] > 0 && l'.opens == OneLess(l.opens, s)
  {
  }

  function Count(l: Life, s: nat): nat { if s in l.opens then l.opens[s] else 0 }

  /** The counts with that of `s` taken down by one. */
  function OneLess(m: map<nat, nat>, s: nat): map<nat, nat>
    requires s in m && m[s] > 0
  {
    if m[s] == 1 then m - {s} else m[s := m[s] - 1]
  }

  function OneMore(m: map<nat, nat>, s: nat): map<nat, nat> { m[s := (if s in m then m[s] else 0) + 1] }

  lemma CountsAround(m: map<nat, nat>, s: nat, t: nat, n: nat)
    requires s != t && (s in m ==> m[s] > 0)
    ensures OneLess(OneMore(m, s), s) == m
    ensures OneLess(OneMore(m, s)[t := n], s) == m[t := n]
    ensures OneLess(OneMore(m, s) - {t}, s) == m - {t}
  {
  }

  /** Opening and closing one inode around a step on another makes no difference to that step. */
  lemma OpenAround(l: Life, l1: Life, step: Step, l2: Life, l3: Life, s: nat)
    requires Moves(l, Open(s), l1) && Moves(l1, step, l2) && Moves(l2, Close(s), l3)
    requires step.s != s && s !in l.removed
    ensures Moves(l, step, l3)
  {
    OpenOnly(l, l1, s);
    StepOnly(l, l1, step, s);
    CloseOnly(l2, l3, s);
    OpensAround(l, l1, step, s);
  }

  /** The counts, once that of `s` is put back. */
  lemma OpensAround(l: Life, l1: Life, step: Step, s: nat)
    requires LifeOk(l) && LifeOk(l1) && step.s != s && Enabled(l1, step) && Enabled(l, step)
    requires l1.opens == OneMore(l.opens, s)
    ensures var m := Next(l1, step).opens; s in m && m[s] > 0 && OneLess(m, s) == Next(l, step).opens
  {
    var t := step.s;
    assert Count(l1, t) == Count(l, t) && s in l1.opens;
    CountsAround(l.opens, s, t, if step.Open? then Count(l, t) + 1 else if Count(l, t) > 0 then Count(l, t) - 1 else 0);
    hide OneMore, OneLess;
  }

  /** A step on one inode leaves the count of another, and is as with that count changed. */
  lemma StepOnly(l: Life, l1: Life, step: Step, s: nat)
    requires LifeOk(l) && LifeOk(l1) && l1.removed == l.removed && l1.live == l.live && step.s != s
    requires l1.opens == OneMore(l.opens, s) && Enabled(l1, step) && s in l.live
    ensures Enabled(l, step) && Count(l1, step.s) == Count(l, step.s)
    ensures Next(l1, step).removed == Next(l, step).removed && Next(l1, step).live == Next(l, step).live
  {
  }

  /** A removal through a handle of its own: at once if nobody else has one, else at the last close. */
  predicate Drops(l: Life, s: nat, l': Life) {
    s in l.live && if s in l.opens then l' == l.(removed := l.removed + {s}) else l' == l.(live := l.live - {s})
  }

  predicate RemovesAndCloses(l: Life, s: nat, l': Life) {
    LifeOk(l) && Enabled(l, Remove(s)) && Moves(Next(l, Remove(s)), Close(s), l')
  }

  lemma DropSteps(l: Life, l1: Life, l3: Life, s: nat)
    requires Moves(l, Open(s), l1) && RemovesAndCloses(l1, s, l3)
    ensures Drops(l, s, l3)
  {
    OpenOnly(l, l1, s);
    CountsAround(l.opens, s, s + 1, 0);
    assert l3.opens == l.opens;
    if s !in l.opens {
      assert l3.removed == l.removed;
    }
  }

  lemma DropAround(l: Life, l1: Life, l2: Life, l3: Life, r: nat, s: nat)
    requires Moves(l, Open(r), l1) && Drops(l1, s, l2) && Moves(l2, Close(r), l3) && r != s && r !in l.removed
    ensures Drops(l, s, l3)
  {
    OpenOnly(l, l1, r);
    CloseOnly(l2, l3, r);
    CountsAround(l.opens, r, s, 0);
  }

  ghost predicate StepAt(lives: seq<Life>, steps: seq<Step>, i: nat)
    requires i < |steps| < |lives|
  {
    Moves(lives[i], steps[i], lives[i + 1])
  }

  ghost predicate IsRun(lives: seq<Life>, steps: seq<Step>) {
    && |lives| == |steps| + 1 && LifeOk(lives[|steps|])
    && forall i: nat :: i < |steps| ==> StepAt(lives, steps, i)
  }

  // ----- Handles

  /** How often steps i to k open, less how often they close, the inode at `s`. */
  ghost function Opened(steps: seq<Step>, s: nat, i: nat, k: nat): int
    requires i <= k <= |steps|
  {
    if k == i then 0
    else Opened(steps, s, i, k - 1) + if steps[k - 1] == Open(s) then 1 else if steps[k - 1] == Close(s) then -1 else 0
  }

  /** Over every run the open count is the number of handles. */
  lemma {:induction false} CountsHandles(lives: seq<Life>, steps: seq<Step>, s: nat, i: nat, k: nat)
    requires IsRun(lives, steps) && i <= k < |lives|
    ensures Count(lives[k], s) == Count(lives[i], s) + Opened(steps, s, i, k)
  {
    if i < k {
      CountsHandles(lives, steps, s, i, k - 1);
      assert StepAt(lives, steps, k - 1);
    }
  }

  // ----- Removal

  /** Step r removes the inode at `s`, and it stays open from then until moment k. */
  ghost predicate RemovedAt(lives: seq<Life>, steps: seq<Step>, s: nat, r: nat, k: nat) {
    r < k < |lives| && r < |steps| && steps[r] == Remove(s) && forall m :: r <= m <= k ==> s in lives[m].opens
  }

  /** An inode is flagged exactly if inode_remove was called on it while it has been open since. */
  lemma {:induction false} RemovedIff(lives: seq<Life>, steps: seq<Step>, s: nat, k: nat)
    requires IsRun(lives, steps) && k < |lives| && s !in lives[0].removed
    ensures s in lives[k].removed <==> exists r :: RemovedAt(lives, steps, s, r, k)
  {
    assert k < |steps| ==> StepAt(lives, steps, k);
    if k > 0 {
      RemovedIff(lives, steps, s, k - 1);
      assert StepAt(lives, steps, k - 1);
      var l, step, l' := lives[k - 1], steps[k - 1], lives[k];
      if s in l'.removed {
        if step == Remove(s) {
          assert RemovedAt(lives, steps, s, k - 1, k);
        } else {
          var r :| RemovedAt(lives, steps, s, r, k - 1);
          assert RemovedAt(lives, steps, s, r, k);
        }
      }
      if r: nat :| RemovedAt(lives, steps, s, r, k) {
        assert s in lives[k - 1].opens;
        assert r < k - 1 ==> RemovedAt(lives, steps, s, r, k - 1);
      }
    }
  }

  /** At step k the last handle of the inode at `s` is closed, which was removed while it was open. */
  ghost predicate FreedAt(lives: seq<Life>, steps: seq<Step>, s: nat, k: nat) {
    && k < |steps| < |lives| && steps[k] == Close(s) && Count(lives[k], s) == 1
    && exists r :: RemovedAt(lives, steps, s, r, k)
  }

  /** Between its creation and the next discarding or creation of an inode in its sector, an inode's
      sectors are in use until the last handle of the removed inode is closed, and not after. */
  lemma {:induction false} FreedIff(lives: seq<Life>, steps: seq<Step>, s: nat, i: nat, n: nat)
    requires IsRun(lives, steps) && s !in lives[0].removed && i <= n < |lives| && s in lives[i].live
    requires forall k :: i <= k < n ==> steps[k] != Create(s) && steps[k] != Discard(s)
    ensures s !in lives[n].live <==> exists k :: i <= k < n && FreedAt(lives, steps, s, k)
  {
    if i < n {
      FreedIff(lives, steps, s, i, n - 1);
      assert StepAt(lives, steps, n - 1);
      RemovedIff(lives, steps, s, n - 1);
      var l, step := lives[n - 1], steps[n - 1];
      assert FreedAt(lives, steps, s, n - 1) <==> step == Close(s) && Count(l, s) == 1 && s in l.removed;
    }
  }

  // ----- The list of open inodes

  /** What the life depends on in an open inode. */
  datatype Entry = Entry(sector: nat, opens: int, removed: bool)

  predicate SectorsDiffer(es: seq<Entry>) { forall a, b :: 0 <= a < b < |es| ==> es[a].sector != es[b].sector }

  ghost predicate AllCounted(es: seq<Entry>, l: Life) {
    forall k :: 0 <= k < |es| ==>
      es[k].sector in l.opens && l.opens[es[k].sector] == es[k].opens && (es[k].sector in l.removed <==> es[k].removed)
  }

  ghost predicate Listed(es: seq<Entry>, s: nat) { exists k :: 0 <= k < |es| && es[k].sector == s }

  /** The life `l` is that of the open inodes `es`. */
  ghost predicate Shows(es: seq<Entry>, l: Life) {
    SectorsDiffer(es) && AllCounted(es, l) && forall s :: s in l.opens ==> Listed(es, s)
  }

  lemma Reopened(es: seq<Entry>, l: Life, k: nat)
    requires LifeOk(l) && Shows(es, l) && k < |es|
    ensures var s := es[k].sector;
      && Enabled(l, Open(s)) && Shows(es[k := es[k].(opens := es[k].opens + 1)], Next(l, Open(s)))
      && LifeOk(Next(l, Open(s))) && Next(l, Open(s)).live == l.live
  {
    var r := es[k := es[k].(opens := es[k].opens + 1)];
    assert forall j :: 0 <= j < |es| ==> r[j].sector == es[j].sector;
  }

  lemma ListedWith(es: seq<Entry>, e: Entry, t: nat)
    ensures Listed([e] + es, t) <==> t == e.sector || Listed(es, t)
  {
    var r := [e] + es;
    assert r[0] == e;
    if Listed(es, t) {
      var k :| 0 <= k < |es| && es[k].sector == t;
      assert r[k + 1].sector == t;
    }
  }

  lemma ApartWith(es: seq<Entry>, e: Entry)
    requires SectorsDiffer(es) && !Listed(es, e.sector)
    ensures SectorsDiffer([e] + es)
  {
  }

  lemma CountedWith(es: seq<Entry>, e: Entry, l: Life)
    requires AllCounted(es, l) && AllCounted([e], l)
    ensures AllCounted([e] + es, l)
  {
    assert [e][0] == e;
  }

  lemma CountedElsewhere(es: seq<Entry>, l: Life, s: nat)
    requires LifeOk(l) && AllCounted(es, l) && !Listed(es, s) && Enabled(l, Open(s))
    ensures AllCounted(es, Next(l, Open(s)))
  {
  }

  lemma Pushed(es: seq<Entry>, l: Life, s: nat)
    requires LifeOk(l) && Shows(es, l) && s in l.live && !Listed(es, s)
    ensures Enabled(l, Open(s)) && Shows([Entry(s, 1, false)] + es, Next(l, Open(s)))
    ensures LifeOk(Next(l, Open(s))) && Next(l, Open(s)).live == l.live
  {
    var e, l' := Entry(s, 1, false), Next(l, Open(s));
    CountedElsewhere(es, l, s);
    ApartWith(es, e);
    assert AllCounted([e], l');
    CountedWith(es, e, l');
    hide Listed, SectorsDiffer, AllCounted;
    forall t | t in l'.opens ensures Listed([e] + es, t) {
      ListedWith(es, e, t);
    }
  }

  lemma ListedWithout(es: seq<Entry>, k: nat, t: nat)
    requires SectorsDiffer(es) && k < |es|
    ensures Listed(es[..k] + es[k + 1..], t) <==> Listed(es, t) && t != es[k].sector
  {
    var r := es[..k] + es[k + 1..];
    assert forall j :: 0 <= j < |r| ==> r[j] == es[if j < k then j else j + 1];
    if Listed(es, t) && t != es[k].sector {
      var j :| 0 <= j < |es| && es[j].sector == t;
      assert r[if j < k then j else j - 1].sector == t;
    }
  }

  lemma CountedWithout(es: seq<Entry>, l: Life, k: nat)
    requires LifeOk(l) && Shows(es, l) && k < |es| && es[k].opens == 1
    ensures Enabled(l, Close(es[k].sector))
    ensures var r := es[..k] + es[k + 1..]; SectorsDiffer(r) && AllCounted(r, Next(l, Close(es[k].sector)))
  {
    hide Listed;
    var r := es[..k] + es[k + 1..];
    assert forall j :: 0 <= j < |r| ==> r[j] == es[if j < k then j else j + 1];
  }

  lemma LastClosed(es: seq<Entry>, l: Life, k: nat)
    requires LifeOk(l) && Shows(es, l) && k < |es| && es[k].opens == 1
    ensures Enabled(l, Close(es[k].sector)) && Shows(es[..k] + es[k + 1..], Next(l, Close(es[k].sector)))
    ensures LifeOk(Next(l, Close(es[k].sector)))
    ensures Next(l, Close(es[k].sector)).live == if es[k].removed then l.live - {es[k].sector} else l.live
  {
    var r := es[..k] + es[k + 1..];
    CountedWithout(es, l, k);
    assert es[k].sector in l.opens && l.opens[es[k].sector] == 1 && (es[k].sector in l.removed <==> es[k].removed);
    hide Listed, AllCounted;
    forall t ensures Listed(r, t) <==> Listed(es, t) && t != es[k].sector {
      ListedWithout(es, k, t);
    }
  }

  lemma OneClosed(es: seq<Entry>, l: Life, k: nat)
    requires LifeOk(l) && Shows(es, l) && k < |es| && es[k].opens != 1
    ensures Enabled(l, Close(es[k].sector))
    ensures LifeOk(Next(l, Close(es[k].sector))) && Next(l, Close(es[k].sector)).live == l.live
    ensures Shows(es[k := es[k].(opens := es[k].opens - 1)], Next(l, Close(es[k].sector)))
  {
    var r := es[k := es[k].(opens := es[k].opens - 1)];
    assert forall j :: 0 <= j < |es| ==> r[j].sector == es[j].sector;
    forall t ensures Listed(r, t) <==> Listed(es, t) {
      if Listed(es, t) {
        var j :| 0 <= j < |es| && es[j].sector == t;
        assert r[j].sector == t;
      }
    }
    hide Listed;
    assert SectorsDiffer(r) && AllCounted(r, Next(l, Close(es[k].sector)));
  }

  lemma Flagged(es: seq<Entry>, l: Life, k: nat)
    requires LifeOk(l) && Shows(es, l) && k < |es|
    ensures var s := es[k].sector;
      && Enabled(l, Remove(s)) && Shows(es[k := es[k].(removed := true)], Next(l, Remove(s)))
      && LifeOk(Next(l, Remove(s))) && Next(l, Remove(s)).live == l.live
  {
    var r := es[k := es[k].(removed := true)];
    assert forall j :: 0 <= j < |es| ==> r[j].sector == es[j].sector;
  }

  lemma OpenKeeps(l: Life, l': Life, s: nat)
    requires Moves(l, Open(s), l')
    ensures l'.live == l.live && l'.removed == l.removed
  {
  }

  lemma Created(es: seq<Entry>, l: Life, s: nat)
    requires LifeOk(l) && Shows(es, l) && s !in l.live
    ensures Enabled(l, Create(s)) && Shows(es, Next(l, Create(s))) && LifeOk(Next(l, Create(s)))
    ensures Next(l, Create(s)).live == l.live + {s}
  {
    ShowsOther(es, l, Create(s));
  }

  lemma Discarded(es: seq<Entry>, l: Life, s: nat)
    requires LifeOk(l) && Shows(es, l) && s in l.live && s !in l.opens
    ensures Enabled(l, Discard(s)) && Shows(es, Next(l, Discard(s))) && LifeOk(Next(l, Discard(s)))
    ensures Next(l, Discard(s)).live == l.live - {s}
  {
    ShowsOther(es, l, Discard(s));
  }

  /** Steps on inodes that are not open. */
  lemma ShowsOther(es: seq<Entry>, l: Life, step: Step)
    requires LifeOk(l) && Shows(es, l) && Enabled(l, step) && (step.Create? || step.Discard?)
    ensures Shows(es, Next(l, step))
  {
  }
}