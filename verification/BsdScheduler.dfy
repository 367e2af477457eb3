/**
 The 4.4BSD scheduler's bookkeeping (threads/thread.c, driven by devices/timer.c), in 17.14
 fixed point on 32-bit ints.

 Every fixed-point operation demands a representable result, so that these members verify
 at all says no update overflows.
 */
module BsdScheduler {
  import opened Options
  import opened Integers
  import opened FixedPoint
  import opened Order

  const PRI_MIN: int := 0
  const PRI_MAX: int := 63
  const TIMER_FREQ: int := 100

  /** At most this many ready threads are considered. */
  const MOST: int := 500

  // ----- load_avg

  predicate LoadOk(load: int, R: nat) { R <= MOST && 0 <= load <= R * F }

  lemma Constants()
    ensures TruncDiv(59 * F * F, 60 * F) == 16110 && TruncDiv(F * F, 60 * F) == 273
  {
  }

  lemma NextLoadFits(load: I32, ready: nat, R: nat)
    requires LoadOk(load, R) && ready <= R
    ensures Fits(TruncDiv(59 * F * F, 60 * F)) && Fits(TruncDiv(F * F, 60 * F))
    ensures var kept := TruncDiv(TruncDiv(59 * F * F, 60 * F) * load, F);
      && Fits(kept) && Fits(TruncDiv(F * F, 60 * F) * ready)
      && LoadOk(kept + TruncDiv(F * F, 60 * F) * ready, R)
  {
    Constants();
    TruncDivBounds(16110 * load, F);
  }

  /** load_avg = (59/60)*load_avg + (1/60)*ready_threads, as bsd_cal_load_avg computes it. */
  function NextLoad(load: I32, ready: nat, ghost R: nat): (next: I32)
    requires LoadOk(load, R) && ready <= R
    ensures LoadOk(next, R)
  {
    NextLoadFits(load, ready, R);
    var div5960 := DivXY(IntToFp(59), IntToFp(60));
    var div160 := DivXY(IntToFp(1), IntToFp(60));
    AddXY(MulXY(div5960, load), MulXN(div160, ready))
  }

  /** The recurrence without rounding. */
  ghost function ExactLoad(load: real, ready: nat): real {
    59.0 / 60.0 * load + ready as real / 60.0
  }

  /** The fixed-point load trails the exact one by at most 60*(R+1) units of 2^-14, and never leads. */
  ghost predicate Trails(load: int, exact: real, R: nat) {
    0.0 <= exact * 16384.0 - load as real <= 60.0 * (R as real + 1.0)
  }

  lemma NextTrails(load: I32, exact: real, ready: nat, R: nat)
    requires LoadOk(load, R) && ready <= R && Trails(load, exact, R)
    ensures Trails(NextLoad(load, ready, R), ExactLoad(exact, ready), R)
  {
    Constants();
    var kept := TruncDiv(16110 * load, F);
    TruncDivBounds(16110 * load, F);
    assert NextLoad(load, ready, R) == kept + 273 * ready;
    TrailsStep(load as real, exact * 16384.0, ready as real, R as real, kept as real);
  }

  lemma TrailsStep(l: real, e: real, r: real, R: real, kept: real)
    requires 0.0 <= l <= R * 16384.0 && 0.0 <= r <= R
    requires 16384.0 * kept <= 16110.0 * l < 16384.0 * (kept + 1.0)
    requires 0.0 <= e - l <= 60.0 * (R + 1.0)
    ensures 0.0 <= 59.0 / 60.0 * e + r / 60.0 * 16384.0 - (kept + 273.0 * r) <= 60.0 * (R + 1.0)
  {
  }

  ghost predicate AtMost(readies: seq<nat>, R: nat) {
    forall i :: 0 <= i < |readies| ==> readies[i] <= R
  }

  /** load_avg after a run of once-a-second updates, given the ready counts. */
  ghost function LoadAfter(readies: seq<nat>, R: nat): (load: I32)
    requires R <= MOST && AtMost(readies, R)
    ensures LoadOk(load, R)
  {
    if readies == [] then 0
    else NextLoad(LoadAfter(readies[..|readies| - 1], R), readies[|readies| - 1], R)
  }

  ghost function ExactAfter(readies: seq<nat>): real {
    if readies == [] then 0.0 else ExactLoad(ExactAfter(readies[..|readies| - 1]), readies[|readies| - 1])
  }

  /** Over every run the drift stays bounded: rounding errors do not accumulate. */
  lemma {:induction false} LoadRuns(readies: seq<nat>, R: nat)
    requires R <= MOST && AtMost(readies, R)
    ensures LoadOk(LoadAfter(readies, R), R) && Trails(LoadAfter(readies, R), ExactAfter(readies), R)
  {
    if readies != [] {
      var most := readies[..|readies| - 1];
      LoadRuns(most, R);
      NextTrails(LoadAfter(most, R), ExactAfter(most), readies[|readies| - 1], R);
    }
  }

  // ----- recent_cpu

  /** recent_cpu `k` ticks after an update; k is 0 just after. */
  predicate CpuOk(cpu: int, k: nat, R: nat) {
    R <= MOST && k <= TIMER_FREQ && -(40 * R + 20) * F <= cpu <= (240 * R + 20 + k) * F
  }

  predicate NiceOk(nice: int) { -20 <= nice <= 20 }

  /** (2*load_avg)/(2*load_avg + 1). */
  function Decay(load: I32, ghost R: nat): (d: I32)
    requires LoadOk(load, R)
    ensures 0 <= d < F && d * (2 * R + 1) <= 2 * R * F
  {
    var twice: int := 2 * load;
    TruncDivBounds(twice * F, twice + F);
    var d: int := TruncDiv(twice * F, twice + F);
    DecayBelow(twice, d, R);
    DivXY(MulXN(load, 2), AddXN(MulXN(load, 2), 1))
  }

  lemma DecayBelow(twice: int, d: int, R: nat)
    requires 0 <= twice <= 2 * R * F && 0 <= d && (twice + F) * d <= twice * F
    ensures d < F && d * (2 * R + 1) <= 2 * R * F
  {
    if d >= F { MulMono(F, d, twice + F); }
    MulMono(twice, 2 * R * F, F - d);
    assert d * F <= twice * (F - d);
    assert 2 * R * F * (F - d) == (2 * R * (F - d)) * F;
  }

  lemma Regroup(d: int, m: int, c: int)
    ensures (c * m * F) * d == c * (d * m) * F
  {
    MulAssoc(c * F, m, d);
    MulAssoc(c, m, F);
  }

  lemma NextCpuFits(load: I32, cpu: I32, nice: I32, R: nat)
    requires LoadOk(load, R) && CpuOk(cpu, TIMER_FREQ, R) && NiceOk(nice)
    ensures var kept := TruncDiv(Decay(load, R) * cpu, F);
      Fits(kept) && Fits(nice * F) && CpuOk(kept + nice * F, 0, R)
  {
    hide Decay;
    var d: int := Decay(load, R);
    TruncDivBounds(d * cpu, F);
    if cpu >= 0 {
      MulMono(cpu, 120 * (2 * R + 1) * F, d);
      MulMono(0, cpu, d);
      Regroup(d, 2 * R + 1, 120);
    } else {
      MulMono(-20 * (2 * R + 1) * F, cpu, d);
      MulMono(cpu, 0, d);
      Regroup(d, 2 * R + 1, -20);
    }
  }

  /** recent_cpu = decay * recent_cpu + nice: however long the run, it stays in range. */
  function NextCpu(load: I32, cpu: I32, nice: I32, ghost R: nat): (next: I32)
    requires LoadOk(load, R) && CpuOk(cpu, TIMER_FREQ, R) && NiceOk(nice)
    ensures CpuOk(next, 0, R)
  {
    NextCpuFits(load, cpu, nice, R);
    AddXN(MulXY(DivXY(MulXN(load, 2), AddXN(MulXN(load, 2), 1)), cpu), nice)
  }

  /** thread_get_recent_cpu multiplies by 100 in 32 bits and then rounds. */
  predicate Reportable(cpu: int) { -21474754 <= cpu <= 21474754 }

  /** No overflow exactly for these values. */
  lemma HundredfoldFits(cpu: I32)
    ensures (Fits(100 * cpu) && Fits(if cpu > 0 then 100 * cpu + F / 2 else 100 * cpu - F / 2)) <==> Reportable(cpu)
  {
  }

  /** One second of a thread's life: the ticks charged to it, then the ready count and its nice
      at the update. */
  datatype Second = Second(charged: nat, ready: nat, nice: I32)

  ghost predicate Admissible(secs: seq<Second>, R: nat) {
    forall i :: 0 <= i < |secs| ==> secs[i].charged <= TIMER_FREQ && secs[i].ready <= R && NiceOk(secs[i].nice)
  }

  datatype Tally = Tally(load: I32, cpu: I32)

  ghost predicate TallyOk(t: Tally, R: nat) { LoadOk(t.load, R) && CpuOk(t.cpu, 0, R) }

  function Charged(cpu: int, k: nat): int { cpu + k * F }

  ghost function NextTally(t: Tally, sec: Second, R: nat): (t': Tally)
    requires TallyOk(t, R) && Admissible([sec], R)
    ensures TallyOk(t', R)
  {
    assert sec == [sec][0];
    var load := NextLoad(t.load, sec.ready, R);
    Tally(load, NextCpu(load, Charged(t.cpu, sec.charged), sec.nice, R))
  }

  /** load_avg and a thread's recent_cpu after a run of seconds from boot. */
  ghost function TallyAfter(secs: seq<Second>, R: nat): (t: Tally)
    requires R <= MOST && Admissible(secs, R)
    ensures TallyOk(t, R)
  {
    if secs == [] then Tally(0, 0)
    else
      assert secs[|secs| - 1] == [secs[|secs| - 1]][0];
      NextTally(TallyAfter(secs[..|secs| - 1], R), secs[|secs| - 1], R)
  }

  // ----- recent_cpu without rounding

  /** The recurrence on real numbers. */
  ghost function ExactCpu(load: real, cpu: real, nice: int): real
    requires load >= 0.0
  {
    2.0 * load / (2.0 * load + 1.0) * cpu + nice as real
  }

  ghost predicate Within(a: real, b: real, bound: real) { -bound <= a - b <= bound }

  ghost function Size(x: real): real { if x < 0.0 then -x else x }

  /** A product by name, where its value does not matter. */
  ghost function Times(a: real, b: real): real { a * b }

  lemma MulReals(a: real, b: real, c: real)
    requires a <= b && c >= 0.0
    ensures a * c <= b * c && c * a <= c * b
  {
  }

  lemma ProductWithin(a: real, m: real, b: real, n: real)
    requires Within(a, 0.0, m) && Within(b, 0.0, n)
    ensures Within(a * b, 0.0, m * n)
  {
    var x, y := Size(a), Size(b);
    assert a * b == x * y || a * b == -(x * y);
    Positives(x, m, y, n);
  }

  lemma Positives(x: real, m: real, y: real, n: real)
    requires 0.0 <= x <= m && 0.0 <= y <= n
    ensures 0.0 <= x * y <= m * n
  {
    assert m * n - x * y == (m - x) * n + x * (n - y);
    assert (m - x) * n >= 0.0 && x * (n - y) >= 0.0;
  }

  /** The fraction 2x/(2x+F). */
  ghost function Fraction(x: real): (q: real)
    requires x >= 0.0
    ensures q * (2.0 * x + 16384.0) == 2.0 * x && 0.0 <= q < 1.0
  {
    2.0 * x / (2.0 * x + 16384.0)
  }

  lemma OrderOf(a: real, b: real, w: real)
    requires w > 0.0
    ensures a * w <= b * w <==> a <= b
  {
    if a <= b {
      MulReals(a, b, w);
    } else {
      assert a * w - b * w == (a - b) * w > 0.0;
    }
  }

  lemma QuotientNear(n: int, w: int, d: int, q: real)
    requires w > 0 && w * d <= n < w * (d + 1) && q * w as real == n as real
    ensures d as real <= q < d as real + 1.0
  {
    var v := w as real;
    assert d as real * v == (w * d) as real && (d as real + 1.0) * v == (w * (d + 1)) as real;
    OrderOf(d as real, q, v);
    OrderOf(d as real + 1.0, q, v);
  }

  lemma ScaledFraction(load: int)
    requires load >= 0
    ensures Fraction(load as real) * 16384.0 * (2 * load + F) as real == (2 * load * F) as real
  {
    var q, w := Fraction(load as real), (2 * load + F) as real;
    assert q * w == 2.0 * load as real;
    assert q * 16384.0 * w == q * w * 16384.0;
  }

  /** Decay is that fraction, rounded down to a unit. */
  lemma DecayNear(load: I32, R: nat)
    requires LoadOk(load, R)
    ensures Decay(load, R) as real <= Fraction(load as real) * 16384.0 < Decay(load, R) as real + 1.0
  {
    var twice: int := 2 * load;
    TruncDivBounds(twice * F, twice + F);
    ScaledFraction(load);
    hide TruncDiv, Fraction;
    QuotientNear(twice * F, twice + F, TruncDiv(twice * F, twice + F), Fraction(load as real) * 16384.0);
  }

  /** What an update keeps of recent_cpu. */
  lemma KeptOf(load: I32, cpu: I32, nice: I32, R: nat) returns (kept: real)
    requires LoadOk(load, R) && CpuOk(cpu, TIMER_FREQ, R) && NiceOk(nice)
    ensures NextCpu(load, cpu, nice, R) as real == kept + 16384.0 * nice as real
    ensures Within(kept, Times(Fraction(load as real), cpu as real), 1.0 + Size(cpu as real / 16384.0))
  {
    hide Fraction, Decay, NextCpu, Size;
    DecayNear(load, R);
    kept := Kept(load, cpu, nice, R);
    KeptNear(Fraction(load as real), Decay(load, R) as real, cpu as real, kept);
  }

  /** One update is within one unit, and one more for each whole that recent_cpu has, of the exact one. */
  lemma NextCpuNear(load: I32, cpu: I32, nice: I32, R: nat)
    requires LoadOk(load, R) && CpuOk(cpu, TIMER_FREQ, R) && NiceOk(nice)
    ensures Within(NextCpu(load, cpu, nice, R) as real,
                   16384.0 * ExactCpu(load as real / 16384.0, cpu as real / 16384.0, nice),
                   1.0 + Size(cpu as real / 16384.0))
  {
    assert load >= 0;
    hide *;
    var kept := KeptOf(load, cpu, nice, R);
    ScaledCpu(load as real, cpu as real, nice);
    WithinPlus(kept, Times(Fraction(load as real), cpu as real), 1.0 + Size(cpu as real / 16384.0),
               16384.0 * nice as real);
  }

  lemma WithinPlus(a: real, b: real, bound: real, c: real)
    requires Within(a, b, bound)
    ensures Within(a + c, b + c, bound)
  {
  }

  lemma KeptNear(q: real, d: real, c: real, kept: real)
    requires d <= q * 16384.0 < d + 1.0 && Within(kept, Times(d, c) / 16384.0, 1.0)
    ensures Within(kept, Times(q, c), 1.0 + Size(c / 16384.0))
  {
    var e, x := d - q * 16384.0, c / 16384.0;
    ProductWithin(e, 1.0, x, Size(x));
    assert e * x == d * x - q * 16384.0 * x;
    assert d * x == d * c / 16384.0;
    assert q * 16384.0 * x == q * c;
  }

  lemma ScaledCpu(load: real, cpu: real, nice: int)
    requires load >= 0.0
    ensures 16384.0 * ExactCpu(load / 16384.0, cpu / 16384.0, nice)
         == Times(Fraction(load), cpu) + 16384.0 * nice as real
  {
    var w := 2.0 * load + 16384.0;
    assert 2.0 * (load / 16384.0) == 2.0 * load / 16384.0;
    assert 2.0 * (load / 16384.0) + 1.0 == w / 16384.0;
    assert 2.0 * (load / 16384.0) / (w / 16384.0) == 2.0 * load / w;
  }

  lemma TruncNear(n: int)
    ensures Within(TruncDiv(n, F) as real, n as real / 16384.0, 1.0)
  {
    TruncDivBounds(n, F);
  }

  lemma NextCpuIs(load: I32, cpu: I32, nice: I32, R: nat)
    requires LoadOk(load, R) && CpuOk(cpu, TIMER_FREQ, R) && NiceOk(nice)
    ensures NextCpu(load, cpu, nice, R) == TruncDiv(Decay(load, R) * cpu, F) + nice * F
  {
    NextCpuFits(load, cpu, nice, R);
  }

  /** The product of Decay and recent_cpu is within a unit. */
  lemma Kept(load: I32, cpu: I32, nice: I32, R: nat) returns (kept: real)
    requires LoadOk(load, R) && CpuOk(cpu, TIMER_FREQ, R) && NiceOk(nice)
    ensures NextCpu(load, cpu, nice, R) as real == kept + 16384.0 * nice as real
    ensures Within(kept, Times(Decay(load, R) as real, cpu as real) / 16384.0, 1.0)
  {
    NextCpuIs(load, cpu, nice, R);
    hide *;
    kept := TruncProductNear(Decay(load, R), cpu);
  }

  lemma TruncProductNear(a: int, b: int) returns (kept: real)
    ensures kept == TruncDiv(a * b, F) as real && Within(kept, Times(a as real, b as real) / 16384.0, 1.0)
  {
    kept := TruncDiv(a * b, F) as real;
    TruncNear(a * b);
    assert (a * b) as real == a as real * b as real;
  }

  datatype ExactTally = ExactTally(load: real, cpu: real)

  /** The same run of seconds without rounding. */
  ghost function ExactTallyAfter(secs: seq<Second>): (t: ExactTally)
    ensures t.load >= 0.0
  {
    if secs == [] then ExactTally(0.0, 0.0)
    else ExactNext(ExactTallyAfter(secs[..|secs| - 1]), secs[|secs| - 1])
  }

  ghost function ExactNext(t: ExactTally, sec: Second): (t': ExactTally)
    requires t.load >= 0.0
    ensures t'.load >= 0.0
  {
    var load := ExactLoad(t.load, sec.ready);
    ExactTally(load, ExactCpu(load, t.cpu + sec.charged as real, sec.nice))
  }

  /** Both numbers are within their drifts. */
  ghost predicate Tracks(t: Tally, e: ExactTally, R: nat) {
    && 0.0 <= e.load <= R as real && Trails(t.load, e.load, R)
    && Within(t.cpu as real, 16384.0 * e.cpu, CpuDrift(R as real))
  }

  /** How far recent_cpu drifts at most, in units of 2^-14: its own rounding, and the load's lag. */
  ghost function CpuDrift(R: real): real {
    (240.0 * R + 121.0) * (2.0 * R + 1.0) + 120.0 * (R + 1.0) * (240.0 * R + 120.0)
  }

  lemma FractionGap(l: real, e: real, w: real) returns (gap: real)
    requires 0.0 <= l <= e && w == 2.0 * e + 16384.0
    ensures gap == Fraction(e) - Fraction(l) >= 0.0 && Times(gap, w) <= 2.0 * (e - l)
    ensures Times(Fraction(e), w) == 2.0 * e
  {
    var p, q, x := Fraction(e), Fraction(l), 2.0 * (e - l);
    gap := p - q;
    assert q * w == q * (2.0 * l + 16384.0) + q * x == 2.0 * l + q * x;
    assert p * w == 2.0 * e && gap * w == p * w - q * w;
    MulReals(0.0, q, x);
    MulReals(q, 1.0, x);
    var y := gap * w;
    assert y == x - q * x;
    assert 0.0 <= y <= x;
    OrderOf(0.0, gap, w);
  }

  lemma Regrouped(a: real, b: real, c: real)
    ensures (a * b) * c == (a * c) * b
  {
  }

  lemma DriftSum(R: real, c: real, x: real, wide: real, lag: real, m: real)
    requires c == 240.0 * R + 120.0 && x == 1.0 + c && m == c * 16384.0
    requires wide == (2.0 * R + 1.0) * 16384.0 && lag == 120.0 * (R + 1.0)
    ensures Times(x, wide) + Times(lag, m) == 16384.0 * CpuDrift(R)
  {
    assert x * wide == 16384.0 * ((240.0 * R + 121.0) * (2.0 * R + 1.0));
    assert lag * m == 16384.0 * (lag * c);
  }

  lemma DriftWeighed(w: real, k: real, wide: real, lag: real, m: real, x: real, gap: real, p: real, e: real)
    requires Times(x, wide) + Times(lag, m) == 16384.0 * k && w == 2.0 * e + 16384.0 && Times(p, w) == 2.0 * e
    requires 0.0 < w <= wide && Times(gap, w) <= lag && x >= 0.0 && m >= 0.0
    ensures (x + Times(gap, m) + Times(p, k)) * w <= k * w
  {
    MulReals(w, wide, x);
    MulReals(gap * w, lag, m);
    Regrouped(gap, m, w);
    Regrouped(p, k, w);
    assert (x + gap * m + p * k) * w == x * w + (gap * m) * w + (p * k) * w;
    assert k * w == 2.0 * e * k + 16384.0 * k;
  }

  /** The gap of the fractions, the rounding and what is left of the old drift add up to no more than it. */
  lemma DriftCloses(R: real, e: real, w: real, gap: real, p: real, c: real)
    requires R >= 0.0 && 0.0 <= e <= R * 16384.0 && w == 2.0 * e + 16384.0 && Times(p, w) == 2.0 * e
    requires gap >= 0.0 && Times(gap, w) <= 120.0 * (R + 1.0) && c == 240.0 * R + 120.0
    ensures 1.0 + c + Times(gap, c * 16384.0) + Times(p, CpuDrift(R)) <= CpuDrift(R)
  {
    hide CpuDrift;
    var k, wide, lag, m, x := CpuDrift(R), (2.0 * R + 1.0) * 16384.0, 120.0 * (R + 1.0), c * 16384.0, 1.0 + c;
    DriftSum(R, c, x, wide, lag, m);
    DriftWeighed(w, k, wide, lag, m, x, gap, p, e);
    hide Times;
    OrderOf(x + Times(gap, m) + Times(p, k), k, w);
  }

  /** The load in units of 2^-14 lags behind the exact one, which is in range. */
  ghost predicate Lags(load: real, e: real, R: real) {
    0.0 <= load <= e <= R * 16384.0 && e - load <= 60.0 * (R + 1.0)
  }

  /** An update with a lagging load keeps recent_cpu within the drift. */
  lemma DriftStep(l: real, e: real, c: real, x: real, kept: real, R: real, next: real)
    requires R >= 0.0 && Lags(l, e, R)
    requires Size(c / 16384.0) <= 240.0 * R + 120.0 && Within(c, x, CpuDrift(R))
    requires Within(kept, Times(Fraction(l), c), 1.0 + Size(c / 16384.0))
    requires next == Times(Fraction(e), x)
    ensures Within(kept, next, CpuDrift(R))
  {
    var most := 240.0 * R + 120.0;
    SizeWithin(c, most);
    hide *;
    var m, a, q := most * 16384.0, 1.0 + most, Fraction(l);
    Wider(kept, Times(q, c), 1.0 + Size(c / 16384.0), a);
    var gap := DriftRoom(l, e, R, most);
    DriftAdded(kept, Fraction(e), q, gap, c, x, m, a, CpuDrift(R), next);
  }

  lemma SizeWithin(c: real, most: real)
    requires Size(c / 16384.0) <= most
    ensures Within(c, 0.0, most * 16384.0)
  {
  }

  lemma DriftRoom(l: real, e: real, R: real, most: real) returns (gap: real)
    requires R >= 0.0 && Lags(l, e, R) && most == 240.0 * R + 120.0
    ensures gap == Fraction(e) - Fraction(l) >= 0.0 && Fraction(e) >= 0.0
    ensures 1.0 + most + Times(gap, most * 16384.0) + Times(Fraction(e), CpuDrift(R)) <= CpuDrift(R)
  {
    hide CpuDrift, Fraction, Times;
    var w := 2.0 * e + 16384.0;
    gap := FractionGap(l, e, w);
    FractionPositive(e);
    DriftCloses(R, e, w, gap, Fraction(e), most);
  }

  lemma FractionPositive(x: real)
    requires x >= 0.0
    ensures Fraction(x) >= 0.0
  {
  }

  lemma DriftAdded(kept: real, p: real, q: real, gap: real, c: real, x: real, m: real, a: real, k: real,
                   next: real)
    requires next == Times(p, x) && gap == p - q >= 0.0 && p >= 0.0 && a + Times(gap, m) + Times(p, k) <= k
    requires Within(kept, Times(q, c), a) && Within(c, 0.0, m) && Within(c, x, k)
    ensures Within(kept, next, k)
  {
    ProductWithin(gap, gap, c, m);
    ProductWithin(p, p, c - x, k);
    DriftParts(kept, p, q, c, x, a, gap * m, p * k);
    Wider(kept, p * x, a + gap * m + p * k, k);
  }

  lemma Wider(a: real, b: real, bound: real, bound': real)
    requires Within(a, b, bound) && bound <= bound'
    ensures Within(a, b, bound')
  {
  }

  lemma DriftParts(kept: real, p: real, q: real, c: real, x: real, a: real, b: real, d: real)
    requires Within(kept, q * c, a) && Within((p - q) * c, 0.0, b) && Within(p * (c - x), 0.0, d)
    ensures Within(kept, p * x, a + b + d)
  {
    assert (p - q) * c == p * c - q * c && p * (c - x) == p * c - p * x;
  }

  lemma ExactLoadRange(load: real, ready: nat, R: nat)
    requires 0.0 <= load <= R as real && ready <= R
    ensures 0.0 <= ExactLoad(load, ready) <= R as real
  {
  }

  lemma CpuSize(cpu: int, R: nat)
    requires CpuOk(cpu, TIMER_FREQ, R)
    ensures Size(cpu as real / 16384.0) <= 240.0 * R as real + 120.0
  {
  }

  lemma ScaledExact(load: real, cpu: real, nice: int, e: real, y: real) returns (next: real)
    requires load >= 0.0 && e == 16384.0 * load && y == 16384.0 * cpu
    ensures next == Times(Fraction(e), y) && 16384.0 * ExactCpu(load, cpu, nice) == next + 16384.0 * nice as real
  {
    next := Times(Fraction(e), y);
    ScaledCpu(e, y, nice);
  }

  lemma LoadTracks(t: Tally, e: ExactTally, sec: Second, R: nat)
    requires TallyOk(t, R) && Admissible([sec], R) && Tracks(t, e, R)
    ensures var t', e' := NextTally(t, sec, R), ExactNext(e, sec);
      0.0 <= e'.load <= R as real && Trails(t'.load, e'.load, R) && Lags(t'.load as real, 16384.0 * e'.load, R as real)
  {
    hide CpuDrift, NextCpu, ExactCpu;
    assert sec == [sec][0];
    NextTrails(t.load, e.load, sec.ready, R);
    ExactLoadRange(e.load, sec.ready, R);
  }

  lemma CpuTracks(load: I32, exact: real, cpu: I32, x: real, nice: I32, R: nat)
    requires LoadOk(load, R) && CpuOk(cpu, TIMER_FREQ, R) && NiceOk(nice) && exact >= 0.0
    requires Lags(load as real, 16384.0 * exact, R as real)
    requires Within(cpu as real, 16384.0 * x, CpuDrift(R as real))
    ensures Within(NextCpu(load, cpu, nice, R) as real, 16384.0 * ExactCpu(exact, x, nice), CpuDrift(R as real))
  {
    CpuSize(cpu, R);
    hide *;
    var e, y := 16384.0 * exact, 16384.0 * x;
    var kept := KeptOf(load, cpu, nice, R);
    var next := ScaledExact(exact, x, nice, e, y);
    DriftStep(load as real, e, cpu as real, y, kept, R as real, next);
    WithinPlus(kept, next, CpuDrift(R as real), 16384.0 * nice as real);
  }

  lemma ChargedTracks(cpu: int, k: nat, x: real, bound: real)
    requires Within(cpu as real, 16384.0 * x, bound)
    ensures Within(Charged(cpu, k) as real, 16384.0 * (x + k as real), bound)
  {
  }

  /** Over every run of seconds neither number drifts further than that from the exact recurrence. */
  lemma {:induction false} TallyRuns(secs: seq<Second>, R: nat)
    requires R <= MOST && Admissible(secs, R)
    ensures Tracks(TallyAfter(secs, R), ExactTallyAfter(secs), R)
  {
    if secs != [] {
      hide Tracks, NextTally, ExactNext;
      var most, sec := secs[..|secs| - 1], secs[|secs| - 1];
      TallyRuns(most, R);
      assert sec == [sec][0];
      TallyTracks(TallyAfter(most, R), ExactTallyAfter(most), sec, R);
    }
  }

  lemma TallyTracks(t: Tally, e: ExactTally, sec: Second, R: nat)
    requires TallyOk(t, R) && Admissible([sec], R) && Tracks(t, e, R)
    ensures Tracks(NextTally(t, sec, R), ExactNext(e, sec), R)
  {
    assert sec == [sec][0];
    LoadTracks(t, e, sec, R);
    ChargedTracks(t.cpu, sec.charged, e.cpu, CpuDrift(R as real));
    hide CpuDrift, NextCpu, ExactCpu, NextLoad, ExactLoad, Within, Lags;
    CpuTracks(NextLoad(t.load, sec.ready, R), ExactLoad(e.load, sec.ready), Charged(t.cpu, sec.charged),
              e.cpu + sec.charged as real, sec.nice, R);
  }

  /** Five ready threads, one of which has nice 20 and runs all the time. */
  const BUSY := Second(100, 5, 20)

  lemma LoadClimbs(load: I32, R: nat)
    requires 5 <= R && LoadOk(load, R)
    ensures load < 81500 ==> NextLoad(load, 5, R) > load
    ensures load >= 81500 ==> NextLoad(load, 5, R) >= 81500
  {
    Constants();
    TruncDivBounds(16110 * load, F);
  }

  lemma HighQuotient(twice: int, d: int)
    requires twice >= 163000 && twice * F < (twice + F) * (d + 1)
    ensures d >= 14887
  {
    if d < 14887 {
      MulMono(d + 1, 14887, twice + F);
    }
  }

  lemma DecayIsHigh(load: I32, R: nat)
    requires LoadOk(load, R) && load >= 81500
    ensures Decay(load, R) >= 14887
  {
    var twice: int := 2 * load;
    TruncDivBounds(twice * F, twice + F);
    hide TruncDiv;
    HighQuotient(twice, TruncDiv(twice * F, twice + F));
  }

  /** A recent_cpu of at least 0 stays so, and below 19852739 it grows under a high load. */
  lemma QuotientClimbs(d: int, cpu: int, kept: int)
    requires d >= 0 && cpu >= 0 && d * (cpu + 100 * F) < F * (kept + 1)
    ensures kept >= 0
    ensures d >= 14887 && cpu < 19852739 ==> kept + 20 * F > cpu
  {
    MulMono(0, d, cpu + 100 * F);
    if d >= 14887 {
      MulMono(14887, d, cpu + 100 * F);
    }
  }

  lemma CpuClimbs(load: I32, cpu: I32, R: nat)
    requires LoadOk(load, R) && CpuOk(cpu, 0, R) && cpu >= 0
    ensures NextCpu(load, Charged(cpu, 100), 20, R) >= 0
    ensures load >= 81500 && cpu < 19852739 ==> NextCpu(load, Charged(cpu, 100), 20, R) > cpu
  {
    if load >= 81500 {
      DecayIsHigh(load, R);
    }
    var d: int := Decay(load, R);
    var charged := cpu + 100 * F;
    NextCpuFits(load, charged, 20, R);
    var kept := TruncDiv(d * charged, F);
    assert NextCpu(load, charged, 20, R) == kept + 20 * F;
    hide Decay, LoadOk, CpuOk, NextCpu;
    MulMono(0, d, charged);
    TruncDivBounds(d * charged, F);
    hide TruncDiv;
    QuotientClimbs(d, cpu, kept);
  }

  /** Busy seconds carry the load, and then recent_cpu, past any value below their limits. */
  lemma {:induction false} BusyRun(secs: seq<Second>, R: nat) returns (more: seq<Second>)
    requires 5 <= R <= MOST && Admissible(secs, R) && TallyAfter(secs, R).cpu >= 0
    ensures Admissible(more, R) && !Reportable(Charged(TallyAfter(more, R).cpu, TIMER_FREQ - 1))
    decreases var l: int := 81500 - TallyAfter(secs, R).load; if l < 0 then 0 else l, 19852739 - TallyAfter(secs, R).cpu
  {
    var t := TallyAfter(secs, R);
    if t.load >= 81500 && t.cpu >= 19852739 {
      return secs;
    }
    var longer := secs + [BUSY];
    assert longer[..|longer| - 1] == secs;
    LoadClimbs(t.load, R);
    CpuClimbs(NextLoad(t.load, 5, R), t.cpu, R);
    more := BusyRun(longer, R);
  }

  /** With at most 4 ready threads recent_cpu can be reported at every tick of every run; with 5
      or more there is a run after which it cannot. */
  lemma ReportableIff(R: nat)
    requires R <= MOST
    ensures (forall secs, k: nat :: Admissible(secs, R) && k < TIMER_FREQ ==>
              Reportable(Charged(TallyAfter(secs, R).cpu, k))) <==> R <= 4
  {
    if R >= 5 {
      var secs := BusyRun([], R);
      assert !Reportable(Charged(TallyAfter(secs, R).cpu, TIMER_FREQ - 1));
    }
  }

  // ----- Priority

  /** PRI_MAX - recent_cpu/4 - nice*2, before clamping. */
  function RawPriority(cpu: I32, nice: I32, ghost R: nat): I32
    requires CpuOk(cpu, TIMER_FREQ, R) && NiceOk(nice)
  {
    FpToIntZero(SubXN(SubXY(IntToFp(PRI_MAX), DivXN(cpu, 4)), nice * 2))
  }

  function Clamped(p: int): int {
    if p > PRI_MAX then PRI_MAX else if p < PRI_MIN then PRI_MIN else p
  }

  function Priority(cpu: I32, nice: I32, ghost R: nat): (p: int)
    requires CpuOk(cpu, TIMER_FREQ, R) && NiceOk(nice)
    ensures 0 <= p <= 63
  {
    Clamped(RawPriority(cpu, nice, R))
  }

  /** More CPU time or a higher nice never raises the priority. */
  lemma PriorityFalls(cpu: I32, nice: I32, cpu': I32, nice': I32, R: nat)
    requires CpuOk(cpu, TIMER_FREQ, R) && NiceOk(nice) && CpuOk(cpu', TIMER_FREQ, R) && NiceOk(nice')
    requires cpu <= cpu' && nice <= nice'
    ensures Priority(cpu', nice', R) <= Priority(cpu, nice, R)
  {
    hide TruncDiv;
    TruncDivMono(cpu, cpu', 4);
    TruncDivMono(PRI_MAX * F - TruncDiv(cpu', 4) - 2 * nice' * F, PRI_MAX * F - TruncDiv(cpu, 4) - 2 * nice * F, F);
  }

  /** Away from the ends of the range, the priority is the exact formula rounded down, give or
      take the quarter units lost in recent_cpu/4. */
  lemma PriorityExact(cpu: I32, nice: I32, R: nat)
    requires CpuOk(cpu, TIMER_FREQ, R) && NiceOk(nice)
    ensures var p, exact4 := Priority(cpu, nice, R), 4 * 63 * F - cpu - 8 * nice * F;
      && (p > 0 ==> 4 * F * p - 3 <= exact4)
      && (p < 63 ==> exact4 < 4 * F * (p + 1))
  {
    TruncDivBounds(cpu, 4);
    TruncDivBounds(PRI_MAX * F - TruncDiv(cpu, 4) - 2 * nice * F, F);
  }

  /** What thread_set_nice leaves as the priority of a thread that is not the idle one. */
  function NicePriority(cpu: I32, nice: I32, was: int, ghost R: nat): int
    requires CpuOk(cpu, TIMER_FREQ, R) && NiceOk(nice)
  {
    var p := RawPriority(cpu, nice, R);
    if p > PRI_MAX then PRI_MAX else if p < PRI_MIN then PRI_MIN else was
  }

  /** That is the thread's priority exactly when the formula leaves the range or gives the old value. */
  lemma NicePriorityRight(cpu: I32, nice: I32, was: int, R: nat)
    requires CpuOk(cpu, TIMER_FREQ, R) && NiceOk(nice)
    ensures NicePriority(cpu, nice, was, R) == Priority(cpu, nice, R)
      <==> !(PRI_MIN <= RawPriority(cpu, nice, R) <= PRI_MAX) || RawPriority(cpu, nice, R) == was
  {
  }

  /** A thread whose priority was up to date keeps it so exactly when its nice does not change, or
      the formula leaves the range, or gives the end of it where the old priority was cut off. */
  lemma NiceChangeRight(cpu: I32, nice: I32, nice': I32, R: nat)
    requires CpuOk(cpu, TIMER_FREQ, R) && NiceOk(nice) && NiceOk(nice')
    ensures var p := RawPriority(cpu, nice', R);
      NicePriority(cpu, nice', Priority(cpu, nice, R), R) == Priority(cpu, nice', R)
      <==> nice' == nice || p < PRI_MIN || p > PRI_MAX || p == (if nice' > nice then PRI_MAX else PRI_MIN)
  {
    var quarter: int := TruncDiv(cpu, 4);
    TruncDivBounds(PRI_MAX * F - quarter - 2 * nice * F, F);
    TruncDivBounds(PRI_MAX * F - quarter - 2 * nice' * F, F);
    hide TruncDiv;
  }

  // ----- The scheduler's state over a run

  datatype Status = Running | Ready | Blocked

  class Thread {
    const idle: bool // named "idle"
    var status: Status
    var nice: I32
    var recentCpu: I32
    var priority: int

    constructor (idle: bool, priority: int)
      ensures this.idle == idle && this.priority == priority && status == Blocked && nice == 0 && recentCpu == 0
    {
      this.idle, this.priority := idle, priority;
      status, nice, recentCpu := Blocked, 0, 0;
    }
  }

  ghost predicate ThreadOk(t: Thread, ticks: nat, R: nat)
    reads t
  {
    && NiceOk(t.nice) && PRI_MIN <= t.priority <= PRI_MAX
    && CpuOk(t.recentCpu, if t.idle then TIMER_FREQ else ticks % TIMER_FREQ, R)
  }

  predicate Counts(t: Thread)
    reads t`status
  {
    (t.status == Running || t.status == Ready) && !t.idle
  }

  ghost function ReadyThreads(all: seq<Thread>): nat
    reads all`status
  {
    if all == [] then 0 else ReadyThreads(all[..|all| - 1]) + if Counts(all[|all| - 1]) then 1 else 0
  }

  ghost function CountedIn(all: seq<Thread>): set<Thread>
    reads all`status
  {
    set t | t in all && (t.status == Running || t.status == Ready) && !t.idle
  }

  /** They are the running and the ready threads but the idle one, each counted once. */
  lemma {:induction false} ReadyThreadsAre(all: seq<Thread>)
    requires Distinct(all)
    ensures ReadyThreads(all) == |CountedIn(all)|
  {
    if all != [] {
      var n := |all| - 1;
      ReadyThreadsAre(all[..n]);
      assert all == all[..n] + [all[n]];
      assert CountedIn(all) == CountedIn(all[..n]) + if Counts(all[n]) then {all[n]} else {};
    }
  }

  lemma TickOfSecond(since: nat)
    ensures (since + 1) % TIMER_FREQ == if since % TIMER_FREQ + 1 == TIMER_FREQ then 0 else since % TIMER_FREQ + 1
  {
  }

  class Scheduler {
    var allList: seq<Thread>
    var current: Thread
    var ticks: nat
    var loadAvg: I32
    ghost var exact: real // the load average without rounding
    ghost const R: nat    // the most threads ever ready at an update

    ghost predicate Valid()
      reads this, allList
    {
      && Distinct(allList) && current in allList
      && LoadOk(loadAvg, R) && Trails(loadAvg, exact, R)
      && forall t :: t in allList ==> ThreadOk(t, ticks, R)
    }

    /** thread_init: the initial thread alone, running. */
    constructor (ghost R: nat)
      requires R <= MOST
      ensures Valid() && this.R == R && ticks == 0 && loadAvg == 0 && allList == [current]
      ensures fresh(current) && !current.idle && current.status == Running
      ensures current.nice == 0 && current.recentCpu == 0 && current.priority == Priority(0, 0, R)
    {
      var t := new Thread(false, Priority(0, 0, R));
      t.status := Running;
      allList, current := [t], t;
      ticks, loadAvg, exact, this.R := 0, 0, 0.0, R;
    }

    /** The part of thread_create under -mlfqs: the child inherits nice and recent_cpu. */
    method Create(name: string) returns (t: Thread)
      requires Valid() && !current.idle
      modifies this`allList
      ensures Valid() && fresh(t) && allList == old(allList) + [t]
      ensures t.nice == current.nice && t.recentCpu == current.recentCpu && t.status == Ready
      ensures t.priority == Priority(t.recentCpu, t.nice, R)
    {
      t := new Thread(name == "idle", 0);
      t.nice, t.recentCpu := current.nice, current.recentCpu;
      t.priority := Priority(t.recentCpu, t.nice, R);
      t.status := Ready;
      allList := allList + [t];
    }

    /** thread_set_nice. A recomputed priority is stored only if it is out of range. */
    method SetNice(nice: I32)
      requires Valid() && NiceOk(nice)
      modifies current`nice, current`priority
      ensures Valid() && current.nice == nice
      ensures current.priority ==
        if current.idle then old(current.priority) else NicePriority(current.recentCpu, nice, old(current.priority), R)
    {
      current.nice := nice;
      if !current.idle {
        var p := RawPriority(current.recentCpu, nice, R);
        if p > PRI_MAX {
          current.priority := PRI_MAX;
        } else if p < PRI_MIN {
          current.priority := PRI_MIN;
        }
      }
    }

    /** thread_unblock's change of status. */
    method Unblock(t: Thread)
      requires Valid() && t in allList && t.status == Blocked
      modifies t`status
      ensures Valid() && t.status == Ready
    {
      t.status := Ready;
    }

    /** The running thread gives up the CPU, blocked or ready, and `next` gets it. */
    method Schedule(status: Status, next: Thread)
      requires Valid() && next in allList
      modifies this`current, current`status, next`status
      ensures Valid() && current == next && next.status == Running
      ensures old(current) != next ==> old(current).status == status
    {
      current.status := status;
      current := next;
      current.status := Running;
    }

    /** thread_exit: the running thread leaves all_list and `next` gets the CPU. */
    method Exit(ghost k: nat, next: Thread)
      requires Valid() && k < |allList| && allList[k] == current && next in allList && next != current
      modifies this`allList, this`current, next`status
      ensures Valid() && current == next
      ensures allList == old(allList)[..k] + old(allList)[k + 1..]
    {
      ghost var was := allList;
      var i := 0;
      while allList[i] != current
        invariant i <= k && forall j :: 0 <= j < i ==> allList[j] != current
        decreases k - i
      {
        i := i + 1;
      }
      allList := allList[..i] + allList[i + 1..];
      assert forall t :: t in allList <==> t in was && t != was[k];
      current := next;
      current.status := Running;
    }

    /** bsd_increase_recent_cpu. */
    method IncreaseRecentCpu(ghost since: nat)
      requires current in allList && forall t :: t in allList ==> ThreadOk(t, since, R)
      modifies current`recentCpu
      ensures current.recentCpu == old(current.recentCpu) + if current.idle then 0 else F
      ensures forall t :: t in allList ==> CpuOk(t.recentCpu, TIMER_FREQ, R)
      ensures forall t :: t in allList && !t.idle ==> CpuOk(t.recentCpu, since % TIMER_FREQ + 1, R)
    {
      if !current.idle {
        current.recentCpu := AddXN(current.recentCpu, 1);
      }
    }

    /** bsd_cal_priority. */
    method CalPriority()
      requires Distinct(allList)
      requires forall t :: t in allList ==> CpuOk(t.recentCpu, TIMER_FREQ, R) && NiceOk(t.nice)
      modifies set t | t in allList :: t`priority
      ensures forall t :: t in allList ==> t.priority == Priority(t.recentCpu, t.nice, R)
    {
      for i := 0 to |allList|
        invariant forall j :: 0 <= j < i ==> allList[j].priority == Priority(allList[j].recentCpu, allList[j].nice, R)
      {
        var t := allList[i];
        var p := RawPriority(t.recentCpu, t.nice, R);
        if p > PRI_MAX {
          t.priority := PRI_MAX;
        } else if p < PRI_MIN {
          t.priority := PRI_MIN;
        } else {
          t.priority := p;
        }
      }
    }

    /** bsd_cal_load_avg. */
    method CalLoadAvg()
      requires LoadOk(loadAvg, R) && ReadyThreads(allList) <= R
      modifies this`loadAvg
      ensures loadAvg == NextLoad(old(loadAvg), ReadyThreads(allList), R)
    {
      var readyThreads := 0;
      for i := 0 to |allList|
        invariant readyThreads == ReadyThreads(allList[..i])
      {
        var t := allList[i];
        assert allList[..i + 1][..i] == allList[..i];
        if t.status == Running || t.status == Ready {
          if !t.idle {
            readyThreads := readyThreads + 1;
          }
        }
      }
      assert allList[..|allList|] == allList;
      loadAvg := NextLoad(loadAvg, readyThreads, R);
    }

    /** bsd_cal_recent_cpu. */
    method CalRecentCpu()
      requires Distinct(allList) && LoadOk(loadAvg, R)
      requires forall t :: t in allList ==> CpuOk(t.recentCpu, TIMER_FREQ, R) && NiceOk(t.nice)
      modifies set t | t in allList :: t`recentCpu
      ensures forall t :: t in allList ==>
        t.recentCpu == if t.idle then old(t.recentCpu) else NextCpu(loadAvg, old(t.recentCpu), t.nice, R)
    {
      for i := 0 to |allList|
        invariant forall j :: i <= j < |allList| ==> allList[j].recentCpu == old(allList[j].recentCpu)
        invariant forall j :: 0 <= j < i && allList[j].idle ==> allList[j].recentCpu == old(allList[j].recentCpu)
        invariant forall j :: 0 <= j < i && !allList[j].idle ==>
          && allList[j].recentCpu == NextCpu(loadAvg, old(allList[j].recentCpu), allList[j].nice, R)
      {
        var t := allList[i];
        assert t in allList && t.recentCpu == old(t.recentCpu) && CpuOk(t.recentCpu, TIMER_FREQ, R) && NiceOk(t.nice);
        assert forall j :: 0 <= j < |allList| && j != i ==> allList[j] != t;
        if !t.idle {
          t.recentCpu := NextCpu(loadAvg, t.recentCpu, t.nice, R);
        }
      }
    }

    /** The once-a-second updates: the load average first, then recent_cpu from it. */
    method EverySecond()
      requires Distinct(allList) && LoadOk(loadAvg, R) && Trails(loadAvg, exact, R) && ReadyThreads(allList) <= R
      requires forall t :: t in allList ==> CpuOk(t.recentCpu, TIMER_FREQ, R) && NiceOk(t.nice)
      modifies this`loadAvg, this`exact, set t | t in allList :: t`recentCpu
      ensures loadAvg == NextLoad(old(loadAvg), ReadyThreads(allList), R)
      ensures exact == ExactLoad(old(exact), ReadyThreads(allList)) && Trails(loadAvg, exact, R)
      ensures forall t :: t in allList && t.idle ==> t.recentCpu == old(t.recentCpu)
      ensures forall t :: t in allList && !t.idle ==> t.recentCpu == NextCpu(loadAvg, old(t.recentCpu), t.nice, R)
    {
      NextTrails(loadAvg, exact, ReadyThreads(allList), R);
      exact := ExactLoad(exact, ReadyThreads(allList));
      CalLoadAvg();
      CalRecentCpu();
    }

    /** Every fourth tick the priorities, and every second the load average and recent_cpu. */
    method Recalculate()
      requires Distinct(allList) && LoadOk(loadAvg, R) && Trails(loadAvg, exact, R) && ReadyThreads(allList) <= R
      requires forall t :: t in allList ==> CpuOk(t.recentCpu, TIMER_FREQ, R) && NiceOk(t.nice)
      modifies this`loadAvg, this`exact, set t | t in allList :: t`priority, set t | t in allList :: t`recentCpu
      ensures loadAvg ==
        if ticks % TIMER_FREQ == 0 then NextLoad(old(loadAvg), ReadyThreads(allList), R) else old(loadAvg)
      ensures exact == if ticks % TIMER_FREQ == 0 then ExactLoad(old(exact), ReadyThreads(allList)) else old(exact)
      ensures LoadOk(loadAvg, R) && Trails(loadAvg, exact, R)
      ensures forall t :: t in allList ==>
        t.priority == if ticks % 4 == 0 then Priority(old(t.recentCpu), t.nice, R) else old(t.priority)
      ensures forall t :: t in allList ==>
        t.recentCpu == if ticks % TIMER_FREQ == 0 && !t.idle then NextCpu(loadAvg, old(t.recentCpu), t.nice, R)
          else old(t.recentCpu)
    {
      hide Priority, NextCpu, NextLoad, Trails, ExactLoad, LoadOk, Distinct, ReadyThreads, CpuOk, NiceOk;
      if ticks % 4 == 0 {
        CalPriority();
      }
      if ticks % TIMER_FREQ == 0 {
        EverySecond();
      }
    }

    /** The BSD part of timer_interrupt, in its order: charge the running thread; every fourth
        tick, priorities from the values as they stand; every second, the load average and
        then each thread's recent_cpu from it. */
    method TimerInterrupt()
      requires Valid() && ReadyThreads(allList) <= R
      modifies this`ticks, this`loadAvg, this`exact
      modifies set t | t in allList :: t`priority, set t | t in allList :: t`recentCpu
      ensures Valid() && ticks == old(ticks) + 1
      ensures ticks % 100 != 0 ==> loadAvg == old(loadAvg)
      ensures ticks % 100 == 0 ==> loadAvg == NextLoad(old(loadAvg), old(ReadyThreads(allList)), R)
      ensures exact == if ticks % 100 == 0 then ExactLoad(old(exact), old(ReadyThreads(allList))) else old(exact)
      ensures forall t :: t in allList ==>
        var charged := old(t.recentCpu) + if t == current && !t.idle then F else 0;
        && CpuOk(charged, TIMER_FREQ, R)
        && t.priority == (if ticks % 4 == 0 then Priority(charged, t.nice, R) else old(t.priority))
        && t.recentCpu == if ticks % 100 == 0 && !t.idle then NextCpu(loadAvg, charged, t.nice, R) else charged
    {
      hide Priority, NextCpu, NextLoad, Trails, ExactLoad, LoadOk, Distinct, ReadyThreads, CpuOk;
      TickOfSecond(ticks);
      ticks := ticks + 1;
      IncreaseRecentCpu(ticks - 1);
      Recalculate();
      forall t | t in allList ensures ThreadOk(t, ticks, R) {
      }
    }

    /** 100 times the load average, rounded to nearest. */
    method GetLoadAvg() returns (r: int)
      requires Valid()
      ensures 2 * Abs(r * F - 100 * loadAvg) <= F
    {
      r := FpToIntNear(MulXN(loadAvg, 100));
    }

    /** 100 times recent_cpu, rounded to nearest; None if forming that overflows an int. */
    method GetRecentCpu() returns (r: Option<int>)
      requires Valid()
      ensures r.None? <==> !Reportable(current.recentCpu)
      ensures r.Some? ==> 2 * Abs(r.value * F - 100 * current.recentCpu) <= F
    {
      HundredfoldFits(current.recentCpu);
      if !Reportable(current.recentCpu) {
        return None;
      }
      r := Some(FpToIntNear(MulXN(current.recentCpu, 100)));
    }
  }

  /** At boot, raising nice to 1 leaves the priority at 63, where the formula gives 61. */
  method StaleNice() returns (s: Scheduler)
    ensures fresh(s) && s.Valid() && s.current.nice == 1
    ensures s.current.priority == 63 && Priority(s.current.recentCpu, s.current.nice, s.R) == 61
  {
    s := new Scheduler(1);
    s.SetNice(1);
  }
}
