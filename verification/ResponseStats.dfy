/** The lock-free average, the sliding window and the percentile of include/performance_monitor.hpp.
    Doubles are modelled as reals. */
module ResponseStats {

  // ----- the exponential moving average -----

  const ALPHA: real := 0.1

  function Ema(avg: real, sample: real): real {
    if avg == 0.0 then sample else ALPHA * sample + (1.0 - ALPHA) * avg
  }

  // What a single thread would have stored, had it seen the samples in this order.
  function Fold(samples: seq<real>): real {
    if samples == [] then 0.0 else
      var n := |samples| - 1;
      Ema(Fold(samples[..n]), samples[n])
  }

  // A thread inside updateAverageResponseTime, between its load and a successful CAS. `seen` counts
  // the stores made to the average before `currentAvg` was read; the source does not keep it.
  datatype Update = Update(sample: real, currentAvg: real, newAvg: real, seen: nat)

  // `folded` and `stores` are history: the samples stored since the last reset, in the order of
  // the successful CASes, and the number of stores made so far.
  datatype Shared = Shared(average: real, updates: map<nat, Update>, folded: seq<real>, stores: nat)

  function Start(): Shared {
    Shared(0.0, map[], [], 0)
  }

  datatype Step =
    | Load(thread: nat, sample: real)
    | Cas(thread: nat, spurious: bool)
    | Reset

  predicate CasSucceeds(s: Shared, t: nat, spurious: bool) {
    t in s.updates && s.updates[t].currentAvg == s.average && !spurious
  }

  function Next(s: Shared, step: Step): Shared {
    match step
    case Load(t, sample) =>
      if t in s.updates then s
      else s.(updates := s.updates[t := Update(sample, s.average, Ema(s.average, sample), s.stores)])
    case Cas(t, spurious) =>
      if t !in s.updates then s else
        var u := s.updates[t];
        if CasSucceeds(s, t, spurious) then
          Shared(u.newAvg, s.updates - {t}, s.folded + [u.sample], s.stores + 1)
        else
          s.(updates := s.updates[t := Update(u.sample, s.average, Ema(s.average, u.sample), s.stores)])
    case Reset =>
      s.(average := 0.0, folded := [], stores := s.stores + 1)
  }

  function Exec(steps: seq<Step>): Shared {
    if steps == [] then Start() else
      var n := |steps| - 1;
      Next(Exec(steps[..n]), steps[n])
  }

  ghost predicate Inv(s: Shared) {
    && s.average == Fold(s.folded)
    && forall t :: t in s.updates ==>
         var u := s.updates[t];
         && u.newAvg == Ema(u.currentAvg, u.sample)
         && u.seen <= s.stores
         && (u.seen == s.stores ==> u.currentAvg == s.average)
  }

  /** Under any interleaving of threads, spurious failures and resets, the stored average is the
      sequential fold of the samples in the order of their successful CASes. */
  lemma {:induction false} AverageIsSequentialFold(steps: seq<Step>)
    ensures Inv(Exec(steps))
  {
    if steps != [] {
      var n := |steps| - 1;
      AverageIsSequentialFold(steps[..n]);
      var s := Exec(steps[..n]);
      if steps[n].Cas? && CasSucceeds(s, steps[n].thread, steps[n].spurious) {
        var x := s.updates[steps[n].thread].sample;
        assert (s.folded + [x])[..|s.folded|] == s.folded;
      }
    }
  }

  /** The loop is lock-free: a CAS that fails without being spurious proves that some thread stored
      a new average after this one last read it. */
  lemma FailedCasMeansProgress(steps: seq<Step>, t: nat)
    requires var s := Exec(steps); t in s.updates && !CasSucceeds(s, t, false)
    ensures Exec(steps).updates[t].seen < Exec(steps).stores
  {
    AverageIsSequentialFold(steps);
  }

  ghost predicate Within(samples: seq<real>, x: real) {
    (exists i :: 0 <= i < |samples| && samples[i] <= x) && (exists i :: 0 <= i < |samples| && x <= samples[i])
  }

  lemma EmaWithin(samples: seq<real>, avg: real, x: real)
    requires samples == [] ==> avg == 0.0
    requires samples != [] ==> Within(samples, avg)
    ensures Within(samples + [x], Ema(avg, x))
  {
    var all := samples + [x];
    assert all[|samples|] == x;
    if samples != [] {
      var i :| 0 <= i < |samples| && samples[i] <= avg;
      var j :| 0 <= j < |samples| && avg <= samples[j];
      assert all[i] == samples[i] && all[j] == samples[j];
    }
  }

  lemma {:induction false} FoldWithin(samples: seq<real>)
    ensures samples != [] ==> Within(samples, Fold(samples))
  {
    if samples != [] {
      var n := |samples| - 1;
      FoldWithin(samples[..n]);
      EmaWithin(samples[..n], Fold(samples[..n]), samples[n]);
      assert samples[..n] + [samples[n]] == samples;
    }
  }

  /** Once a sample has been stored since the last reset, the average lies between the smallest and
      the largest of them. */
  lemma AverageWithinSamples(steps: seq<Step>)
    requires Exec(steps).folded != []
    ensures Within(Exec(steps).folded, Exec(steps).average)
  {
    AverageIsSequentialFold(steps);
    FoldWithin(Exec(steps).folded);
  }

  // ----- what the average weighs -----

  function Power(x: real, n: nat): real {
    if n == 0 then 1.0 else x * Power(x, n - 1)
  }

  // The first of n + 1 samples weighs 0.9^n; the one k places before the last weighs 0.1 * 0.9^k.
  function Weight(i: nat, n: nat): real
    requires i < n
  {
    if i == 0 then Power(0.9, n - 1) else 0.1 * Power(0.9, n - 1 - i)
  }

  function WeightedSum(samples: seq<real>, upTo: nat): real
    requires upTo <= |samples|
  {
    if upTo == 0 then 0.0
    else WeightedSum(samples, upTo - 1) + Weight(upTo - 1, |samples|) * samples[upTo - 1]
  }

  lemma {:induction false} OlderWeighsLess(samples: seq<real>, x: real, upTo: nat)
    requires 0 < |samples| && upTo <= |samples|
    ensures WeightedSum(samples + [x], upTo) == 0.9 * WeightedSum(samples, upTo)
  {
    if upTo > 0 {
      OlderWeighsLess(samples, x, upTo - 1);
      var n, i := |samples|, upTo - 1;
      assert Weight(i, n + 1) == 0.9 * Weight(i, n);
      assert (samples + [x])[i] == samples[i];
      Distribute(0.9, WeightedSum(samples, i), Weight(i, n), samples[i]);
    }
  }

  lemma Distribute(c: real, a: real, w: real, x: real)
    ensures c * (a + w * x) == c * a + (c * w) * x
  {
  }

  /** The average weighs the newest sample 0.1, each older one 0.9 times as much as the next, and the
      first one whatever is left, unless the average was zero on the way. */
  lemma {:induction false} FoldIsWeightedSum(samples: seq<real>)
    requires samples != [] && forall n :: 0 < n < |samples| ==> Fold(samples[..n]) != 0.0
    ensures Fold(samples) == WeightedSum(samples, |samples|)
  {
    var n := |samples| - 1;
    var front, last := samples[..n], samples[n];
    assert samples == front + [last];
    if n == 0 {
      assert Fold(front) == 0.0 && Weight(0, 1) == 1.0;
    } else {
      forall k | 0 < k < n ensures Fold(front[..k]) != 0.0 { assert front[..k] == samples[..k]; }
      FoldIsWeightedSum(front);
      OlderWeighsLess(front, last, n);
      assert Weight(n, n + 1) == 0.1 * Power(0.9, 0);
    }
  }

  /** After a zero average the next sample starts afresh. */
  lemma ZeroStartsAfresh(samples: seq<real>, x: real)
    requires Fold(samples) == 0.0
    ensures Fold(samples + [x]) == x
  {
    assert (samples + [x])[..|samples|] == samples;
  }

  /** The shared cell: `Begin` is the load, `TryStore` one turn of the CAS loop. */
  class AverageCell {
    var average: real
    var updates: map<nat, Update>
    ghost var folded: seq<real>
    var stores: nat

    ghost function View(): Shared
      reads this
    {
      Shared(average, updates, folded, stores)
    }

    constructor ()
      ensures View() == Start()
    {
      average, updates, folded, stores := 0.0, map[], [], 0;
    }

    method Begin(t: nat, sample: real)
      requires t !in updates
      modifies this
      ensures View() == Next(old(View()), Load(t, sample))
    {
      var currentAvg := average;
      var newAvg: real;
      if currentAvg == 0.0 {
        newAvg := sample;
      } else {
        newAvg := ALPHA * sample + (1.0 - ALPHA) * currentAvg;
      }
      updates := updates[t := Update(sample, currentAvg, newAvg, stores)];
    }

    method TryStore(t: nat, spurious: bool) returns (done: bool)
      requires t in updates
      modifies this
      ensures View() == Next(old(View()), Cas(t, spurious))
      ensures done <==> CasSucceeds(old(View()), t, spurious)
      ensures done <==> t !in updates
    {
      var u := updates[t];
      if u.currentAvg == average && !spurious {
        average := u.newAvg;
        folded := folded + [u.sample];
        stores := stores + 1;
        updates := updates - {t};
        return true;
      }
      var currentAvg := average;
      var newAvg := if currentAvg == 0.0 then u.sample else ALPHA * u.sample + (1.0 - ALPHA) * currentAvg;
      updates := updates[t := Update(u.sample, currentAvg, newAvg, stores)];
      return false;
    }

    method ResetAverage()
      modifies this
      ensures View() == Next(old(View()), Reset)
    {
      average := 0.0;
      folded := [];
      stores := stores + 1;
    }
  }

  // ----- the window of recent response times -----

  const WINDOW: nat := 10000

  function Recent(times: seq<int>): seq<int> {
    if |times| <= WINDOW then times else times[|times| - WINDOW..]
  }

  // ----- percentiles -----

  function CountBelow(w: seq<int>, x: int): nat {
    if w == [] then 0 else CountBelow(w[1..], x) + if w[0] < x then 1 else 0
  }

  function CountUpTo(w: seq<int>, x: int): nat {
    if w == [] then 0 else CountUpTo(w[1..], x) + if w[0] <= x then 1 else 0
  }

  // x is the value at index k of w once w is sorted.
  ghost predicate IsOrderStatistic(w: seq<int>, k: int, x: int) {
    x in w && CountBelow(w, x) <= k < CountUpTo(w, x)
  }

  function PercentileIndex(percentile: real, n: nat): int
    requires n > 0
  {
    (percentile * (n - 1) as real).Floor
  }

  // k is percentile * (n - 1), rounded down.
  ghost predicate IsIndex(percentile: real, n: nat, k: int)
    requires n > 0
  {
    k as real <= percentile * (n - 1) as real < (k + 1) as real
  }

  /** The index is the only integer at most percentile * (n - 1) and less than one below it. */
  lemma IndexExactly(percentile: real, n: nat, k: int)
    requires n > 0
    ensures k == PercentileIndex(percentile, n) <==> IsIndex(percentile, n, k)
  {
  }

  lemma {:induction false} CountsGrow(w: seq<int>, x: int, y: int)
    requires x < y
    ensures CountUpTo(w, x) <= CountBelow(w, y)
  {
    if w != [] { CountsGrow(w[1..], x, y); }
  }

  /** Order statistics are monotone in the index, hence unique. */
  lemma OrderStatisticsAreMonotone(w: seq<int>, j: int, x: int, k: int, y: int)
    requires IsOrderStatistic(w, j, x) && IsOrderStatistic(w, k, y) && j <= k
    ensures x <= y
  {
    if y < x { CountsGrow(w, y, x); }
  }

  ghost predicate Sorted(a: seq<int>) {
    forall i, j :: 0 <= i < j < |a| ==> a[i] <= a[j]
  }

  lemma {:induction false} CountInSorted(a: seq<int>, k: nat, x: int)
    requires Sorted(a) && k < |a| && a[k] == x
    ensures CountBelow(a, x) <= k < CountUpTo(a, x)
  {
    if k > 0 {
      CountInSorted(a[1..], k - 1, x);
    } else {
      NoneBelow(a[1..], x);
    }
  }

  lemma {:induction false} NoneBelow(a: seq<int>, x: int)
    requires forall i :: 0 <= i < |a| ==> x <= a[i]
    ensures CountBelow(a, x) == 0
  {
    if a != [] { NoneBelow(a[1..], x); }
  }

  // std::sort on a copy.
  function Insert(x: int, a: seq<int>): seq<int> {
    if a == [] || x <= a[0] then [x] + a else [a[0]] + Insert(x, a[1..])
  }

  function SortedCopy(w: seq<int>): seq<int> {
    if w == [] then [] else Insert(w[0], SortedCopy(w[1..]))
  }

  lemma {:induction false} InsertSorts(x: int, a: seq<int>)
    requires Sorted(a)
    ensures var r := Insert(x, a);
            Sorted(r) && |r| == |a| + 1 && forall y :: y in r ==> y == x || y in a
  {
    if !(a == [] || x <= a[0]) {
      InsertSorts(x, a[1..]);
      var r := Insert(x, a[1..]);
      forall i | 0 <= i < |r| ensures a[0] <= r[i] { assert r[i] in r; }
    }
  }

  lemma {:induction false} InsertCounts(x: int, a: seq<int>, z: int)
    ensures CountBelow(Insert(x, a), z) == CountBelow(a, z) + if x < z then 1 else 0
    ensures CountUpTo(Insert(x, a), z) == CountUpTo(a, z) + if x <= z then 1 else 0
  {
    if !(a == [] || x <= a[0]) { InsertCounts(x, a[1..], z); }
  }

  /** The sorted copy is sorted and holds the same values ... */
  lemma {:induction false} SortedCopySorts(w: seq<int>)
    ensures var r := SortedCopy(w);
            Sorted(r) && |r| == |w| && forall y :: y in r ==> y in w
  {
    if w != [] {
      SortedCopySorts(w[1..]);
      InsertSorts(w[0], SortedCopy(w[1..]));
    }
  }

  /** ... as often. */
  lemma {:induction false} SortedCopyCounts(w: seq<int>, z: int)
    ensures CountBelow(SortedCopy(w), z) == CountBelow(w, z)
    ensures CountUpTo(SortedCopy(w), z) == CountUpTo(w, z)
  {
    if w != [] {
      SortedCopyCounts(w[1..], z);
      InsertCounts(w[0], SortedCopy(w[1..]), z);
    }
  }

  class PerformanceMonitor {
    var responseTimes: seq<int>
    ghost var recorded: seq<int>   // everything recorded since the last reset

    ghost predicate Valid()
      reads this
    {
      responseTimes == Recent(recorded)
    }

    constructor ()
      ensures Valid() && recorded == []
    {
      responseTimes, recorded := [], [];
    }

    /** The window part of recordRequestEnd: the newest WINDOW times are kept. */
    method RecordResponseTime(duration: int)
      requires Valid()
      modifies this
      ensures Valid() && recorded == old(recorded) + [duration]
      ensures |responseTimes| == (if |recorded| < 10_000 then |recorded| else 10_000)
      ensures responseTimes == recorded[|recorded| - |responseTimes|..]
    {
      responseTimes := responseTimes + [duration];
      if |responseTimes| > WINDOW {
        responseTimes := responseTimes[|responseTimes| - WINDOW..];
      }
      recorded := recorded + [duration];
    }

    method ResetWindow()
      modifies this
      ensures Valid() && recorded == []
    {
      responseTimes, recorded := [], [];
    }

    /** The percentile is an order statistic of the window, or 0 when there is none to give. */
    method GetPercentileResponseTime(percentile: real) returns (time: int)
      ensures percentile < 0.0 || percentile > 1.0 || responseTimes == [] ==> time == 0
      ensures 0.0 <= percentile <= 1.0 && responseTimes != [] ==>
                IsOrderStatistic(responseTimes, PercentileIndex(percentile, |responseTimes|), time)
      ensures 0.0 <= percentile <= 1.0 && responseTimes != [] ==>
                forall k :: IsIndex(percentile, |responseTimes|, k) ==> IsOrderStatistic(responseTimes, k, time)
    {
      if percentile < 0.0 || percentile > 1.0 { return 0; }
      if responseTimes == [] { return 0; }
      var sortedTimes := SortedCopy(responseTimes);
      SortedCopySorts(responseTimes);
      IndexInRange(percentile, |sortedTimes|);
      var index := PercentileIndex(percentile, |sortedTimes|);
      time := sortedTimes[index];
      CountInSorted(sortedTimes, index, time);
      SortedCopyCounts(responseTimes, time);
      IndexExactly(percentile, |responseTimes|, index);
    }
  }

  lemma IndexInRange(percentile: real, n: nat)
    requires 0.0 <= percentile <= 1.0 && n > 0
    ensures 0 <= PercentileIndex(percentile, n) < n
  {
    assert 0.0 <= percentile * (n - 1) as real <= (n - 1) as real;
  }

  lemma ScalingIsMonotone(p: real, q: real, m: real)
    requires p <= q && 0.0 <= m
    ensures p * m <= q * m
  {
    assert 0.0 <= (q - p) * m;
  }

  lemma IndexIsMonotone(p: real, q: real, n: nat)
    requires p <= q && n > 0
    ensures PercentileIndex(p, n) <= PercentileIndex(q, n)
  {
    ScalingIsMonotone(p, q, (n - 1) as real);
  }

  /** A higher percentile of the same window is never smaller. */
  lemma PercentilesAreMonotone(w: seq<int>, p: real, x: int, q: real, y: int)
    requires w != [] && 0.0 <= p <= q <= 1.0
    requires IsOrderStatistic(w, PercentileIndex(p, |w|), x)
    requires IsOrderStatistic(w, PercentileIndex(q, |w|), y)
    ensures x <= y
  {
    IndexIsMonotone(p, q, |w|);
    OrderStatisticsAreMonotone(w, PercentileIndex(p, |w|), x, PercentileIndex(q, |w|), y);
  }
}
