/** fst_tpoll.c: the traffic poller. An integer exponential filter over throughput samples drives a hysteresis
    state machine that reports high and low traffic. */
module Tpoll {
  import opened FstTypes

  const FST_TPOLL_MIN_SAMPLES := 5
  const INT_MAX := 2147483647
  /** The largest throughput, in bytes/ms, for which 32-bit arithmetic is exact whatever alpha is. */
  const MAX_THROUGHPUT := 21474836

  datatype Detected = DetectedNone | DetectedHigh | DetectedLow

  /** What a timer step reports. */
  datatype Callback = Quiet | HighTraffic | LowTraffic

  datatype Config = Config(alpha: int, low: int, high: int) {
    predicate Valid() { 0 < alpha <= 100 && 0 < low < high }
  }

  /** The fields of struct fst_tpoll that the filter and the state machine use. */
  datatype Poll = Poll(detected: Detected, avg: int, samples: nat)

  const RESTARTED := Poll(DetectedNone, 0, 0)

  /** Conversion to a 32-bit int; overflow of 32-bit arithmetic is taken to wrap in the same way. */
  function Int32(x: int): int {
    (x + 0x8000_0000) % 0x1_0000_0000 - 0x8000_0000
  }

  /** C's division by a positive number rounds toward zero. */
  function TruncDiv(x: int, d: int): int
    requires d > 0
  {
    if x >= 0 then x / d else -((-x) / d)
  }

  /** The filter on mathematical integers. */
  function Filter(alpha: int, tput: int, avg: int): int {
    TruncDiv(alpha * tput + (100 - alpha) * avg, 100)
  }

  /** The filter as computed on 32-bit ints. */
  function Filter32(alpha: int, tput: int, avg: int): int {
    TruncDiv(Int32(Int32(alpha * tput) + Int32((100 - alpha) * avg)), 100)
  }

  /** One valid sample. */
  function Sample(cfg: Config, p: Poll, tput: int): (Poll, Callback) {
    Decide(cfg, p, Filter32(cfg.alpha, tput, p.avg))
  }

  function Decide(cfg: Config, p: Poll, avg: int): (Poll, Callback) {
    var q := Poll(p.detected, avg, p.samples + 1);
    if q.samples < FST_TPOLL_MIN_SAMPLES then (q, Quiet)
    else if p.detected != DetectedHigh && avg > cfg.high then (q.(detected := DetectedHigh), HighTraffic)
    else if p.detected != DetectedLow && avg < cfg.low then (q.(detected := DetectedLow), LowTraffic)
    else (q, Quiet)
  }

  // ---------------------------------------------------------------- the filter

  lemma {:induction false} TruncDivBounds(x: int, lo: int, hi: int)
    requires 100 * lo <= x <= 100 * hi
    ensures lo <= TruncDiv(x, 100) <= hi
  {
  }

  lemma {:induction false} WeightedBounds(alpha: int, a: int, b: int, lo: int, hi: int)
    requires 0 <= alpha <= 100 && lo <= a <= hi && lo <= b <= hi
    ensures 100 * lo <= alpha * a + (100 - alpha) * b <= 100 * hi
  {
    MulMono(alpha, lo, a);
    MulMono(alpha, a, hi);
    MulMono(100 - alpha, lo, b);
    MulMono(100 - alpha, b, hi);
    assert alpha * lo + (100 - alpha) * lo == 100 * lo;
    assert alpha * hi + (100 - alpha) * hi == 100 * hi;
  }

  lemma {:induction false} MulMono(k: int, x: int, y: int)
    requires k >= 0 && x <= y
    ensures k * x <= k * y
  {
  }

  /** The new average lies between the old one and the sample, rounding included. */
  lemma {:induction false} FilterIsBetween(alpha: int, tput: int, avg: int, lo: int, hi: int)
    requires 0 <= alpha <= 100 && lo <= tput <= hi && lo <= avg <= hi
    ensures lo <= Filter(alpha, tput, avg) <= hi
  {
    hide TruncDiv;
    WeightedBounds(alpha, tput, avg, lo, hi);
    TruncDivBounds(alpha * tput + (100 - alpha) * avg, lo, hi);
  }

  predicate InRange(x: int) {
    0 <= x <= MAX_THROUGHPUT
  }

  lemma {:induction false} Int32ExactIff(x: nat)
    ensures Int32(x) == x <==> x <= INT_MAX
  {
  }

  /** No product and no sum leaves the 32-bit range, so that the average is the exact one, and in range again. */
  lemma {:induction false} NoOverflow(alpha: int, tput: int, avg: int)
    requires 0 <= alpha <= 100 && InRange(tput) && InRange(avg)
    ensures 0 <= alpha * tput <= INT_MAX && 0 <= (100 - alpha) * avg <= INT_MAX
    ensures 0 <= alpha * tput + (100 - alpha) * avg <= INT_MAX
    ensures Filter32(alpha, tput, avg) == Filter(alpha, tput, avg) && InRange(Filter(alpha, tput, avg))
  {
    hide Int32, TruncDiv;
    MulMono(alpha, 0, tput);
    MulMono(100 - alpha, 0, avg);
    WeightedBounds(alpha, tput, avg, 0, MAX_THROUGHPUT);
    Int32ExactIff(alpha * tput);
    Int32ExactIff((100 - alpha) * avg);
    Int32ExactIff(alpha * tput + (100 - alpha) * avg);
    FilterIsBetween(alpha, tput, avg, 0, MAX_THROUGHPUT);
  }

  /** One byte/ms more is too much: without smoothing the product overflows and the average turns negative. */
  lemma {:induction false} RangeIsSharp()
    ensures Filter32(100, MAX_THROUGHPUT + 1, 0) < 0
  {
  }

  /** A sample at least `t` lifts an average of at most `high` by one or more, if alpha * (t - high) >= 100. */
  lemma {:induction false} FilterRises(alpha: int, tput: int, avg: int, t: int, high: int)
    requires 0 < alpha <= 100 && 0 <= avg <= high < t <= tput && alpha * (t - high) >= 100
    ensures Filter(alpha, tput, avg) >= avg + 1
  {
    MulMono(alpha, t - high, tput - avg);
    assert alpha * tput + (100 - alpha) * avg == 100 * avg + alpha * (tput - avg);
  }

  /** A sample below the average lowers it by one or more, while it is positive. */
  lemma {:induction false} FilterFalls(alpha: int, tput: int, avg: int)
    requires 0 < alpha <= 100 && tput < avg && 0 < avg
    ensures Filter(alpha, tput, avg) <= avg - 1
  {
    MulMono(alpha, tput - avg, -1);
    assert alpha * tput + (100 - alpha) * avg == 100 * avg + alpha * (tput - avg);
  }

  // ---------------------------------------------------------------- runs of valid samples

  function After(cfg: Config, p: Poll, ts: seq<int>): Poll {
    if ts == [] then p else Sample(cfg, After(cfg, p, ts[..|ts| - 1]), ts[|ts| - 1]).0
  }

  /** What the k-th sample of `ts` reports. */
  function CallbackAt(cfg: Config, p: Poll, ts: seq<int>, k: nat): Callback
    requires k < |ts|
  {
    Sample(cfg, After(cfg, p, ts[..k]), ts[k]).1
  }

  predicate AllInRange(ts: seq<int>) {
    forall k | 0 <= k < |ts| :: InRange(ts[k])
  }

  lemma {:induction false} AfterStep(cfg: Config, p: Poll, ts: seq<int>, k: nat)
    requires k < |ts|
    ensures After(cfg, p, ts[..k + 1]) == Sample(cfg, After(cfg, p, ts[..k]), ts[k]).0
    ensures After(cfg, p, ts[..k + 1]).samples == After(cfg, p, ts[..k]).samples + 1
  {
    hide Filter32;
    assert ts[..k + 1][..k] == ts[..k];
  }

  /** On every run the average stays within the bounds of its start and the samples, and arithmetic is exact. */
  lemma {:induction false} AverageStaysBetween(cfg: Config, p: Poll, ts: seq<int>, k: nat, lo: int, hi: int)
    requires cfg.Valid() && k <= |ts| && 0 <= lo <= p.avg <= hi <= MAX_THROUGHPUT
    requires forall j | 0 <= j < |ts| :: lo <= ts[j] <= hi
    ensures lo <= After(cfg, p, ts[..k]).avg <= hi
    ensures k < |ts| ==> After(cfg, p, ts[..k + 1]).avg == Filter(cfg.alpha, ts[k], After(cfg, p, ts[..k]).avg)
    ensures After(cfg, p, ts[..k]).samples == p.samples + k
  {
    hide Filter32, Filter;
    if k > 0 {
      AverageStaysBetween(cfg, p, ts, k - 1, lo, hi);
      AfterStep(cfg, p, ts, k - 1);
      FilterIsBetween(cfg.alpha, ts[k - 1], After(cfg, p, ts[..k - 1]).avg, lo, hi);
    }
    if k < |ts| {
      AfterStep(cfg, p, ts, k);
      NoOverflow(cfg.alpha, ts[k], After(cfg, p, ts[..k]).avg);
    }
  }

  predicate HighWithin(cfg: Config, p: Poll, ts: seq<int>, n: nat)
    requires n <= |ts|
  {
    exists k | 0 <= k < n :: CallbackAt(cfg, p, ts, k) == HighTraffic
  }

  predicate LowWithin(cfg: Config, p: Poll, ts: seq<int>, n: nat)
    requires n <= |ts|
  {
    exists k | 0 <= k < n :: CallbackAt(cfg, p, ts, k) == LowTraffic
  }

  /** Throughput at least `t` from the second sample after a restart on: the average gains at least one per sample
      until it exceeds the threshold, and high traffic is detected only by its callback. */
  lemma {:induction false} AverageClimbs(cfg: Config, ts: seq<int>, t: int, n: nat)
    requires cfg.Valid() && AllInRange(ts) && 1 <= n <= |ts| && ts[0] == 0
    requires forall k | 1 <= k < |ts| :: ts[k] >= t
    requires cfg.alpha * (t - cfg.high) >= 100
    ensures var p := After(cfg, RESTARTED, ts[..n]);
      && (p.avg >= n - 1 || p.avg > cfg.high) && p.samples == n && InRange(p.avg)
      && (p.detected == DetectedHigh ==> HighWithin(cfg, RESTARTED, ts, n))
  {
    hide Filter32, Filter;
    AverageStaysBetween(cfg, RESTARTED, ts, n, 0, MAX_THROUGHPUT);
    AverageStaysBetween(cfg, RESTARTED, ts, n - 1, 0, MAX_THROUGHPUT);
    AfterStep(cfg, RESTARTED, ts, n - 1);
    if n == 1 {
      assert ts[..0] == [];
    } else {
      AverageClimbs(cfg, ts, t, n - 1);
      var p := After(cfg, RESTARTED, ts[..n - 1]);
      AboveThreshold(cfg, t);
      if p.avg > cfg.high {
        FilterIsBetween(cfg.alpha, ts[n - 1], p.avg, cfg.high + 1, MAX_THROUGHPUT);
      } else {
        FilterRises(cfg.alpha, ts[n - 1], p.avg, t, cfg.high);
      }
      if p.detected != DetectedHigh && After(cfg, RESTARTED, ts[..n]).detected == DetectedHigh {
        assert CallbackAt(cfg, RESTARTED, ts, n - 1) == HighTraffic;
      }
    }
  }

  lemma {:induction false} AboveThreshold(cfg: Config, t: int)
    requires cfg.Valid() && cfg.alpha * (t - cfg.high) >= 100
    ensures t > cfg.high
  {
    if t <= cfg.high {
      MulMono(cfg.alpha, t - cfg.high, 0);
    }
  }

  function HighBound(cfg: Config): nat
    requires cfg.Valid()
  {
    if cfg.high + 2 < FST_TPOLL_MIN_SAMPLES then FST_TPOLL_MIN_SAMPLES else cfg.high + 2
  }

  /** Sustained traffic is reported high within max(5, high + 2) valid samples of a restart. */
  lemma {:induction false} HighTrafficIsReported(cfg: Config, ts: seq<int>, t: int)
    requires cfg.Valid() && AllInRange(ts) && |ts| == HighBound(cfg) && ts[0] == 0
    requires forall k | 1 <= k < |ts| :: ts[k] >= t
    requires cfg.alpha * (t - cfg.high) >= 100
    ensures HighWithin(cfg, RESTARTED, ts, |ts|)
  {
    hide Filter32, Filter;
    var n := |ts|;
    AverageClimbs(cfg, ts, t, n);
    AverageClimbs(cfg, ts, t, n - 1);
    AfterStep(cfg, RESTARTED, ts, n - 1);
  }

  /** From high traffic on, samples below the low threshold: the average loses at least one per sample. */
  lemma {:induction false} AverageSinks(cfg: Config, p: Poll, ts: seq<int>, n: nat)
    requires cfg.Valid() && AllInRange(ts) && InRange(p.avg) && n <= |ts| && p.detected == DetectedHigh
    requires p.samples + 1 >= FST_TPOLL_MIN_SAMPLES && p.avg >= cfg.low
    requires forall k | 0 <= k < |ts| :: ts[k] < cfg.low
    ensures var q := After(cfg, p, ts[..n]);
      LowWithin(cfg, p, ts, n) ||
      (q.detected == DetectedHigh && cfg.low <= q.avg <= p.avg - n && InRange(q.avg) && q.samples == p.samples + n)
  {
    hide Filter32, Filter;
    AverageStaysBetween(cfg, p, ts, n, 0, MAX_THROUGHPUT);
    if n > 0 {
      AverageSinks(cfg, p, ts, n - 1);
      AverageStaysBetween(cfg, p, ts, n - 1, 0, MAX_THROUGHPUT);
      AfterStep(cfg, p, ts, n - 1);
      if LowWithin(cfg, p, ts, n - 1) {
        var k :| 0 <= k < n - 1 && CallbackAt(cfg, p, ts, k) == LowTraffic;
        assert CallbackAt(cfg, p, ts, k) == LowTraffic;
      } else {
        FilterFalls(cfg.alpha, ts[n - 1], After(cfg, p, ts[..n - 1]).avg);
        if After(cfg, p, ts[..n]).avg < cfg.low {
          assert CallbackAt(cfg, p, ts, n - 1) == LowTraffic;
        }
      }
    } else {
      assert ts[..0] == [];
    }
  }

  /** After high traffic, traffic below the low threshold is reported low within avg - low + 1 valid samples. */
  lemma {:induction false} LowTrafficIsReported(cfg: Config, p: Poll, ts: seq<int>)
    requires cfg.Valid() && AllInRange(ts) && InRange(p.avg) && p.detected == DetectedHigh
    requires p.samples + 1 >= FST_TPOLL_MIN_SAMPLES && p.avg >= cfg.low
    requires forall k | 0 <= k < |ts| :: ts[k] < cfg.low
    requires |ts| == p.avg - cfg.low + 1
    ensures LowWithin(cfg, p, ts, |ts|)
  {
    AverageSinks(cfg, p, ts, |ts|);
  }

  // ---------------------------------------------------------------- the order of reports

  /** No report in the first four valid samples after a restart. */
  lemma {:induction false} NoEarlyReport(cfg: Config, ts: seq<int>, k: nat)
    requires k < |ts| && k < FST_TPOLL_MIN_SAMPLES - 1
    ensures CallbackAt(cfg, RESTARTED, ts, k) == Quiet
  {
    SamplesCounted(cfg, RESTARTED, ts, k);
  }

  lemma {:induction false} SamplesCounted(cfg: Config, p: Poll, ts: seq<int>, k: nat)
    requires k <= |ts|
    ensures After(cfg, p, ts[..k]).samples == p.samples + k
  {
    if k > 0 {
      SamplesCounted(cfg, p, ts, k - 1);
      AfterStep(cfg, p, ts, k - 1);
    }
  }

  function Meaning(c: Callback): Detected
    requires c != Quiet
  {
    if c == HighTraffic then DetectedHigh else DetectedLow
  }

  /** A detected state lasts until something else is reported. */
  lemma {:induction false} DetectedLasts(cfg: Config, p: Poll, ts: seq<int>, i: nat, j: nat, c: Callback)
    requires i < j <= |ts| && c != Quiet && CallbackAt(cfg, p, ts, i) == c
    requires forall m | i < m < j :: CallbackAt(cfg, p, ts, m) == c || CallbackAt(cfg, p, ts, m) == Quiet
    ensures After(cfg, p, ts[..j]).detected == Meaning(c)
  {
    hide Filter32;
    AfterStep(cfg, p, ts, j - 1);
    if j > i + 1 {
      DetectedLasts(cfg, p, ts, i, j - 1, c);
      assert CallbackAt(cfg, p, ts, j - 1) == c || CallbackAt(cfg, p, ts, j - 1) == Quiet;
    }
  }

  /** High and low reports strictly alternate between restarts: between two equal ones lies one of the other kind. */
  lemma {:induction false} ReportsAlternate(cfg: Config, p: Poll, ts: seq<int>, i: nat, j: nat)
    requires i < j < |ts| && CallbackAt(cfg, p, ts, i) != Quiet
    requires CallbackAt(cfg, p, ts, i) == CallbackAt(cfg, p, ts, j)
    ensures exists m | i < m < j ::
      CallbackAt(cfg, p, ts, m) != Quiet && CallbackAt(cfg, p, ts, m) != CallbackAt(cfg, p, ts, i)
  {
    hide Filter32;
    var c := CallbackAt(cfg, p, ts, i);
    if forall m | i < m < j :: CallbackAt(cfg, p, ts, m) == c || CallbackAt(cfg, p, ts, m) == Quiet {
      DetectedLasts(cfg, p, ts, i, j, c);
    }
  }

  /** The last report before the k-th sample after a restart; Quiet if there was none. */
  function LastReport(cfg: Config, ts: seq<int>, k: nat): Callback
    requires k <= |ts|
  {
    if k == 0 then Quiet
    else
      var c := CallbackAt(cfg, RESTARTED, ts, k - 1);
      if c != Quiet then c else LastReport(cfg, ts, k - 1)
  }

  /** Exactly when a sample is reported, by the averages and the reports so far alone: from the fifth sample after a
      restart on, high if the average exceeds its threshold and the last report was not high, low likewise. */
  lemma {:induction false} ReportedIff(cfg: Config, ts: seq<int>, k: nat)
    requires cfg.Valid() && k < |ts|
    ensures var avg := After(cfg, RESTARTED, ts[..k + 1]).avg; var c := CallbackAt(cfg, RESTARTED, ts, k);
      && (c == HighTraffic <==> k >= FST_TPOLL_MIN_SAMPLES - 1 && avg > cfg.high && LastReport(cfg, ts, k) != HighTraffic)
      && (c == LowTraffic <==> k >= FST_TPOLL_MIN_SAMPLES - 1 && avg < cfg.low && LastReport(cfg, ts, k) != LowTraffic)
  {
    hide Filter32, LastReport;
    SamplesCounted(cfg, RESTARTED, ts, k);
    DetectedIsLast(cfg, ts, k);
    AfterStep(cfg, RESTARTED, ts, k);
  }

  lemma {:induction false} DetectedIsLast(cfg: Config, ts: seq<int>, k: nat)
    requires k <= |ts|
    ensures var c := LastReport(cfg, ts, k);
      After(cfg, RESTARTED, ts[..k]).detected == if c == Quiet then DetectedNone else Meaning(c)
  {
    hide Filter32;
    if k > 0 {
      DetectedIsLast(cfg, ts, k - 1);
      AfterStep(cfg, RESTARTED, ts, k - 1);
    }
  }

  /** The average k samples after it was high + 1, if nothing at all is transmitted. */
  function Decay(cfg: Config, k: nat): int {
    if k == 0 then cfg.high + 1 else (100 - cfg.alpha) * Decay(cfg, k - 1) / 100
  }

  lemma {:induction false} DecayBounds(cfg: Config, k: nat)
    requires cfg.Valid()
    ensures Decay(cfg, k) >= 0 && Decay(cfg, k + 1) <= Decay(cfg, k)
  {
    if k > 0 {
      DecayBounds(cfg, k - 1);
    }
    MulMono(Decay(cfg, k), 100 - cfg.alpha, 100);
    MulMono(Decay(cfg, k), 0, 100 - cfg.alpha);
  }

  lemma {:induction false} DecayFalls(cfg: Config, j: nat, k: nat)
    requires cfg.Valid() && j <= k
    ensures Decay(cfg, j) >= Decay(cfg, k)
  {
    if j < k {
      DecayBounds(cfg, k - 1);
      DecayFalls(cfg, j, k - 1);
    }
  }

  lemma {:induction false} FilterAboveDecay(cfg: Config, tput: int, avg: int, floor: int)
    requires cfg.Valid() && tput >= 0 && avg >= floor >= 0
    ensures Filter(cfg.alpha, tput, avg) >= (100 - cfg.alpha) * floor / 100
  {
    MulMono(100 - cfg.alpha, floor, avg);
    MulMono(cfg.alpha, 0, tput);
    MulMono(100 - cfg.alpha, 0, floor);
  }

  lemma {:induction false} DecayStep(cfg: Config, tput: int, avg: int, k: nat)
    requires cfg.Valid() && InRange(tput) && avg >= Decay(cfg, k)
    ensures Filter(cfg.alpha, tput, avg) >= Decay(cfg, k + 1)
  {
    hide Filter;
    DecayBounds(cfg, k);
    FilterAboveDecay(cfg, tput, avg, Decay(cfg, k));
  }

  /** After a high report the average stays above the decay. */
  lemma {:induction false} AverageAboveDecay(cfg: Config, p: Poll, ts: seq<int>, i: nat, j: nat)
    requires cfg.Valid() && AllInRange(ts) && InRange(p.avg) && i < j <= |ts|
    requires CallbackAt(cfg, p, ts, i) == HighTraffic
    ensures After(cfg, p, ts[..j]).avg >= Decay(cfg, j - 1 - i)
  {
    hide Filter32, Filter;
    if j > i + 1 {
      AverageStaysBetween(cfg, p, ts, j - 1, 0, MAX_THROUGHPUT);
      AverageAboveDecay(cfg, p, ts, i, j - 1);
      DecayStep(cfg, ts[j - 1], After(cfg, p, ts[..j - 1]).avg, j - 2 - i);
    } else {
      AfterStep(cfg, p, ts, j - 1);
    }
  }

  /** If k idle samples would leave the average at the low threshold or above, no low report comes within k samples
      of a high one. */
  lemma {:induction false} HighTrafficDwells(cfg: Config, p: Poll, ts: seq<int>, i: nat, j: nat, k: nat)
    requires cfg.Valid() && AllInRange(ts) && InRange(p.avg) && i < j < |ts| && j <= i + k
    requires CallbackAt(cfg, p, ts, i) == HighTraffic && Decay(cfg, k) >= cfg.low
    ensures CallbackAt(cfg, p, ts, j) != LowTraffic
  {
    hide Filter32, Filter;
    AverageAboveDecay(cfg, p, ts, i, j + 1);
    DecayFalls(cfg, j - i, k);
    AfterStep(cfg, p, ts, j);
  }

  // ---------------------------------------------------------------- readings

  /** One attempt to read the byte counters, `ageMs` after the previous step. A failed one leaves whatever the
      variable held in `bytes`. */
  datatype Reading = Reading(ok: bool, bytes: nat, ageMs: nat)

  /** The state of the filter and the counters at the previous step. */
  datatype Meter = Meter(poll: Poll, total: nat)

  /** The reading is usable: it succeeded and the counters did not go back. */
  predicate Usable(total: nat, r: Reading) {
    r.ok && r.bytes >= total
  }

  /** A usable reading, not the first, less than a millisecond after the previous step: the source divides by zero. */
  predicate DividesByZero(total: nat, samples: nat, r: Reading) {
    Usable(total, r) && samples > 0 && r.ageMs == 0
  }

  /** The sample of a usable reading. */
  function Throughput(total: nat, samples: nat, r: Reading): int
    requires Usable(total, r) && !DividesByZero(total, samples, r)
  {
    if samples > 0 then Int32((r.bytes - total) / r.ageMs) else 0
  }

  /** One timer step. */
  function Step(cfg: Config, m: Meter, r: Reading): (Meter, Callback)
    requires !DividesByZero(m.total, m.poll.samples, r)
  {
    if !Usable(m.total, r) then (Meter(m.poll, r.bytes), Quiet)
    else
      var (q, c) := Sample(cfg, m.poll, Throughput(m.total, m.poll.samples, r));
      (Meter(q, r.bytes), c)
  }

  /** Nothing is divided by zero over the readings `rs`. */
  predicate Timely(total: nat, samples: nat, rs: seq<Reading>)
    decreases |rs|
  {
    rs == [] ||
    (!DividesByZero(total, samples, rs[0]) && Timely(rs[0].bytes, Counted(total, samples, rs[0]), rs[1..]))
  }

  function Counted(total: nat, samples: nat, r: Reading): nat {
    if Usable(total, r) then samples + 1 else samples
  }

  /** How many of the readings are usable. */
  function Usables(total: nat, rs: seq<Reading>): nat
    decreases |rs|
  {
    if rs == [] then 0 else Counted(total, 0, rs[0]) + Usables(rs[0].bytes, rs[1..])
  }

  /** What the readings report, one by one. */
  function Reports(cfg: Config, m: Meter, rs: seq<Reading>): seq<Callback>
    requires Timely(m.total, m.poll.samples, rs)
    decreases |rs|
  {
    if rs == [] then []
    else
      var (q, c) := Step(cfg, m, rs[0]);
      [c] + Reports(cfg, q, rs[1..])
  }

  /** The samples of the usable readings. */
  function Samples(total: nat, samples: nat, rs: seq<Reading>): seq<int>
    requires Timely(total, samples, rs)
    decreases |rs|
  {
    if rs == [] then []
    else (if Usable(total, rs[0]) then [Throughput(total, samples, rs[0])] else [])
         + Samples(rs[0].bytes, Counted(total, samples, rs[0]), rs[1..])
  }

  /** Every usable reading but the first after a restart finds at least lo and less than hi bytes per ms transmitted. */
  predicate Loads(total: nat, samples: nat, rs: seq<Reading>, lo: int, hi: int)
    decreases |rs|
  {
    rs == [] ||
    (&& (Usable(total, rs[0]) && samples > 0 ==>
           lo * rs[0].ageMs <= rs[0].bytes - total < hi * rs[0].ageMs)
     && Loads(rs[0].bytes, Counted(total, samples, rs[0]), rs[1..], lo, hi))
  }

  lemma {:induction false} DivisionIs(x: nat, d: nat, q: int)
    requires d > 0
    ensures q * d <= x < (q + 1) * d <==> q == x / d
  {
    var e := x / d;
    assert e * d <= x < (e + 1) * d;
    if q < e {
      MulMono(d, q + 1, e);
    } else if q > e {
      MulMono(d, e + 1, q);
    }
  }

  lemma {:induction false} DivisionFits(x: nat, d: nat, max: nat)
    requires d > 0
    ensures x / d <= max <==> x < (max + 1) * d
  {
    DivisionIs(x, d, x / d);
    if x / d <= max {
      MulMono(d, x / d + 1, max + 1);
    } else {
      MulMono(d, max + 1, x / d);
    }
  }

  /** A sample is the number of whole bytes per ms transmitted since the previous step, if and only if that number fits
      an int; the first one after a restart is 0. */
  lemma {:induction false} SampleIsExactIff(total: nat, samples: nat, r: Reading)
    requires Usable(total, r) && !DividesByZero(total, samples, r)
    ensures var t := Throughput(total, samples, r);
      if samples == 0 then t == 0
      else t * r.ageMs <= r.bytes - total < (t + 1) * r.ageMs <==> r.bytes - total < (INT_MAX + 1) * r.ageMs
  {
    hide Int32;
    if samples > 0 {
      var x, d := r.bytes - total, r.ageMs;
      DivisionIs(x, d, Int32(x / d));
      DivisionFits(x, d, INT_MAX);
      Int32ExactIff(x / d);
    }
  }

  function SumAges(rs: seq<Reading>): nat {
    if rs == [] then 0 else rs[0].ageMs + SumAges(rs[1..])
  }

  /** The bytes the samples stand for. */
  function Carried(ts: seq<int>, rs: seq<Reading>): int
    requires |ts| == |rs|
  {
    if rs == [] then 0 else ts[0] * rs[0].ageMs + Carried(ts[1..], rs[1..])
  }

  /** Over any run of usable readings the samples stand for the bytes transmitted, up to less than the sum of the ages. */
  lemma {:induction false} SamplesTelescope(total: nat, samples: nat, rs: seq<Reading>)
    requires samples > 0 && rs != [] && Loads(total, samples, rs, 0, INT_MAX + 1) && Usables(total, rs) == |rs|
    ensures Timely(total, samples, rs) && |Samples(total, samples, rs)| == |rs|
    ensures var c := Carried(Samples(total, samples, rs), rs);
      c <= rs[|rs| - 1].bytes - total < c + SumAges(rs)
    decreases |rs|
  {
    hide Throughput;
    var r := rs[0];
    UsablesBound(r.bytes, rs[1..]);
    SampleIsExactIff(total, samples, r);
    var t := Throughput(total, samples, r);
    if |rs| > 1 {
      SamplesTelescope(r.bytes, samples + 1, rs[1..]);
      var ts := Samples(r.bytes, samples + 1, rs[1..]);
      assert Samples(total, samples, rs) == [t] + ts && ([t] + ts)[1..] == ts;
    } else {
      assert rs[1..] == [] && Samples(total, samples, rs) == [t];
    }
    assert (t + 1) * r.ageMs == t * r.ageMs + r.ageMs;
  }

  /** The counters before the k-th reading. */
  function Before(total: nat, rs: seq<Reading>, k: nat): nat
    requires k < |rs|
  {
    if k == 0 then total else rs[k - 1].bytes
  }

  /** No reading failed and the counters never went back. */
  ghost predicate Steady(total: nat, rs: seq<Reading>) {
    forall k | 0 <= k < |rs| :: rs[k].ok && Before(total, rs, k) <= rs[k].bytes
  }

  lemma {:induction false} AllUsableIff(total: nat, rs: seq<Reading>)
    ensures Usables(total, rs) == |rs| <==> Steady(total, rs)
    decreases |rs|
  {
    if rs != [] {
      AllUsableIff(rs[0].bytes, rs[1..]);
      UsablesBound(rs[0].bytes, rs[1..]);
      SteadyTail(total, rs);
    }
  }

  lemma {:induction false} SteadyTail(total: nat, rs: seq<Reading>)
    requires rs != []
    ensures Steady(total, rs) <==> Usable(total, rs[0]) && Steady(rs[0].bytes, rs[1..])
  {
    var r, rest := rs[0], rs[1..];
    assert forall k | 0 <= k < |rest| :: rest[k] == rs[k + 1] && Before(r.bytes, rest, k) == Before(total, rs, k + 1);
    if Steady(total, rs) {
      assert Before(total, rs, 0) <= r.bytes;
    }
    if Usable(total, r) && Steady(r.bytes, rest) {
      forall k | 0 <= k < |rs| ensures rs[k].ok && Before(total, rs, k) <= rs[k].bytes {
        assert k > 0 ==> rest[k - 1] == rs[k] && Before(r.bytes, rest, k - 1) == Before(total, rs, k);
      }
    }
  }

  lemma {:induction false} UsablesBound(total: nat, rs: seq<Reading>)
    ensures Usables(total, rs) <= |rs|
    decreases |rs|
  {
    if rs != [] {
      UsablesBound(rs[0].bytes, rs[1..]);
    }
  }

  lemma {:induction false} QuotientInBounds(x: int, d: nat, q: int, lo: int, hi: int)
    requires lo * d <= x < hi * d && q * d <= x < (q + 1) * d
    ensures lo <= q < hi
  {
    if q < lo {
      MulMono(d, q + 1, lo);
    } else if q >= hi {
      MulMono(d, hi, q);
    }
  }

  lemma {:induction false} LoadIsSampled(total: nat, samples: nat, r: Reading, lo: int, hi: int)
    requires Usable(total, r) && hi <= INT_MAX + 1
    requires samples > 0 ==> lo * r.ageMs <= r.bytes - total < hi * r.ageMs
    ensures !DividesByZero(total, samples, r)
    ensures if samples > 0 then lo <= Throughput(total, samples, r) < hi else Throughput(total, samples, r) == 0
  {
    hide Throughput;
    if samples > 0 {
      MulMono(r.ageMs, hi, INT_MAX + 1);
      SampleIsExactIff(total, samples, r);
      QuotientInBounds(r.bytes - total, r.ageMs, Throughput(total, samples, r), lo, hi);
    } else {
      SampleIsExactIff(total, samples, r);
    }
  }

  /** The samples lie between `lo` and `hi`, but a first one after a restart, which is 0. */
  ghost predicate Between(ts: seq<int>, samples: nat, lo: int, hi: int) {
    && (samples == 0 && ts != [] ==> ts[0] == 0)
    && forall k | 0 <= k < |ts| && samples + k > 0 :: lo <= ts[k] < hi
  }

  lemma {:induction false} BetweenMore(t: int, ts: seq<int>, samples: nat, lo: int, hi: int)
    requires Between(ts, samples + 1, lo, hi) && if samples == 0 then t == 0 else lo <= t < hi
    ensures Between([t] + ts, samples, lo, hi)
  {
  }

  /** The samples of such readings lie between the loads. */
  lemma {:induction false} LoadsAreSampled(total: nat, samples: nat, rs: seq<Reading>, lo: int, hi: int)
    requires 0 <= lo && hi <= INT_MAX + 1 && Loads(total, samples, rs, lo, hi)
    ensures Timely(total, samples, rs)
    ensures |Samples(total, samples, rs)| == Usables(total, rs) && Between(Samples(total, samples, rs), samples, lo, hi)
    decreases |rs|
  {
    hide Throughput;
    if rs != [] {
      var r := rs[0];
      LoadsAreSampled(r.bytes, Counted(total, samples, r), rs[1..], lo, hi);
      if Usable(total, r) {
        LoadIsSampled(total, samples, r, lo, hi);
        var t, ts := Throughput(total, samples, r), Samples(r.bytes, samples + 1, rs[1..]);
        BetweenMore(t, ts, samples, lo, hi);
        assert Samples(total, samples, rs) == [t] + ts;
      } else {
        assert Samples(total, samples, rs) == Samples(r.bytes, samples, rs[1..]);
      }
    }
  }

  /** The state and the reports after a first sample are those from the state it leaves. */
  lemma {:induction false} AfterFirst(cfg: Config, p: Poll, t: int, ts: seq<int>)
    ensures After(cfg, p, [t] + ts) == After(cfg, Sample(cfg, p, t).0, ts)
    decreases |ts|
  {
    hide Sample;
    if ts == [] {
      assert [t] + ts == [t] && [t][..0] == [];
      assert After(cfg, p, []) == p;
    } else {
      var n := |ts| - 1;
      AfterFirst(cfg, p, t, ts[..n]);
      assert ([t] + ts)[..n + 1] == [t] + ts[..n];
    }
  }

  lemma {:induction false} CallbackAfterFirst(cfg: Config, p: Poll, t: int, ts: seq<int>, k: nat)
    requires k < |ts|
    ensures CallbackAt(cfg, p, [t] + ts, k + 1) == CallbackAt(cfg, Sample(cfg, p, t).0, ts, k)
  {
    hide Sample;
    AfterFirst(cfg, p, t, ts[..k]);
    assert ([t] + ts)[..k + 1] == [t] + ts[..k];
  }

  /** Every sample's report is among the reports of the readings. */
  lemma {:induction false} SamplesAreReported(cfg: Config, m: Meter, rs: seq<Reading>, k: nat)
    requires Timely(m.total, m.poll.samples, rs) && k < |Samples(m.total, m.poll.samples, rs)|
    ensures CallbackAt(cfg, m.poll, Samples(m.total, m.poll.samples, rs), k) in Reports(cfg, m, rs)
    decreases |rs|
  {
    hide Filter32, Throughput;
    var r := rs[0];
    var rest := Samples(r.bytes, Counted(m.total, m.poll.samples, r), rs[1..]);
    if !Usable(m.total, r) {
      assert Samples(m.total, m.poll.samples, rs) == rest;
      SamplesAreReported(cfg, Meter(m.poll, r.bytes), rs[1..], k);
    } else {
      var t := Throughput(m.total, m.poll.samples, r);
      var q := Sample(cfg, m.poll, t).0;
      assert Samples(m.total, m.poll.samples, rs) == [t] + rest;
      if k == 0 {
        assert ([t] + rest)[..0] == [];
      } else {
        CallbackAfterFirst(cfg, m.poll, t, rest, k - 1);
        SamplesAreReported(cfg, Meter(q, r.bytes), rs[1..], k - 1);
      }
    }
  }

  /** From the byte counters: if after a restart at least `t` bytes per ms are transmitted throughout, with `t` far
      enough above the threshold, high traffic is reported within max(5, high + 2) usable readings. */
  lemma {:induction false} HighLoadIsReported(cfg: Config, rs: seq<Reading>, t: int)
    requires cfg.Valid() && cfg.alpha * (t - cfg.high) >= 100
    requires Loads(0, 0, rs, t, MAX_THROUGHPUT + 1) && Usables(0, rs) == HighBound(cfg)
    ensures Timely(0, 0, rs) && HighTraffic in Reports(cfg, Meter(RESTARTED, 0), rs)
  {
    hide Loads, Samples, Usables, Timely, Reports;
    AboveThreshold(cfg, t);
    LoadsAreSampled(0, 0, rs, t, MAX_THROUGHPUT + 1);
    var ts := Samples(0, 0, rs);
    HighTrafficIsReported(cfg, ts, t);
    var k :| 0 <= k < |ts| && CallbackAt(cfg, RESTARTED, ts, k) == HighTraffic;
    SamplesAreReported(cfg, Meter(RESTARTED, 0), rs, k);
  }

  /** And after high traffic was detected, if less than `low` bytes per ms are transmitted throughout, low traffic is
      reported within avg - low + 1 usable readings. */
  lemma {:induction false} LowLoadIsReported(cfg: Config, m: Meter, rs: seq<Reading>)
    requires cfg.Valid() && InRange(m.poll.avg) && m.poll.detected == DetectedHigh
    requires m.poll.samples + 1 >= FST_TPOLL_MIN_SAMPLES && m.poll.avg >= cfg.low
    requires Loads(m.total, m.poll.samples, rs, 0, cfg.low) && Usables(m.total, rs) == m.poll.avg - cfg.low + 1
    ensures Timely(m.total, m.poll.samples, rs) && LowTraffic in Reports(cfg, m, rs)
  {
    hide Loads, Samples, Usables, Timely, Reports;
    LoadsAreSampled(m.total, m.poll.samples, rs, 0, cfg.low);
    var ts := Samples(m.total, m.poll.samples, rs);
    LowTrafficIsReported(cfg, m.poll, ts);
    var k :| 0 <= k < |ts| && CallbackAt(cfg, m.poll, ts, k) == LowTraffic;
    SamplesAreReported(cfg, m, rs, k);
  }

  // ---------------------------------------------------------------- struct fst_tpoll

  const U64 := 0x1_0000_0000_0000_0000

  /** Mbps2Bpms on 64-bit unsigned arithmetic, then stored in an int. */
  function Mbps2Bpms(t: nat): int {
    Int32(t * 1000 % U64 * 1000 % U64 / 1000 / 8)
  }

  /** The largest setting, in Mbps, that is converted without a wrap. */
  const MAX_MBPS := 17179869

  /** A megabit per second is 125 bytes per ms, exactly for the settings up to 17179869. */
  lemma {:induction false} MbpsIsExactIff(t: nat)
    ensures Mbps2Bpms(t) == 125 * t <==> t <= MAX_MBPS
    ensures t <= MAX_MBPS ==> t * 1000 * 1000 < U64
  {
    if t <= MAX_MBPS {
      assert t * 1000 % U64 == t * 1000 && t * 1000 * 1000 % U64 == t * 1000 * 1000;
      assert t * 1000 * 1000 / 1000 / 8 == 125 * t;
    }
  }

  /** So up to there fst_tpoll_init accepts exactly the thresholds that are positive and in order. */
  lemma {:induction false} SettingsAreValidIff(alpha: int, lowMbps: nat, highMbps: nat)
    requires lowMbps <= MAX_MBPS && highMbps <= MAX_MBPS
    ensures Config(alpha, Mbps2Bpms(lowMbps), Mbps2Bpms(highMbps)).Valid() <==> 0 < alpha <= 100 && 0 < lowMbps < highMbps
  {
    hide Mbps2Bpms;
    MbpsIsExactIff(lowMbps);
    MbpsIsExactIff(highMbps);
  }

  class Poller {
    var alpha: int
    var low: int
    var high: int
    var running: bool
    var detected: Detected
    var prevTotal: nat
    var prevAvg: int
    var samples: nat

    constructor ()
      ensures !running
    {
      alpha, low, high, running := 0, 0, 0, false;
      detected, prevTotal, prevAvg, samples := DetectedNone, 0, 0, 0;
    }

    function Cfg(): Config
      reads this`alpha, this`low, this`high
    {
      Config(alpha, low, high)
    }

    function State(): Meter
      reads this`detected, this`prevAvg, this`samples, this`prevTotal
    {
      Meter(Poll(detected, prevAvg, samples), prevTotal)
    }

    /** fst_tpoll_init: succeeds exactly for settings the results above are about. */
    method Init(interval: int, alpha: int, lowMbps: nat, highMbps: nat) returns (res: int)
      modifies this
      ensures res == 0 <==> interval > 0 && Config(alpha, Mbps2Bpms(lowMbps), Mbps2Bpms(highMbps)).Valid()
      ensures res == 0 || res == -1
      ensures res == 0 ==> Cfg() == Config(alpha, Mbps2Bpms(lowMbps), Mbps2Bpms(highMbps))
      ensures State() == Meter(RESTARTED, 0) && !running
    {
      low, high, running, detected, prevTotal, prevAvg, samples := 0, 0, false, DetectedNone, 0, 0, 0;
      this.alpha := 0;
      if interval <= 0 {
        return -1;
      }
      this.alpha := alpha;
      if alpha <= 0 || alpha > 100 {
        return -1;
      }
      low := Mbps2Bpms(lowMbps);
      if low <= 0 {
        return -1;
      }
      high := Mbps2Bpms(highMbps);
      if high <= low {
        return -1;
      }
      res := 0;
    }

    /** fst_tpoll_start */
    method Start(muxKnown: bool) returns (res: int)
      modifies this
      ensures Cfg() == old(Cfg())
      ensures res == if old(running) || !muxKnown then -1 else 0
      ensures running == (old(running) || res == 0)
      ensures State() == if res == 0 then Meter(RESTARTED, 0) else old(State())
    {
      if running || !muxKnown {
        return -1;
      }
      running, samples, detected, prevTotal, prevAvg := true, 0, DetectedNone, 0, 0;
      res := 0;
    }

    /** fst_tpoll_resume */
    method Resume()
      modifies this
      ensures Cfg() == old(Cfg()) && running == old(running)
      ensures State() == if running then Meter(RESTARTED, 0) else old(State())
    {
      if running {
        samples, detected, prevTotal, prevAvg := 0, DetectedNone, 0, 0;
      }
    }

    /** Exponential filtering */
    method Smooth(tput: int) returns (avg: int)
      ensures avg == Filter32(alpha, tput, prevAvg)
    {
      avg := TruncDiv(Int32(Int32(alpha * tput) + Int32((100 - alpha) * prevAvg)), 100);
    }

    /** fst_tpoll_timer; None where it divides by zero. */
    method Timer(r: Reading) returns (report: Option<Callback>)
      modifies this`detected, this`prevTotal, this`prevAvg, this`samples
      ensures report.None? <==> old(DividesByZero(prevTotal, samples, r))
      ensures report.None? ==> State() == old(State())
      ensures report.Some? ==> (State(), report.value) == Step(Cfg(), old(State()), r)
    {
      hide Int32, Filter32;
      var call := Quiet;
      var newAvg := prevAvg;
      if r.ok && r.bytes >= prevTotal {
        var tput := 0;
        if samples > 0 {
          if r.ageMs == 0 {
            return None;
          }
          tput := Int32((r.bytes - prevTotal) / r.ageMs);
        }
        newAvg := Smooth(tput);
        samples := samples + 1;
        if samples >= FST_TPOLL_MIN_SAMPLES {
          match detected {
          case DetectedNone =>
            if newAvg > high {
              call := HighTraffic;
            } else if newAvg < low {
              call := LowTraffic;
            }
          case DetectedHigh =>
            if newAvg < low {
              call := LowTraffic;
            }
          case DetectedLow =>
            if newAvg > high {
              call := HighTraffic;
            }
          }
          if call == HighTraffic {
            detected := DetectedHigh;
          } else if call == LowTraffic {
            detected := DetectedLow;
          }
        }
      }
      prevTotal := r.bytes;
      prevAvg := newAvg;
      report := Some(call);
    }
  }
}
