/** The resource monitor of `collect-diff-context-cli/src/provider_resources.rs`: one thread that samples
    and writes, any number of snapshot readers, and a caller that may ask it to stop. Each step is one
    access to a shared atomic, so every interleaving of the accesses is a run. */
module ResourceMonitor {
  import opened ByteStrings

  type u64 = n: nat | n <= U64_MAX

  datatype Status = Available | LimitExceeded | Unavailable

  function SaturatingAdd(a: u64, b: u64): u64 {
    if a + b > U64_MAX then U64_MAX else a + b
  }

  /** The largest peak that is ever recorded. */
  function Cap(maximum: u64): u64 {
    SaturatingAdd(maximum, 1)
  }

  function BoundedPeak(observed: u64, maximum: u64): (r: u64)
    ensures r <= Cap(maximum)
    ensures r == if observed > maximum then Cap(maximum) else observed
  {
    if observed < SaturatingAdd(maximum, 1) then observed else SaturatingAdd(maximum, 1)
  }

  // ---------------------------------------------------------------- update_peak

  /** One call of `update_peak`: before its load, before a compare-exchange, or returned. */
  datatype Updater = Load(observed: u64) | Compare(observed: u64, current: u64) | Returned(observed: u64)

  /** The weak exchange may fail although the values agree. */
  ghost predicate UpdateStep(peak: u64, u: Updater, peak': u64, u': Updater) {
    match u
    case Load(observed) => peak' == peak && u' == Compare(observed, peak)
    case Compare(observed, current) =>
      if observed <= current then peak' == peak && u' == Returned(observed)
      else
        || (peak == current && peak' == observed && u' == Returned(observed))
        || (peak' == peak && u' == Compare(observed, peak))
    case Returned(_) => false
  }

  ghost predicate UpdaterOk(peak: u64, u: Updater) {
    match u
    case Load(_) => true
    case Compare(_, current) => current <= peak
    case Returned(observed) => observed <= peak
  }

  lemma UpdateOnlyRaises(peak: u64, u: Updater, peak': u64, u': Updater)
    requires UpdaterOk(peak, u) && UpdateStep(peak, u, peak', u')
    ensures UpdaterOk(peak', u') && peak <= peak' && u'.observed == u.observed
    ensures peak' == peak || peak' == u.observed
  {
  }

  // ---------------------------------------------------------------- any number of updates at once

  datatype Updates = Updates(peak: u64, updaters: seq<Updater>)

  ghost predicate UpdatesNext(s: Updates, s': Updates) {
    && |s'.updaters| == |s.updaters|
    && exists i :: 0 <= i < |s.updaters| && UpdateStep(s.peak, s.updaters[i], s'.peak, s'.updaters[i])
                   && s'.updaters == s.updaters[i := s'.updaters[i]]
  }

  ghost predicate UpdatesRun(run: seq<Updates>) {
    && run != []
    && (forall i :: 0 <= i < |run[0].updaters| ==> run[0].updaters[i].Load?)
    && (forall n :: 0 < n < |run| ==> UpdatesAt(run, n))
  }

  ghost predicate UpdatesAt(run: seq<Updates>, n: nat)
    requires 0 < n < |run|
  {
    UpdatesNext(run[n - 1], run[n])
  }

  /** The peak is the initial one or an observed one, and no lower than what a returned call observed. */
  ghost predicate UpdatesInv(first: Updates, s: Updates) {
    && |s.updaters| == |first.updaters|
    && first.peak <= s.peak
    && (s.peak == first.peak || exists i :: 0 <= i < |s.updaters| && s.peak == s.updaters[i].observed)
    && (forall i :: 0 <= i < |s.updaters| ==>
          UpdaterOk(s.peak, s.updaters[i]) && s.updaters[i].observed == first.updaters[i].observed)
  }

  lemma UpdatesKeepInv(first: Updates, s: Updates, s': Updates)
    requires UpdatesInv(first, s) && UpdatesNext(s, s')
    ensures UpdatesInv(first, s')
  {
    var i :| 0 <= i < |s.updaters| && UpdateStep(s.peak, s.updaters[i], s'.peak, s'.updaters[i])
             && s'.updaters == s.updaters[i := s'.updaters[i]];
    UpdateOnlyRaises(s.peak, s.updaters[i], s'.peak, s'.updaters[i]);
    if s'.peak != s.peak {
      assert s'.peak == s'.updaters[i].observed;
    } else if s.peak != first.peak {
      var j :| 0 <= j < |s.updaters| && s.peak == s.updaters[j].observed;
      assert s'.peak == s'.updaters[j].observed;
    }
  }

  lemma {:induction false} UpdatesRunInv(run: seq<Updates>, n: nat)
    requires UpdatesRun(run) && n < |run|
    ensures forall m :: 0 <= m <= n ==> UpdatesInv(run[0], run[m])
  {
    if n > 0 {
      UpdatesRunInv(run, n - 1);
      assert UpdatesAt(run, n);
      UpdatesKeepInv(run[0], run[n - 1], run[n]);
    }
  }

  /** However concurrent calls interleave, when all have returned the peak is the greatest of the
      initial value and what they observed. */
  lemma ConcurrentUpdatesEndAtTheMaximum(run: seq<Updates>, n: nat)
    requires UpdatesRun(run) && n < |run|
    requires forall i :: 0 <= i < |run[n].updaters| ==> run[n].updaters[i].Returned?
    ensures |run[n].updaters| == |run[0].updaters|
    ensures run[0].peak <= run[n].peak
    ensures forall i :: 0 <= i < |run[0].updaters| ==> run[0].updaters[i].observed <= run[n].peak
    ensures || run[n].peak == run[0].peak
            || exists i :: 0 <= i < |run[0].updaters| && run[n].peak == run[0].updaters[i].observed
  {
    UpdatesRunInv(run, n);
    if run[n].peak != run[0].peak {
      var i :| 0 <= i < |run[n].updaters| && run[n].peak == run[n].updaters[i].observed;
      assert run[n].peak == run[0].updaters[i].observed;
    }
  }

  // ---------------------------------------------------------------- the monitor

  datatype Shared = Shared(peak: u64, status: Status, stop: bool)

  /** Where the monitor thread is. */
  datatype Thread =
    | Parked
    | Sampling
    | Updating(update: Updater, bytes: u64)
    | Judging(bytes: u64)
    | Terminating
    | Stopping
    | Exited

  /** `exceeded` is set exactly when the status that was read says so. */
  datatype Snapshot = Snapshot(peak: u64, accounting: Status, exceeded: bool)

  /** A reader loads the status first and the peak second. */
  datatype Reader = Ready | StatusRead(status: Status) | Took(snapshot: Snapshot)

  /** `samples` records what the sampler returned, and `failures` how often it or a termination failed, for
      the statements only. */
  datatype Monitor = Monitor(shared: Shared, thread: Thread, readers: seq<Reader>, samples: seq<u64>, failures: nat)

  /** The sampler or a termination failed: the thread says so and ends. */
  function FailAndExit(s: Monitor): Monitor {
    s.(thread := Exited, shared := s.shared.(status := Unavailable), failures := s.failures + 1)
  }

  ghost predicate SampleStep(maximum: u64, s: Monitor, s': Monitor) {
    && s.thread.Sampling? && s'.readers == s.readers
    && (|| (exists bytes: u64 ::
              s' == s.(thread := Updating(Load(BoundedPeak(bytes, maximum)), bytes), samples := s.samples + [bytes]))
        || s' == s.(thread := Exited)
        || s' == FailAndExit(s))
  }

  ghost predicate UpdatingStep(s: Monitor, s': Monitor) {
    && s.thread.Updating?
    && if s.thread.update.Returned? then s' == s.(thread := Judging(s.thread.bytes))
       else
         && s'.thread.Updating? && s'.thread.bytes == s.thread.bytes
         && UpdateStep(s.shared.peak, s.thread.update, s'.shared.peak, s'.thread.update)
         && s' == s.(thread := s'.thread, shared := s.shared.(peak := s'.shared.peak))
  }

  ghost predicate ThreadStep(maximum: u64, s: Monitor, s': Monitor) {
    match s.thread
    case Parked => s' == s.(thread := if s.shared.stop then Stopping else Sampling)
    case Sampling => SampleStep(maximum, s, s')
    case Updating(_, _) => UpdatingStep(s, s')
    case Judging(bytes) =>
      s' == if bytes <= maximum then s.(thread := Parked)
            else s.(thread := Terminating, shared := s.shared.(status := LimitExceeded))
    case Terminating =>
      || s' == s.(thread := Exited)
      || s' == FailAndExit(s)
    case Stopping =>
      || s' == s.(thread := Exited)
      || s' == FailAndExit(s)
    case Exited => false
  }

  /** `snapshot`; a reader may then take another one. */
  function Read(r: Reader, shared: Shared): Reader {
    match r
    case Ready => StatusRead(shared.status)
    case StatusRead(status) =>
      Took(Snapshot(shared.peak, if status == Unavailable then Unavailable else Available, status == LimitExceeded))
    case Took(_) => Ready
  }

  ghost predicate ReaderStep(s: Monitor, s': Monitor) {
    exists i :: 0 <= i < |s.readers| && s' == s.(readers := s.readers[i := Read(s.readers[i], s.shared)])
  }

  ghost predicate Next(maximum: u64, s: Monitor, s': Monitor) {
    || ThreadStep(maximum, s, s')
    || ReaderStep(s, s')
    || s' == s.(shared := s.shared.(stop := true))
  }

  /** `start`, after a first sample; no reader exists before it returns. */
  ghost predicate Init(maximum: u64, s: Monitor) {
    && |s.samples| == 1
    && s.shared == Shared(
         BoundedPeak(s.samples[0], maximum), if s.samples[0] > maximum then LimitExceeded else Available, false)
    && s.thread == Parked && s.failures == 0
    && (forall i :: 0 <= i < |s.readers| ==> s.readers[i].Ready?)
  }

  ghost predicate IsRun(maximum: u64, run: seq<Monitor>) {
    && run != [] && Init(maximum, run[0])
    && forall n :: 0 < n < |run| ==> StepAt(maximum, run, n)
  }

  ghost predicate StepAt(maximum: u64, run: seq<Monitor>, n: nat)
    requires 0 < n < |run|
  {
    Next(maximum, run[n - 1], run[n])
  }

  // ---------------------------------------------------------------- the invariant

  function Highest(samples: seq<u64>, maximum: u64): u64 {
    if samples == [] then 0
    else
      var last, rest := BoundedPeak(samples[|samples| - 1], maximum), Highest(samples[..|samples| - 1], maximum);
      if last > rest then last else rest
  }

  /** The samples whose update is over. */
  function Recorded(s: Monitor): seq<u64> {
    if s.thread.Updating? && !s.thread.update.Returned? && s.samples != [] then s.samples[..|s.samples| - 1]
    else s.samples
  }

  predicate AnyExceeded(samples: seq<u64>, maximum: u64) {
    exists i :: 0 <= i < |samples| && samples[i] > maximum
  }

  /** The samples that have been compared with the limit. */
  function Judged(s: Monitor): seq<u64> {
    if (s.thread.Updating? || s.thread.Judging?) && s.samples != [] then s.samples[..|s.samples| - 1] else s.samples
  }

  ghost predicate StatusOk(maximum: u64, s: Monitor) {
    && (s.shared.status == Unavailable <==> s.failures > 0)
    && (s.shared.status != Unavailable ==> (s.shared.status == LimitExceeded <==> AnyExceeded(Judged(s), maximum)))
    && (s.thread.Judging? ==> s.samples != [] && s.thread.bytes == s.samples[|s.samples| - 1])
  }

  ghost predicate ThreadOk(maximum: u64, s: Monitor) {
    && (s.thread.Updating? ==>
          && s.samples != [] && s.thread.bytes == s.samples[|s.samples| - 1]
          && s.thread.update.observed == BoundedPeak(s.thread.bytes, maximum)
          && UpdaterOk(s.shared.peak, s.thread.update)
          && (s.thread.update.Compare? ==> s.thread.update.current == s.shared.peak))
    && (s.thread.Judging? ==> BoundedPeak(s.thread.bytes, maximum) <= s.shared.peak)
    && (s.shared.status == Unavailable ==> s.thread.Exited?)
  }

  ghost predicate ReaderOk(maximum: u64, shared: Shared, r: Reader) {
    match r
    case Ready => true
    case StatusRead(status) =>
      (status == LimitExceeded ==> shared.peak == Cap(maximum)) && (status != Available ==> shared.status != Available)
    case Took(snapshot) =>
      && snapshot.peak <= shared.peak
      && (snapshot.exceeded ==> snapshot.peak == Cap(maximum) && snapshot.accounting == Available)
      && (snapshot.exceeded || snapshot.accounting == Unavailable ==> shared.status != Available)
  }

  ghost predicate Inv(maximum: u64, s: Monitor) {
    && s.shared.peak == Highest(Recorded(s), maximum) <= Cap(maximum)
    && (s.shared.status == LimitExceeded ==> s.shared.peak == Cap(maximum))
    && ThreadOk(maximum, s) && StatusOk(maximum, s)
    && (forall i :: 0 <= i < |s.readers| ==> ReaderOk(maximum, s.shared, s.readers[i]))
  }

  /** Nothing that a reader may have seen is taken back. */
  ghost predicate Forward(s: Shared, s': Shared) {
    && s.peak <= s'.peak
    && (s.status != Available ==> s'.status != Available)
    && (s.status == Unavailable ==> s'.status == Unavailable)
    && (s.stop ==> s'.stop)
  }

  lemma HighestOfOneMore(samples: seq<u64>, bytes: u64, maximum: u64)
    ensures Highest(samples + [bytes], maximum)
         == if BoundedPeak(bytes, maximum) > Highest(samples, maximum) then BoundedPeak(bytes, maximum)
            else Highest(samples, maximum)
  {
    assert (samples + [bytes])[..|samples|] == samples;
  }

  lemma HighestOfLast(samples: seq<u64>, maximum: u64)
    requires samples != []
    ensures var last := BoundedPeak(samples[|samples| - 1], maximum);
            var before := Highest(samples[..|samples| - 1], maximum);
            Highest(samples, maximum) == if last > before then last else before
  {
  }

  lemma UpdatingKeepsInv(maximum: u64, s: Monitor, s': Monitor)
    requires Inv(maximum, s) && UpdatingStep(s, s')
    ensures s'.shared.peak == Highest(Recorded(s'), maximum) <= Cap(maximum) && ThreadOk(maximum, s')
    ensures Forward(s.shared, s'.shared) && s'.readers == s.readers
  {
    if !s.thread.update.Returned? {
      UpdateOnlyRaises(s.shared.peak, s.thread.update, s'.shared.peak, s'.thread.update);
      HighestOfLast(s.samples, maximum);
    }
  }

  lemma JudgedNext(samples: seq<u64>, bytes: u64, maximum: u64)
    ensures AnyExceeded(samples + [bytes], maximum) <==> AnyExceeded(samples, maximum) || bytes > maximum
  {
    var more := samples + [bytes];
    if i :| 0 <= i < |samples| && samples[i] > maximum {
      assert more[i] > maximum;
    }
    assert more[|samples|] == bytes;
  }

  lemma ThreadKeepsStatus(maximum: u64, s: Monitor, s': Monitor)
    requires ThreadOk(maximum, s) && StatusOk(maximum, s) && ThreadStep(maximum, s, s')
    ensures StatusOk(maximum, s')
  {
    if s.thread.Judging? {
      JudgedNext(Judged(s), s.thread.bytes, maximum);
      assert s.samples == Judged(s) + [s.thread.bytes];
    } else if s.thread.Sampling? && s'.thread.Updating? {
      assert Judged(s') == s.samples;
    }
  }

  lemma ThreadKeepsInv(maximum: u64, s: Monitor, s': Monitor)
    requires Inv(maximum, s) && ThreadStep(maximum, s, s')
    ensures s'.shared.peak == Highest(Recorded(s'), maximum) <= Cap(maximum) && ThreadOk(maximum, s')
    ensures s'.shared.status == LimitExceeded ==> s'.shared.peak == Cap(maximum)
    ensures Forward(s.shared, s'.shared) && s'.readers == s.readers
  {
    if s.thread.Updating? {
      UpdatingKeepsInv(maximum, s, s');
    } else if s'.thread.Updating? {
      assert Recorded(s') == s.samples;
    }
  }

  lemma ReadersFollow(maximum: u64, shared: Shared, shared': Shared, r: Reader)
    requires ReaderOk(maximum, shared, r) && Forward(shared, shared') && shared'.peak <= Cap(maximum)
    ensures ReaderOk(maximum, shared', r)
  {
  }

  lemma ReaderKeepsInv(maximum: u64, s: Monitor, s': Monitor)
    requires Inv(maximum, s) && ReaderStep(s, s')
    ensures Inv(maximum, s') && s'.shared == s.shared && |s'.readers| == |s.readers|
  {
    var i :| 0 <= i < |s.readers| && s' == s.(readers := s.readers[i := Read(s.readers[i], s.shared)]);
    assert ReaderOk(maximum, s.shared, s.readers[i]);
  }

  lemma StepKeepsInv(maximum: u64, s: Monitor, s': Monitor)
    requires Inv(maximum, s) && Next(maximum, s, s')
    ensures Inv(maximum, s') && Forward(s.shared, s'.shared) && |s'.readers| == |s.readers|
  {
    if ThreadStep(maximum, s, s') {
      ThreadKeepsInv(maximum, s, s');
      ThreadKeepsStatus(maximum, s, s');
      forall i | 0 <= i < |s.readers|
        ensures ReaderOk(maximum, s'.shared, s.readers[i])
      {
        ReadersFollow(maximum, s.shared, s'.shared, s.readers[i]);
      }
    } else if ReaderStep(s, s') {
      ReaderKeepsInv(maximum, s, s');
    }
  }

  lemma {:induction false} RunKeepsInv(maximum: u64, run: seq<Monitor>, n: nat)
    requires IsRun(maximum, run) && n < |run|
    ensures forall m :: 0 <= m <= n ==> Inv(maximum, run[m])
  {
    if n > 0 {
      RunKeepsInv(maximum, run, n - 1);
      var s, s' := run[n - 1], run[n];
      assert StepAt(maximum, run, n);
      StepKeepsInv(maximum, s, s');
    } else {
      StartKeepsInv(maximum, run[0]);
    }
  }

  lemma StartKeepsInv(maximum: u64, s: Monitor)
    requires Init(maximum, s)
    ensures Inv(maximum, s)
  {
    assert s.samples == [] + [s.samples[0]];
    HighestOfOneMore([], s.samples[0], maximum);
    JudgedNext([], s.samples[0], maximum);
  }

  // ---------------------------------------------------------------- what readers may rely on

  lemma StepMovesForward(maximum: u64, run: seq<Monitor>, n: nat)
    requires IsRun(maximum, run) && 0 < n < |run|
    ensures Forward(run[n - 1].shared, run[n].shared)
  {
    RunKeepsInv(maximum, run, n - 1);
    var s, s' := run[n - 1], run[n];
    assert StepAt(maximum, run, n);
    StepKeepsInv(maximum, s, s');
  }

  lemma PeakIsBounded(maximum: u64, run: seq<Monitor>, n: nat)
    requires IsRun(maximum, run) && n < |run|
    ensures run[n].shared.peak <= Cap(maximum)
  {
    RunKeepsInv(maximum, run, n);
  }

  /** In every interleaving the peak never falls and never passes the cap, the status never returns to
      available, and an unavailable status is final. */
  lemma {:induction false} SharedStateMovesForward(maximum: u64, run: seq<Monitor>, m: nat, n: nat)
    requires IsRun(maximum, run) && m <= n < |run|
    ensures forall k :: m <= k <= n ==> Forward(run[m].shared, run[k].shared) && run[k].shared.peak <= Cap(maximum)
  {
    PeakIsBounded(maximum, run, n);
    if m < n {
      SharedStateMovesForward(maximum, run, m, n - 1);
      StepMovesForward(maximum, run, n);
      ForwardTwice(run[m].shared, run[n - 1].shared, run[n].shared);
    }
  }

  lemma ForwardTwice(s: Shared, t: Shared, u: Shared)
    requires Forward(s, t) && Forward(t, u)
    ensures Forward(s, u)
  {
  }

  /** Whenever no update is in progress, the peak is exactly the highest bounded sample. */
  lemma PeakIsTheHighestSample(maximum: u64, run: seq<Monitor>, n: nat)
    requires IsRun(maximum, run) && n < |run| && !run[n].thread.Updating?
    ensures run[n].shared.peak == Highest(run[n].samples, maximum)
  {
    RunKeepsInv(maximum, run, n);
  }

  /** A snapshot that reports an exceeded limit always carries the cap as its peak, because the thread
      writes the peak before the status and a reader reads it after. */
  lemma ExceededSnapshotsCarryTheCap(maximum: u64, run: seq<Monitor>, n: nat, i: nat)
    requires IsRun(maximum, run) && n < |run| && i < |run[n].readers|
    requires run[n].readers[i].Took? && run[n].readers[i].snapshot.exceeded
    ensures run[n].readers[i].snapshot.peak == Cap(maximum)
    ensures run[n].readers[i].snapshot.accounting == Available
  {
    RunKeepsInv(maximum, run, n);
    assert ReaderOk(maximum, run[n].shared, run[n].readers[i]);
  }

  lemma {:induction false} HighestIsCap(samples: seq<u64>, maximum: u64)
    ensures Highest(samples, maximum) <= Cap(maximum)
    ensures maximum < U64_MAX ==> (Highest(samples, maximum) == Cap(maximum) <==> AnyExceeded(samples, maximum))
    ensures maximum == U64_MAX ==> (Highest(samples, maximum) == Cap(maximum) <==> U64_MAX in samples)
  {
    if samples != [] {
      var front, last := samples[..|samples| - 1], samples[|samples| - 1];
      HighestIsCap(front, maximum);
      JudgedNext(front, last, maximum);
      assert samples == front + [last];
    }
  }

  /** Unless the limit is the greatest number there is, the peak stands at the cap exactly when some sample
      exceeded the limit, once the thread has recorded and judged its samples; and as long as nothing
      failed, exactly when the status says so. */
  lemma CapMeansExceeded(maximum: u64, run: seq<Monitor>, n: nat)
    requires maximum < U64_MAX && IsRun(maximum, run) && n < |run|
    requires !run[n].thread.Updating? && !run[n].thread.Judging?
    ensures run[n].shared.peak == Cap(maximum) <==> AnyExceeded(run[n].samples, maximum)
    ensures run[n].shared.status != Unavailable ==>
              (run[n].shared.peak == Cap(maximum) <==> run[n].shared.status == LimitExceeded)
  {
    RunKeepsInv(maximum, run, n);
    HighestIsCap(run[n].samples, maximum);
  }

  /** With the greatest limit no sample exceeds it: the limit is never reported, and the peak stands at the
      cap exactly when a recorded sample is the greatest number. */
  lemma GreatestLimitIsNeverExceeded(run: seq<Monitor>, n: nat)
    requires IsRun(U64_MAX, run) && n < |run|
    ensures run[n].shared.status != LimitExceeded
    ensures run[n].shared.peak == Cap(U64_MAX) <==> U64_MAX in Recorded(run[n])
  {
    RunKeepsInv(U64_MAX, run, n);
    HighestIsCap(Recorded(run[n]), U64_MAX);
  }

  /** A breach stays reported exactly as long as no later sample or termination fails. */
  lemma BreachStaysReported(maximum: u64, run: seq<Monitor>, m: nat, n: nat)
    requires IsRun(maximum, run) && m <= n < |run| && run[m].shared.status == LimitExceeded
    ensures run[n].shared.status == LimitExceeded <==> run[n].failures == run[m].failures
  {
    RunKeepsInv(maximum, run, n);
    SharedStateMovesForward(maximum, run, m, n);
  }

  /** So a snapshot whose status is loaded after a breach reports it exactly when nothing failed between. */
  lemma SnapshotReportsTheBreach(maximum: u64, run: seq<Monitor>, m: nat, n: nat, i: nat)
    requires IsRun(maximum, run) && m < n < |run| && run[m].shared.status == LimitExceeded
    requires i < |run[n - 1].readers| == |run[n].readers|
    requires run[n - 1].readers[i].Ready? && run[n].readers[i].StatusRead?
    ensures Read(run[n].readers[i], run[n].shared).snapshot.exceeded <==> run[n - 1].failures == run[m].failures
  {
    BreachStaysReported(maximum, run, m, n - 1);
    assert StepAt(maximum, run, n);
  }

  /** Reader `i` loads the status in the step to `m` and the peak in the step to `n`, and nothing in
      between: its snapshot is the result of these two loads. */
  ghost predicate TakesSnapshot(run: seq<Monitor>, m: nat, n: nat, i: nat) {
    && 0 < m < n < |run|
    && (forall k :: 0 <= k < |run| ==> i < |run[k].readers|)
    && run[m - 1].readers[i].Ready? && run[n].readers[i].Took?
    && (forall k :: m <= k < n ==> run[k].readers[i].StatusRead?)
  }

  /** Only its own step moves a reader, and it moves nothing else. */
  lemma ReaderMoves(maximum: u64, run: seq<Monitor>, n: nat, i: nat)
    requires IsRun(maximum, run) && 0 < n < |run|
    requires i < |run[n - 1].readers| && i < |run[n].readers|
    ensures || run[n].readers[i] == run[n - 1].readers[i]
            || run[n].readers[i] == Read(run[n - 1].readers[i], run[n - 1].shared)
  {
    assert StepAt(maximum, run, n);
  }

  lemma {:induction false} StatusIsHeld(maximum: u64, run: seq<Monitor>, m: nat, n: nat, i: nat, k: nat)
    requires IsRun(maximum, run) && TakesSnapshot(run, m, n, i) && m <= k < n
    ensures run[k].readers[i] == StatusRead(run[m - 1].shared.status)
  {
    if m < k {
      StatusIsHeld(maximum, run, m, n, i, k - 1);
    }
    ReaderMoves(maximum, run, k, i);
  }

  lemma SnapshotIsTwoLoads(maximum: u64, run: seq<Monitor>, m: nat, n: nat, i: nat)
    requires IsRun(maximum, run) && TakesSnapshot(run, m, n, i)
    ensures run[n].readers[i] == Read(StatusRead(run[m - 1].shared.status), run[n - 1].shared)
  {
    StatusIsHeld(maximum, run, m, n, i, n - 1);
    ReaderMoves(maximum, run, n, i);
  }

  /** What a snapshot says, of the samples: its peak is the cap exactly when a sample above the limit was
      recorded before the second load, and it reports the limit exactly when one was judged, and nothing
      had failed, before the first. */
  lemma SnapshotTells(maximum: u64, run: seq<Monitor>, m: nat, n: nat, i: nat)
    requires maximum < U64_MAX && IsRun(maximum, run) && TakesSnapshot(run, m, n, i)
    ensures var snapshot := run[n].readers[i].snapshot;
            && (snapshot.peak == Cap(maximum) <==> AnyExceeded(Recorded(run[n - 1]), maximum))
            && (snapshot.exceeded <==> run[m - 1].failures == 0 && AnyExceeded(Judged(run[m - 1]), maximum))
  {
    SnapshotIsTwoLoads(maximum, run, m, n, i);
    RunKeepsInv(maximum, run, n);
    assert Inv(maximum, run[m - 1]) && Inv(maximum, run[n - 1]);
    HighestIsCap(Recorded(run[n - 1]), maximum);
  }

  /** A snapshot with the cap reports the limit. */
  predicate CapIsReported(maximum: u64, snapshot: Snapshot) {
    snapshot.peak == Cap(maximum) ==> snapshot.exceeded
  }

  /** This holds if and only if, once a sample above the limit is recorded by the second load, such a
      sample was judged, and nothing had failed, by the first. With the greatest limit it holds if and
      only if that number was not recorded. */
  lemma CapIsReportedExactly(maximum: u64, run: seq<Monitor>, m: nat, n: nat, i: nat)
    requires IsRun(maximum, run) && TakesSnapshot(run, m, n, i)
    ensures maximum < U64_MAX ==>
              (CapIsReported(maximum, run[n].readers[i].snapshot) <==>
               (AnyExceeded(Recorded(run[n - 1]), maximum) ==>
                run[m - 1].failures == 0 && AnyExceeded(Judged(run[m - 1]), maximum)))
    ensures maximum == U64_MAX ==>
              (CapIsReported(maximum, run[n].readers[i].snapshot) <==> U64_MAX !in Recorded(run[n - 1]))
  {
    if maximum < U64_MAX {
      SnapshotTells(maximum, run, m, n, i);
    } else {
      SnapshotIsTwoLoads(maximum, run, m, n, i);
      GreatestLimitIsNeverExceeded(run, m - 1);
      GreatestLimitIsNeverExceeded(run, n - 1);
    }
  }

  /** The run ends when its only reader has taken this snapshot. */
  ghost predicate EndsWith(run: seq<Monitor>, snapshot: Snapshot) {
    run != [] && run[|run| - 1].readers == [Took(snapshot)]
  }

  /** The other direction fails: a snapshot can carry the cap and still report that all is well, when it
      is taken between the two writes. */
  lemma CapWithoutExceeded(maximum: u64) returns (run: seq<Monitor>)
    requires maximum < U64_MAX
    ensures IsRun(maximum, run) && EndsWith(run, Snapshot(Cap(maximum), Available, false))
  {
    var over: u64 := maximum + 1;
    var calm := Shared(0, Available, false);
    var high := Shared(over, Available, false);
    var s0 := Monitor(calm, Parked, [Ready], [0], 0);
    var s1 := s0.(thread := Sampling);
    var s2 := Monitor(calm, Updating(Load(over), over), [Ready], [0, over], 0);
    var s3 := s2.(thread := Updating(Compare(over, 0), over));
    var s4 := Monitor(high, Updating(Returned(over), over), [Ready], [0, over], 0);
    var s5 := s4.(readers := [StatusRead(Available)]);
    var s6 := s4.(readers := [Took(Snapshot(over, Available, false))]);
    run := [s0, s1, s2, s3, s4, s5, s6];
    assert [0 as u64] + [over] == [0, over];
    assert SampleStep(maximum, s1, s2);
    assert UpdatingStep(s2, s3) && UpdatingStep(s3, s4);
    assert ReaderStep(s4, s5) by {
      assert s5 == s4.(readers := s4.readers[0 := Read(s4.readers[0], s4.shared)]);
    }
    assert ReaderStep(s5, s6) by {
      assert s6 == s5.(readers := s5.readers[0 := Read(s5.readers[0], s5.shared)]);
    }
    forall n | 0 < n < |run|
      ensures StepAt(maximum, run, n)
    {
      assert n == 1 || n == 2 || n == 3 || n == 4 || n == 5 || n == 6;
    }
  }

  /** Nor is a report of an exceeded limit final: after a breach the thread goes on sampling, and when
      that fails the status becomes unavailable for good and new snapshots no longer show the breach. */
  lemma BreachCanBeHidden(maximum: u64) returns (run: seq<Monitor>)
    requires maximum < U64_MAX
    ensures IsRun(maximum, run) && EndsWith(run, Snapshot(Cap(maximum), Unavailable, false))
    ensures run[0].shared.status == LimitExceeded
  {
    var over: u64 := maximum + 1;
    var s0 := Monitor(Shared(over, LimitExceeded, false), Parked, [Ready], [over], 0);
    var s1 := s0.(thread := Sampling);
    var s2 := FailAndExit(s1);
    var s3 := s2.(readers := [StatusRead(Unavailable)]);
    var s4 := s2.(readers := [Took(Snapshot(over, Unavailable, false))]);
    run := [s0, s1, s2, s3, s4];
    assert SampleStep(maximum, s1, s2);
    assert ReaderStep(s2, s3) by {
      assert s3 == s2.(readers := s2.readers[0 := Read(s2.readers[0], s2.shared)]);
    }
    assert ReaderStep(s3, s4) by {
      assert s4 == s3.(readers := s3.readers[0 := Read(s3.readers[0], s3.shared)]);
    }
    forall n | 0 < n < |run|
      ensures StepAt(maximum, run, n)
    {
      assert n == 1 || n == 2 || n == 3 || n == 4;
    }
  }
}
