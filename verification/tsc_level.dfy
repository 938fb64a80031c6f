/**
 * `TSCLevel` and `TSCLevel::get`: classify the TSC as globally stable,
 * stable per CPU once offsets are applied, or unusable, and for the per-CPU
 * case merge one calibration per online CPU into an offset table.
 */
module TscLevel {
  import opened Wrappers
  import opened Words
  import opened Text
  import opened IntParse
  import opened CpuList
  import opened Stability
  import opened Calibration

  datatype TSCLevel =
    | Stable(cyclesPerSecond: u64, cyclesFromAnchor: u64)
    | PerCPUStable(cyclesPerSecond: u64, cyclesFromAnchorPerCpu: seq<u64>)
    | Unstable

  /** `TSCLevel::cycles_per_second`: the frequency of either usable level; calling it on `Unstable` is a contract violation. */
  function CyclesPerSecond(level: TSCLevel): (cps: u64)
    requires !level.Unstable?
    ensures cps == level.cyclesPerSecond
  {
    match level
    case Stable(cps, _) => cps
    case PerCPUStable(cps, _) => cps
  }

  // ---------------------------------------------------------------------
  // Workers.

  /**
   * What one pinned worker thread observes: whether `sched_setaffinity`
   * succeeded, the IA32_TSC_AUX value `rdtscp` returned afterwards, and the
   * inputs of its own calibration.
   */
  datatype WorkerProbe = WorkerProbe(affinityOk: bool, aux: u32, calibration: CalibrationInput)

  /** `(id, cps, cfa)` as returned by a worker that finished. */
  datatype WorkerResult = WorkerResult(id: nat, cps: u64, cfa: u64)

  /**
   * One worker: pin to `id`, check that `rdtscp` reports that CPU, then
   * calibrate. A failed `unwrap` or `assert_eq!` panics the thread, which
   * its `join` reports as an error: `None` here.
   */
  function RunWorker(id: nat, tscFreqKhz: Option<string>, probe: WorkerProbe): (r: Option<WorkerResult>)
    ensures r.Some? <==> probe.affinityOk && CpuIdOfAux(probe.aux) == id
    ensures r.Some? ==> r.value.id == id < 4096
  {
    if !probe.affinityOk then None
    else if CpuIdOfAux(probe.aux) != id then None
    else
      var c := CyclesPerSec(tscFreqKhz, probe.calibration);
      Some(WorkerResult(id, c.cps, c.cfa))
  }

  /**
   * `handles.map(|h| h.join()).collect::<Result<Vec<_>, _>>()`: every
   * result in order, or nothing as soon as one worker failed.
   */
  function JoinAll(outcomes: seq<Option<WorkerResult>>): (r: Option<seq<WorkerResult>>)
    ensures r.Some? <==> forall k | 0 <= k < |outcomes| :: outcomes[k].Some?
    ensures r.Some? ==> |r.value| == |outcomes|
    ensures r.Some? ==> forall k | 0 <= k < |outcomes| :: r.value[k] == outcomes[k].value
  {
    if |outcomes| == 0 then Some([])
    else if outcomes[0].None? then None
    else
      match JoinAll(outcomes[1..])
      case None => None
      case Some(rest) => Some([outcomes[0].value] + rest)
  }

  // ---------------------------------------------------------------------
  // Merging the per-CPU results.

  // Each statistic is a left fold over the results, in the order the loop
  // visits them.

  /** The smallest frequency, starting from `u64::MAX` as the loop does. */
  function MinCps(rs: seq<WorkerResult>): (m: u64)
    ensures forall k | 0 <= k < |rs| :: m <= rs[k].cps
    ensures |rs| == 0 ==> m == U64_MAX
    ensures |rs| > 0 ==> exists k :: 0 <= k < |rs| && m == rs[k].cps
  {
    if |rs| == 0 then U64_MAX
    else
      var m := MinCps(rs[..|rs| - 1]);
      assert forall k | 0 <= k < |rs| - 1 :: rs[..|rs| - 1][k] == rs[k];
      if rs[|rs| - 1].cps < m then rs[|rs| - 1].cps else m
  }

  /** The largest frequency, starting from `u64::MIN`. */
  function MaxCps(rs: seq<WorkerResult>): (m: u64)
    ensures forall k | 0 <= k < |rs| :: rs[k].cps <= m
    ensures |rs| > 0 ==> exists k :: 0 <= k < |rs| && m == rs[k].cps
  {
    if |rs| == 0 then 0
    else
      var m := MaxCps(rs[..|rs| - 1]);
      assert forall k | 0 <= k < |rs| - 1 :: rs[..|rs| - 1][k] == rs[k];
      if rs[|rs| - 1].cps > m then rs[|rs| - 1].cps else m
  }

  /** The sum of the frequencies, as an unbounded integer. */
  function SumCps(rs: seq<WorkerResult>): nat
  {
    if |rs| == 0 then 0 else SumCps(rs[..|rs| - 1]) + rs[|rs| - 1].cps
  }

  /** The sum lies between `len * min` and `len * max`. */
  lemma {:induction false} SumBounds(rs: seq<WorkerResult>, lo: nat, hi: nat)
    requires forall k | 0 <= k < |rs| :: lo <= rs[k].cps <= hi
    ensures |rs| * lo <= SumCps(rs) <= |rs| * hi
  {
    if |rs| > 0 {
      var init := rs[..|rs| - 1];
      assert forall k | 0 <= k < |init| :: init[k] == rs[k];
      SumBounds(init, lo, hi);
      assert |rs| * lo == |init| * lo + lo;
      assert |rs| * hi == |init| * hi + hi;
    }
  }

  lemma DivBetween(s: nat, n: nat, lo: nat, hi: nat)
    requires n > 0 && n * lo <= s <= n * hi
    ensures lo <= s / n <= hi
  {
    var q := s / n;
    assert s == n * q + s % n;
    MulMonotone(n, q + 1, lo);
    MulMonotone(n, hi + 1, q);
    assert n * (q + 1) == n * q + n;
    assert n * (hi + 1) == n * hi + n;
  }

  lemma MulMonotone(n: nat, a: int, b: int)
    ensures a <= b ==> n * a <= n * b
  {
  }

  /** `sum_cps / len`: the integer mean of the frequencies, which lies between their minimum and maximum. */
  function AverageCps(rs: seq<WorkerResult>): (avg: u64)
    requires |rs| > 0
    ensures MinCps(rs) <= avg <= MaxCps(rs)
  {
    SumBounds(rs, MinCps(rs), MaxCps(rs));
    DivBetween(SumCps(rs), |rs|, MinCps(rs), MaxCps(rs));
    SumCps(rs) / |rs|
  }

  /**
   * The cross-CPU spread test `(max - min) / min > 0.0005`, stated exactly
   * as `2000 * (max - min) > min`; with `min == 0` this is true exactly when
   * `max > 0`, as the float division's infinity (and `NaN` for `0 / 0`) gives.
   */
  predicate SpreadTooWide(minCps: nat, maxCps: nat)
    requires minCps <= maxCps
  {
    2000 * (maxCps - minCps) > minCps
  }

  /** Worker `k` is the last one in the list to write its CPU's slot. */
  predicate LastWriter(rs: seq<WorkerResult>, k: int)
  {
    0 <= k < |rs| && forall k' | k < k' < |rs| :: rs[k'].id != rs[k].id
  }

  /**
   * The `cycles_from_anchor` table: `size` slots starting at 0, each worker's
   * offset written at its CPU id in turn.
   */
  function Table(rs: seq<WorkerResult>, size: nat): (t: seq<u64>)
    requires forall k | 0 <= k < |rs| :: rs[k].id < size
    ensures |t| == size
  {
    if |rs| == 0 then seq(size, _ => 0)
    else
      var init := rs[..|rs| - 1];
      var last := rs[|rs| - 1];
      assert forall k | 0 <= k < |init| :: init[k] == rs[k];
      Table(init, size)[last.id := last.cfa]
  }

  /** A slot no worker names keeps its initial 0. */
  lemma {:induction false} TableUnwritten(rs: seq<WorkerResult>, size: nat, j: nat)
    requires forall k | 0 <= k < |rs| :: rs[k].id < size
    requires j < size && forall k | 0 <= k < |rs| :: rs[k].id != j
    ensures Table(rs, size)[j] == 0
  {
    if |rs| > 0 {
      var init := rs[..|rs| - 1];
      assert forall k | 0 <= k < |init| :: init[k] == rs[k];
      TableUnwritten(init, size, j);
    }
  }

  /** The slot of a CPU holds the offset of the last worker for that CPU. */
  lemma {:induction false} TableLastWriter(rs: seq<WorkerResult>, size: nat, k: nat)
    requires forall k | 0 <= k < |rs| :: rs[k].id < size
    requires LastWriter(rs, k)
    ensures Table(rs, size)[rs[k].id] == rs[k].cfa
  {
    if k < |rs| - 1 {
      var init := rs[..|rs| - 1];
      assert forall k | 0 <= k < |init| :: init[k] == rs[k];
      assert LastWriter(init, k);
      TableLastWriter(init, size, k);
    }
  }

  /**
   * The merge at the end of `TSCLevel::get`: unstable if the frequencies
   * disagree too much, otherwise their integer mean and the offset table.
   */
  function Merge(maxCpuId: nat, rs: seq<WorkerResult>): (level: TSCLevel)
    requires |rs| > 0
    requires forall k | 0 <= k < |rs| :: rs[k].id <= maxCpuId
    ensures !level.Stable?
    ensures level.PerCPUStable? <==> !SpreadTooWide(MinCps(rs), MaxCps(rs))
    ensures level.PerCPUStable? ==> |level.cyclesFromAnchorPerCpu| == maxCpuId + 1
    ensures level.PerCPUStable? ==> MinCps(rs) <= level.cyclesPerSecond <= MaxCps(rs)
  {
    if SpreadTooWide(MinCps(rs), MaxCps(rs)) then Unstable
    else PerCPUStable(AverageCps(rs), Table(rs, maxCpuId + 1))
  }

  /** The merge loop as written: one pass updating max, min, sum and the table. */
  method MergeResults(maxCpuId: nat, results: seq<WorkerResult>) returns (level: TSCLevel)
    requires |results| > 0
    requires forall k | 0 <= k < |results| :: results[k].id <= maxCpuId
    ensures level == Merge(maxCpuId, results)
  {
    var cyclesFromAnchor: seq<u64> := seq(maxCpuId + 1, _ => 0);
    var maxCps: u64 := 0;
    var minCps: u64 := U64_MAX;
    var sumCps: nat := 0;
    var len := |results|;
    var k := 0;
    while k < len
      invariant 0 <= k <= len
      invariant maxCps == MaxCps(results[..k])
      invariant minCps == MinCps(results[..k])
      invariant sumCps == SumCps(results[..k])
      invariant cyclesFromAnchor == Table(results[..k], maxCpuId + 1)
    {
      var r := results[k];
      MergeStep(maxCpuId, results, k);
      if r.cps > maxCps {
        maxCps := r.cps;
      }
      if r.cps < minCps {
        minCps := r.cps;
      }
      sumCps := sumCps + r.cps;
      cyclesFromAnchor := cyclesFromAnchor[r.id := r.cfa];
      k := k + 1;
    }
    assert results[..k] == results;
    if 2000 * (maxCps - minCps) > minCps {
      return Unstable;
    }
    assert sumCps / len == AverageCps(results);
    return PerCPUStable(sumCps / len, cyclesFromAnchor);
  }

  /** One loop iteration extends every fold by the next result. */
  lemma MergeStep(maxCpuId: nat, results: seq<WorkerResult>, k: nat)
    requires k < |results|
    requires forall k | 0 <= k < |results| :: results[k].id <= maxCpuId
    ensures var r := results[k];
            && MaxCps(results[..k + 1]) == (if r.cps > MaxCps(results[..k]) then r.cps else MaxCps(results[..k]))
            && MinCps(results[..k + 1]) == (if r.cps < MinCps(results[..k]) then r.cps else MinCps(results[..k]))
            && SumCps(results[..k + 1]) == SumCps(results[..k]) + r.cps
            && Table(results[..k + 1], maxCpuId + 1) == Table(results[..k], maxCpuId + 1)[r.id := r.cfa]
  {
    assert results[..k + 1][..k] == results[..k];
  }

  // ---------------------------------------------------------------------
  // Classification.

  /**
   * Everything `TSCLevel::get` learns from outside: the contents of the
   * files it reads (`None` when unreadable), the samples of the calibration
   * on the initialising thread, and what the worker spawned `k`-th observes.
   */
  datatype Hardware = Hardware(
    availableClocksource: Option<string>,
    cpuinfo: Option<string>,
    online: Option<string>,
    tscFreqKhz: Option<string>,
    initCalibration: CalibrationInput,
    workers: nat -> WorkerProbe)

  datatype CpuListError = ReadFailed | ParseFailed(kind: IntErrorKind)

  /** `available_cpus`: the online CPU list, read and parsed. */
  function AvailableCpus(online: Option<string>): (r: Result<seq<nat>, CpuListError>)
    ensures r == Failure(ReadFailed) <==> online.None?
    ensures r.Success? <==> online.Some? && ParseCpuListFormat(online.value).Success?
    ensures r.Success? ==> r.value == ParseCpuListFormat(online.value).value
  {
    match online
    case None => Failure(ReadFailed)
    case Some(text) =>
      match ParseCpuListFormat(text)
      case Success(ids) => Success(ids)
      case Failure(kind) => Failure(ParseFailed(kind))
  }

  /** `*cpuids.iter().max().unwrap()`. */
  function MaxId(ids: seq<nat>): (m: nat)
    requires |ids| > 0
    ensures m in ids
    ensures forall k | 0 <= k < |ids| :: ids[k] <= m
  {
    if |ids| == 1 then ids[0]
    else
      var m := MaxId(ids[1..]);
      assert forall k | 1 <= k < |ids| :: ids[k] == ids[1..][k - 1];
      if ids[0] > m then ids[0] else m
  }

  /** The outcome of the worker spawned for the `k`-th online CPU. */
  function WorkerOutcomes(hw: Hardware, ids: seq<nat>): (outcomes: seq<Option<WorkerResult>>)
    ensures |outcomes| == |ids|
    ensures forall k | 0 <= k < |ids| :: outcomes[k] == RunWorker(ids[k], hw.tscFreqKhz, hw.workers(k))
  {
    seq(|ids|, k requires 0 <= k < |ids| => RunWorker(ids[k], hw.tscFreqKhz, hw.workers(k)))
  }

  /**
   * The per-CPU branch of `TSCLevel::get`, entered once the CPU flags allow
   * it. It never yields a globally stable level, and a per-CPU level has a
   * table of at most 4096 slots: every id on the list was confirmed by a
   * 12-bit `IA32_TSC_AUX` field.
   */
  function PerCpuLevel(hw: Hardware): (level: TSCLevel)
    ensures !level.Stable?
    ensures level.PerCPUStable? ==> AvailableCpus(hw.online).Success? && 0 < |level.cyclesFromAnchorPerCpu| <= 4096
  {
    match AvailableCpus(hw.online)
    case Failure(_) => Unstable
    case Success(ids) =>
      if |ids| == 0 then Unstable
      else
        match JoinAll(WorkerOutcomes(hw, ids))
        case None => Unstable
        case Some(rs) =>
          assert forall k | 0 <= k < |rs| :: rs[k].id == ids[k] < 4096;
          Merge(MaxId(ids), rs)
  }

  /**
   * `TSCLevel::get`: the globally stable probe first, then the per-CPU one.
   * The level is global exactly when the clock source lists the TSC, and
   * per-CPU only when the CPU flags allow it and the online list was read.
   */
  function Classify(hw: Hardware): (level: TSCLevel)
    ensures level.Stable? <==> IsTscStable(hw.availableClocksource)
    ensures level.PerCPUStable? ==>
              && IsTscPercpuStable(hw.cpuinfo)
              && AvailableCpus(hw.online).Success?
              && 0 < |level.cyclesFromAnchorPerCpu| <= 4096
  {
    if IsTscStable(hw.availableClocksource) then
      var c := CyclesPerSec(hw.tscFreqKhz, hw.initCalibration);
      Stable(c.cps, c.cfa)
    else if IsTscPercpuStable(hw.cpuinfo) then
      PerCpuLevel(hw)
    else
      Unstable
  }

  // ---------------------------------------------------------------------
  // What the classification promises.

  /** Worker `k` pins successfully and `rdtscp` then reports the CPU it asked for. */
  predicate WorkerSucceeds(hw: Hardware, ids: seq<nat>, k: nat)
    requires k < |ids|
  {
    hw.workers(k).affinityOk && CpuIdOfAux(hw.workers(k).aux) == ids[k]
  }

  /** The calibration worker `k` computes once pinned. */
  function WorkerCalibration(hw: Hardware, k: nat): Calibration
  {
    CyclesPerSec(hw.tscFreqKhz, hw.workers(k).calibration)
  }

  /** The results the workers return when all of them succeed. */
  function WorkerResults(hw: Hardware, ids: seq<nat>): (rs: seq<WorkerResult>)
    ensures |rs| == |ids|
  {
    seq(|ids|, k requires 0 <= k < |ids| => WorkerResult(ids[k], WorkerCalibration(hw, k).cps, WorkerCalibration(hw, k).cfa))
  }

  lemma JoinAllWorkers(hw: Hardware, ids: seq<nat>)
    ensures JoinAll(WorkerOutcomes(hw, ids)).Some? <==> forall k | 0 <= k < |ids| :: WorkerSucceeds(hw, ids, k)
    ensures JoinAll(WorkerOutcomes(hw, ids)).Some? ==> JoinAll(WorkerOutcomes(hw, ids)).value == WorkerResults(hw, ids)
  {
    var outcomes := WorkerOutcomes(hw, ids);
    assert forall k | 0 <= k < |ids| :: outcomes[k].Some? <==> WorkerSucceeds(hw, ids, k);
  }

  /** The globally stable probe is checked first and wins whatever the other inputs say. */
  lemma StableProbeWins(hw: Hardware)
    requires IsTscStable(hw.availableClocksource)
    ensures Classify(hw) == Stable(CyclesPerSec(hw.tscFreqKhz, hw.initCalibration).cps,
                                   CyclesPerSec(hw.tscFreqKhz, hw.initCalibration).cfa)
  {
  }

  /**
   * The per-CPU level is reached exactly when the clock source is not
   * already stable, the CPU flags allow per-CPU sync, the online list reads
   * and parses to a non-empty list, every worker pins to its CPU, and the
   * frequencies agree within the spread bound.
   */
  lemma PerCpuStableIff(hw: Hardware)
    ensures Classify(hw).PerCPUStable? <==>
              && !IsTscStable(hw.availableClocksource)
              && IsTscPercpuStable(hw.cpuinfo)
              && AvailableCpus(hw.online).Success?
              && var ids := AvailableCpus(hw.online).value;
              && |ids| > 0
              && (forall k | 0 <= k < |ids| :: WorkerSucceeds(hw, ids, k))
              && !SpreadTooWide(MinCps(WorkerResults(hw, ids)), MaxCps(WorkerResults(hw, ids)))
  {
    if !IsTscStable(hw.availableClocksource) && IsTscPercpuStable(hw.cpuinfo) {
      assert Classify(hw) == PerCpuLevel(hw);
      PerCpuLevelIff(hw);
    }
  }

  lemma PerCpuLevelIff(hw: Hardware)
    ensures PerCpuLevel(hw).PerCPUStable? <==>
              && AvailableCpus(hw.online).Success?
              && var ids := AvailableCpus(hw.online).value;
              && |ids| > 0
              && (forall k | 0 <= k < |ids| :: WorkerSucceeds(hw, ids, k))
              && !SpreadTooWide(MinCps(WorkerResults(hw, ids)), MaxCps(WorkerResults(hw, ids)))
  {
    if AvailableCpus(hw.online).Success? {
      JoinAllWorkers(hw, AvailableCpus(hw.online).value);
    }
  }

  /** Fail fast: a single worker that cannot pin, or lands on another CPU, makes the whole level `Unstable`. */
  lemma WorkerFailureIsUnstable(hw: Hardware, k: nat)
    requires !IsTscStable(hw.availableClocksource)
    requires AvailableCpus(hw.online).Success?
    requires k < |AvailableCpus(hw.online).value|
    requires !WorkerSucceeds(hw, AvailableCpus(hw.online).value, k)
    ensures Classify(hw).Unstable?
  {
    PerCpuStableIff(hw);
  }

  /** A CPU id the 12-bit field cannot hold can never be confirmed, so such a list is `Unstable`. */
  lemma WideCpuIdIsUnstable(hw: Hardware, k: nat)
    requires !IsTscStable(hw.availableClocksource)
    requires AvailableCpus(hw.online).Success?
    requires k < |AvailableCpus(hw.online).value| && AvailableCpus(hw.online).value[k] >= 4096
    ensures Classify(hw).Unstable?
  {
    WorkerFailureIsUnstable(hw, k);
  }

  /** Once the per-CPU level is reached, it is the merge of every worker's result. */
  lemma PerCpuLevelIsMerge(hw: Hardware)
    requires Classify(hw).PerCPUStable?
    ensures AvailableCpus(hw.online).Success?
    ensures var ids := AvailableCpus(hw.online).value;
            && |ids| > 0
            && (forall k | 0 <= k < |ids| :: WorkerSucceeds(hw, ids, k))
            && (forall k | 0 <= k < |ids| :: WorkerResults(hw, ids)[k].id == ids[k])
            && Classify(hw) == Merge(MaxId(ids), WorkerResults(hw, ids))
  {
    PerCpuStableIff(hw);
    JoinAllWorkers(hw, AvailableCpus(hw.online).value);
  }

  /**
   * What a successful merge holds, slot by slot, for workers spawned over
   * `ids` in order.
   */
  lemma MergeContents(maxCpuId: nat, ids: seq<nat>, rs: seq<WorkerResult>)
    requires |rs| == |ids| > 0
    requires forall k | 0 <= k < |rs| :: rs[k].id == ids[k] <= maxCpuId
    requires Merge(maxCpuId, rs).PerCPUStable?
    ensures var table := Merge(maxCpuId, rs).cyclesFromAnchorPerCpu;
            && (forall j | 0 <= j < |table| && j !in ids :: table[j] == 0)
            && (forall k | LastWriter(rs, k) :: table[ids[k]] == rs[k].cfa)
            && Merge(maxCpuId, rs).cyclesPerSecond == SumCps(rs) / |rs|
  {
    var table := Merge(maxCpuId, rs).cyclesFromAnchorPerCpu;
    assert table == Table(rs, maxCpuId + 1);
    forall j | 0 <= j < |table| && j !in ids
      ensures table[j] == 0
    {
      assert forall k | 0 <= k < |rs| :: rs[k].id != j;
      TableUnwritten(rs, maxCpuId + 1, j);
    }
    forall k | LastWriter(rs, k)
      ensures table[ids[k]] == rs[k].cfa
    {
      TableLastWriter(rs, maxCpuId + 1, k);
    }
  }

  /**
   * The per-CPU level's contents: a table of `max id + 1 <= 4096` slots
   * holding, at each online CPU, the offset computed by the last worker for
   * that CPU and 0 elsewhere; a frequency that is the integer mean of the
   * workers' frequencies and lies between their minimum and maximum.
   */
  lemma PerCpuLevelContents(hw: Hardware)
    requires Classify(hw).PerCPUStable?
    ensures AvailableCpus(hw.online).Success?
    ensures var ids := AvailableCpus(hw.online).value;
            var rs := WorkerResults(hw, ids);
            var table := Classify(hw).cyclesFromAnchorPerCpu;
            && |ids| > 0
            && |table| == MaxId(ids) + 1 <= 4096
            && (forall j | 0 <= j < |table| && j !in ids :: table[j] == 0)
            && (forall k | LastWriter(rs, k) :: table[ids[k]] == WorkerCalibration(hw, k).cfa)
            && Classify(hw).cyclesPerSecond == SumCps(rs) / |ids|
            && MinCps(rs) <= Classify(hw).cyclesPerSecond <= MaxCps(rs)
  {
    PerCpuLevelIsMerge(hw);
    var ids := AvailableCpus(hw.online).value;
    var rs := WorkerResults(hw, ids);
    var level := Merge(MaxId(ids), rs);
    MergeContents(MaxId(ids), ids, rs);
    var i :| 0 <= i < |ids| && ids[i] == MaxId(ids);
    assert WorkerSucceeds(hw, ids, i);
    assert |level.cyclesFromAnchorPerCpu| <= 4096 by {
      assert CpuIdOfAux(hw.workers(i).aux) < 4096;
    }
    forall k | LastWriter(rs, k)
      ensures level.cyclesFromAnchorPerCpu[ids[k]] == WorkerCalibration(hw, k).cfa
    {
      assert rs[k].id == ids[k] && rs[k].cfa == WorkerCalibration(hw, k).cfa;
    }
  }

  /** A CPU list that parses to nothing (such as a descending range) leaves the level `Unstable`. */
  lemma EmptyOnlineListIsUnstable(hw: Hardware)
    requires !IsTscStable(hw.availableClocksource)
    requires AvailableCpus(hw.online) == Success([])
    ensures Classify(hw).Unstable?
  {
  }

  /** Frequencies 1000000, 1000100 and 999950 agree closely enough; their mean is kept. */
  lemma MergeExampleClose()
    ensures Merge(2, [WorkerResult(0, 1000000, 7), WorkerResult(1, 1000100, 8), WorkerResult(2, 999950, 9)])
            == PerCPUStable(1000016, [7, 8, 9])
  {
    var rs := [WorkerResult(0, 1000000, 7), WorkerResult(1, 1000100, 8), WorkerResult(2, 999950, 9)];
    assert rs[..2][..1] == rs[..1];
    assert SumCps(rs[..1]) == 1000000;
    assert SumCps(rs[..2]) == 2000100;
    assert MinCps(rs) == 999950 && MaxCps(rs) == 1000100 && SumCps(rs) == 3000050;
    assert Table(rs, 3) == [7, 8, 9];
  }

  /** Frequencies 1000000, 1005000 and 999000 spread too far apart. */
  lemma MergeExampleSpread()
    ensures Merge(2, [WorkerResult(0, 1000000, 7), WorkerResult(1, 1005000, 8), WorkerResult(2, 999000, 9)])
            == Unstable
  {
    var rs := [WorkerResult(0, 1000000, 7), WorkerResult(1, 1005000, 8), WorkerResult(2, 999000, 9)];
    assert MinCps(rs) == 999000 && MaxCps(rs) == 1005000;
  }
}
