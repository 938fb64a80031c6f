/**
 * The process-wide TSC state set once at start-up, and the cycle counter
 * read against it.
 */
module TscState {
  import opened Wrappers
  import opened Words
  import opened CpuList
  import opened Stability
  import opened Calibration
  import opened TscLevel

  /** `TSCState` without the float `nanos_per_cycle`. */
  datatype TscState = TscState(isTscAvailable: bool, tscLevel: TSCLevel)

  /** The static initialiser's values before `init` runs. */
  const InitialState: TscState := TscState(false, Unstable)

  /** Whether a level lets the clock use the TSC at all. */
  predicate Usable(level: TSCLevel)
  {
    match level
    case Stable(_, _) => true
    case PerCPUStable(_, _) => true
    case Unstable => false
  }

  /** `init`: classify the TSC once and record whether it can be used. */
  function Init(hw: Hardware): (s: TscState)
    ensures s.isTscAvailable <==> !s.tscLevel.Unstable?
  {
    var level := Classify(hw);
    TscState(Usable(level), level)
  }

  /** `is_tsc_available`. */
  function IsTscAvailable(s: TscState): bool
  {
    s.isTscAvailable
  }

  /**
   * The TSC is available after `init` exactly when the clock source lists
   * it, or when the CPU flags allow per-CPU sync, the online list parses to
   * a non-empty list, every worker lands on its CPU and the frequencies
   * agree within the spread bound.
   */
  lemma InitAvailableIff(hw: Hardware)
    ensures IsTscAvailable(Init(hw)) <==>
              || IsTscStable(hw.availableClocksource)
              || (&& IsTscPercpuStable(hw.cpuinfo)
                  && AvailableCpus(hw.online).Success?
                  && var ids := AvailableCpus(hw.online).value;
                  && |ids| > 0
                  && (forall k | 0 <= k < |ids| :: WorkerSucceeds(hw, ids, k))
                  && !SpreadTooWide(MinCps(WorkerResults(hw, ids)), MaxCps(WorkerResults(hw, ids))))
  {
    PerCpuStableIff(hw);
  }

  /**
   * `cycles_per_second` on the level `init` leaves: the calibrated
   * frequency when the TSC is globally stable, and a frequency between the
   * slowest and the fastest CPU's when it is stable per CPU.
   */
  lemma InitCyclesPerSecond(hw: Hardware)
    requires IsTscAvailable(Init(hw))
    ensures IsTscStable(hw.availableClocksource) ==>
              CyclesPerSecond(Init(hw).tscLevel) == CyclesPerSec(hw.tscFreqKhz, hw.initCalibration).cps
    ensures !IsTscStable(hw.availableClocksource) ==>
              && AvailableCpus(hw.online).Success?
              && var rs := WorkerResults(hw, AvailableCpus(hw.online).value);
              && MinCps(rs) <= CyclesPerSecond(Init(hw).tscLevel) <= MaxCps(rs)
  {
    if !IsTscStable(hw.availableClocksource) {
      PerCpuLevelContents(hw);
    }
  }

  /** The panics `current_cycle` can raise. */
  datatype CyclePanic = TscUnstable | CpuIndexOutOfBounds(cpu: nat)

  /**
   * `current_cycle`: the counter minus the offset, wrapping modulo 2^64.
   * `tsc` is what `rdtsc` (or `rdtscp`) returns; `aux` is the IA32_TSC_AUX
   * value `rdtscp` returns with it, used only in the per-CPU case.
   */
  function CurrentCycle(level: TSCLevel, tsc: u64, aux: u32): (r: Result<u64, CyclePanic>)
    ensures level.Unstable? <==> r == Failure(TscUnstable)
    ensures level.Stable? ==> r.Success? && (r.value + level.cyclesFromAnchor) % TWO_64 == tsc
    ensures level.PerCPUStable? ==>
              (r.Success? <==> CpuIdOfAux(aux) < |level.cyclesFromAnchorPerCpu|)
    ensures level.PerCPUStable? && r.Success? ==>
              (r.value + level.cyclesFromAnchorPerCpu[CpuIdOfAux(aux)]) % TWO_64 == tsc
    ensures level.PerCPUStable? && r.Failure? ==> r.error == CpuIndexOutOfBounds(CpuIdOfAux(aux))
  {
    match level
    case Stable(_, cfa) => Success(WrappingSub(tsc, cfa))
    case PerCPUStable(_, table) =>
      var cpu := CpuIdOfAux(aux);
      if cpu < |table| then Success(WrappingSub(tsc, table[cpu]))
      else Failure(CpuIndexOutOfBounds(cpu))
    case Unstable => Failure(TscUnstable)
  }

  /** Before `init` runs, reading the counter panics. */
  lemma ReadBeforeInitPanics(tsc: u64, aux: u32)
    ensures !IsTscAvailable(InitialState)
    ensures CurrentCycle(InitialState.tscLevel, tsc, aux) == Failure(TscUnstable)
  {
  }

  /** Reading the counter after `init` succeeds exactly when the TSC was found usable, on any online CPU. */
  lemma ReadOnOnlineCpuSucceeds(hw: Hardware, tsc: u64, aux: u32)
    requires Init(hw).tscLevel.PerCPUStable? ==>
               AvailableCpus(hw.online).Success? && CpuIdOfAux(aux) in AvailableCpus(hw.online).value
    ensures CurrentCycle(Init(hw).tscLevel, tsc, aux).Success? <==> IsTscAvailable(Init(hw))
  {
    if Init(hw).tscLevel.PerCPUStable? {
      PerCpuLevelContents(hw);
      var ids := AvailableCpus(hw.online).value;
      var k :| 0 <= k < |ids| && ids[k] == CpuIdOfAux(aux);
      assert ids[k] <= MaxId(ids);
    }
  }

  /**
   * Anchor consistency of the read: `d` cycles after the sample a
   * calibration took its offset from, against a level holding that offset
   * for the CPU the read runs on, the counter reads the cycles flown since
   * the anchor plus `d`. `StableProbeWins` and `PerCpuLevelContents` say
   * which calibration's offset `init` leaves for each CPU.
   */
  lemma ReadAgainstOffset(level: TSCLevel, c: Calibration, s: Sample, d: nat, tsc: u64, aux: u32)
    requires level.Stable? ==> level.cyclesFromAnchor == c.cfa
    requires level.PerCPUStable? ==>
               CpuIdOfAux(aux) < |level.cyclesFromAnchorPerCpu| && level.cyclesFromAnchorPerCpu[CpuIdOfAux(aux)] == c.cfa
    requires c.cfa == CyclesFromAnchor(c.cps, s)
    requires tsc == (s.tsc + d) % TWO_64
    requires CyclesFlied(c.cps, s.nanosFromAnchor) + d < U64_MAX
    ensures !level.Unstable? ==> CurrentCycle(level, tsc, aux) == Success(CyclesFlied(c.cps, s.nanosFromAnchor) + d)
  {
    ReadAfterCalibration(c.cps, s, d, tsc);
  }
}
