/**
 * `cycles_per_sec`: a TSC frequency plus the offset ("cycles from anchor")
 * that makes a later TSC read count cycles since the shared anchor instant.
 * Clock and counter samples are inputs; the empirical convergence loop
 * `_calculate_cycles_per_sec` enters only through its outcome.
 */
module Calibration {
  import opened Wrappers
  import opened Words
  import opened Text
  import opened IntParse

  const NANOS_PER_SEC: nat := 1_000_000_000

  /** A monotonic-clock reading, as nanoseconds since the anchor, taken together with a TSC read. */
  datatype Sample = Sample(nanosFromAnchor: nat, tsc: u64)

  /** What `_calculate_cycles_per_sec` returns: a rounded frequency and its last sample. */
  datatype Measurement = Measurement(cps: u64, last: Sample)

  /** The per-thread inputs of one calibration: the sample the fast path takes, and the measured fallback. */
  datatype CalibrationInput = CalibrationInput(fastSample: Sample, measured: Measurement)

  /** `(cycles_per_second, cycles_from_anchor)`. */
  datatype Calibration = Calibration(cps: u64, cfa: u64)

  datatype TscReadError = FailedToRead | FailedToParse(kind: IntErrorKind, contents: string)

  /**
   * `try_read_tsc_freq_khz`, given the contents of
   * `/sys/devices/system/cpu/cpu0/tsc_freq_khz`: the trimmed text as a `u64`.
   * It fails exactly when the file is missing or its trimmed text is not a
   * number, and a parse error carries the untrimmed contents.
   */
  function TryReadTscFreqKhz(tscFreqKhz: Option<string>): (r: Result<u64, TscReadError>)
    ensures r.Failure? <==> tscFreqKhz.None? || ParseUsize(Trim(tscFreqKhz.value)).Failure?
    ensures r == Failure(FailedToRead) <==> tscFreqKhz.None?
    ensures r.Failure? && tscFreqKhz.Some? ==> r.error.contents == tscFreqKhz.value
  {
    match tscFreqKhz
    case None => Failure(FailedToRead)
    case Some(s) =>
      match ParseUsize(Trim(s))
      case Success(khz) => Success(khz)
      case Failure(kind) => Failure(FailedToParse(kind, s))
  }

  /** A frequency file holding a rendered number and a newline is read back as that number. */
  lemma TryReadRendered(khz: u64, suffix: string)
    requires forall k | 0 <= k < |suffix| :: IsWhitespace(suffix[k])
    ensures TryReadTscFreqKhz(Some(ToDecimal(khz) + suffix)) == Success(khz)
  {
    TrimDropsWhitespaceSuffix(ToDecimal(khz), suffix);
    ParseToDecimal(khz);
  }

  /** `a / b` rounded up. */
  function CeilDiv(a: nat, b: nat): (q: nat)
    requires b > 0
    ensures q * b >= a
    ensures q > 0 ==> (q - 1) * b < a
  {
    (a + b - 1) / b
  }

  /**
   * `(cps as f64 * nanos as f64 / 1e9).ceil() as u64`, computed exactly: the
   * whole number of cycles covering the time since the anchor, saturating
   * at `u64::MAX` as Rust's float-to-int cast does.
   */
  function CyclesFlied(cps: u64, nanos: nat): (c: u64)
    ensures c < U64_MAX ==> c * NANOS_PER_SEC >= cps * nanos
    ensures c < U64_MAX && c > 0 ==> (c - 1) * NANOS_PER_SEC < cps * nanos
    ensures c == U64_MAX ==> (c - 1) * NANOS_PER_SEC < cps * nanos
  {
    var q := CeilDiv(cps * nanos, NANOS_PER_SEC);
    if q > U64_MAX then U64_MAX else q
  }

  /** `last_tsc - cycles_flied`, wrapping as a release build does. */
  function CyclesFromAnchor(cps: u64, s: Sample): u64
  {
    WrappingSub(s.tsc, CyclesFlied(cps, s.nanosFromAnchor))
  }

  /**
   * `cycles_per_sec(anchor)`: the kernel-reported frequency if readable,
   * else the measured one, with an offset that makes the sample it was
   * taken from read as the cycles flown since the anchor.
   */
  function CyclesPerSec(tscFreqKhz: Option<string>, input: CalibrationInput): (c: Calibration)
    ensures TryReadTscFreqKhz(tscFreqKhz).Success? && TryReadTscFreqKhz(tscFreqKhz).value * 1000 < TWO_64 ==>
              c.cps == TryReadTscFreqKhz(tscFreqKhz).value * 1000
    ensures TryReadTscFreqKhz(tscFreqKhz).Failure? ==> c.cps == input.measured.cps
    ensures var s := CalibrationSample(tscFreqKhz, input);
            WrappingSub(s.tsc, c.cfa) == CyclesFlied(c.cps, s.nanosFromAnchor)
  {
    var cps :=
      match TryReadTscFreqKhz(tscFreqKhz)
      case Success(khz) => WrappingMul(khz, 1000)
      case Failure(_) => input.measured.cps;
    ReadAfterZero(cps, CalibrationSample(tscFreqKhz, input));
    Calibration(cps, CyclesFromAnchor(cps, CalibrationSample(tscFreqKhz, input)))
  }

  /** The sample the offset is taken from on the path `cycles_per_sec` follows. */
  function CalibrationSample(tscFreqKhz: Option<string>, input: CalibrationInput): Sample
  {
    if TryReadTscFreqKhz(tscFreqKhz).Success? then input.fastSample else input.measured.last
  }

  /**
   * Anchor consistency: a TSC read taken `d` cycles after the calibration
   * sample, minus the offset, is the cycle count since the anchor rounded up
   * to a whole cycle — never below the exact count and less than one cycle
   * above it (`cps * nanos / 1e9 + d` is the exact count for a counter
   * ticking at `cps`).
   */
  lemma ReadAfterCalibration(cps: u64, s: Sample, d: nat, later: u64)
    requires later == (s.tsc + d) % TWO_64
    requires CyclesFlied(cps, s.nanosFromAnchor) + d < U64_MAX
    ensures var r := WrappingSub(later, CyclesFromAnchor(cps, s));
            && r == CyclesFlied(cps, s.nanosFromAnchor) + d
            && r * NANOS_PER_SEC >= cps * s.nanosFromAnchor + d * NANOS_PER_SEC
            && (r - 1) * NANOS_PER_SEC < cps * s.nanosFromAnchor + d * NANOS_PER_SEC
  {
    var c := CyclesFlied(cps, s.nanosFromAnchor);
    var cfa := CyclesFromAnchor(cps, s);
    assert (c + cfa) % TWO_64 == s.tsc;
    ShiftMod(c + cfa, s.tsc, d);
    assert (c + d + cfa) % TWO_64 == later;
    WrappingSubUnique(later, cfa, c + d);
    if c == 0 {
      assert (c + d - 1) * NANOS_PER_SEC == d * NANOS_PER_SEC - NANOS_PER_SEC;
    } else {
      assert (c + d - 1) * NANOS_PER_SEC == (c - 1) * NANOS_PER_SEC + d * NANOS_PER_SEC;
    }
  }

  lemma ShiftMod(x: nat, t: nat, d: nat)
    requires x < 2 * TWO_64 && x % TWO_64 == t
    ensures (x + d) % TWO_64 == (t + d) % TWO_64
  {
    if x >= TWO_64 {
      assert x == t + TWO_64;
      ModOfDecomposition(x + d, TWO_64, (t + d) / TWO_64 + 1, (t + d) % TWO_64);
    } else {
      assert x == t;
    }
  }

  /** The sample an offset was taken from reads back as the cycles flown since the anchor. */
  lemma ReadAfterZero(cps: u64, s: Sample)
    ensures WrappingSub(s.tsc, CyclesFromAnchor(cps, s)) == CyclesFlied(cps, s.nanosFromAnchor)
  {
    var c := CyclesFlied(cps, s.nanosFromAnchor);
    WrappingSubUnique(s.tsc, CyclesFromAnchor(cps, s), c);
  }
}
