/**
 * The two stability probes: whether the kernel already treats the TSC as a
 * synchronised clock source, and whether the CPU advertises the features
 * that let per-CPU TSCs be aligned by offsets. File contents are inputs;
 * `None` stands for a file that is missing or cannot be read.
 */
module Stability {
  import opened Wrappers
  import opened Text

  /**
   * `is_tsc_stable`: the contents of
   * `/sys/devices/system/clocksource/clocksource0/available_clocksource`
   * mention `tsc` anywhere.
   */
  function IsTscStable(availableClocksource: Option<string>): (stable: bool)
    ensures stable <==> availableClocksource.Some? && exists i :: OccursAt(availableClocksource.value, "tsc", i)
  {
    var contents := if availableClocksource.Some? then availableClocksource.value else "";
    ContainsIff(contents, "tsc");
    availableClocksource.Some? && Contains(contents, "tsc")
  }

  /** The three CPU flags the per-CPU path depends on. */
  predicate HasTscFeatures(buf: string)
  {
    Contains(buf, "constant_tsc") && Contains(buf, "nonstop_tsc") && Contains(buf, "rdtscp")
  }

  predicate IsFlagsLine(line: string)
  {
    StartsWith(line, "flags")
  }

  /**
   * The read buffer when the scan of `/proc/cpuinfo` stops: the first line
   * starting with `flags`, or empty when end of file comes first.
   */
  function FlagsBuffer(lines: seq<string>): string
  {
    if |lines| == 0 then ""
    else if IsFlagsLine(lines[0]) then lines[0]
    else FlagsBuffer(lines[1..])
  }

  /** The buffer is the first `flags` line when there is one, and empty otherwise. */
  lemma {:induction false} FlagsBufferIsFirstFlagsLine(lines: seq<string>)
    ensures forall k | FirstFlagsLineAt(lines, k) :: FlagsBuffer(lines) == lines[k]
    ensures (forall k | 0 <= k < |lines| :: !IsFlagsLine(lines[k])) ==> FlagsBuffer(lines) == ""
  {
    if |lines| > 0 && !IsFlagsLine(lines[0]) {
      FlagsBufferIsFirstFlagsLine(lines[1..]);
      forall k | FirstFlagsLineAt(lines, k)
        ensures FlagsBuffer(lines) == lines[k]
      {
        assert FirstFlagsLineAt(lines[1..], k - 1);
      }
      if forall k | 0 <= k < |lines| :: !IsFlagsLine(lines[k]) {
        assert forall k | 0 <= k < |lines| - 1 :: lines[1..][k] == lines[k + 1];
      }
    }
  }

  /** Line `k` is the first line that starts with `flags`. */
  predicate FirstFlagsLineAt(lines: seq<string>, k: int)
  {
    && 0 <= k < |lines|
    && IsFlagsLine(lines[k])
    && forall j | 0 <= j < k :: !IsFlagsLine(lines[j])
  }

  /**
   * `is_tsc_percpu_stable`, given the contents of `/proc/cpuinfo`: the file
   * is readable and its first line starting with `flags` names all three
   * features.
   */
  function IsTscPercpuStable(cpuinfo: Option<string>): (stable: bool)
    ensures stable <==>
              && cpuinfo.Some?
              && exists k :: FirstFlagsLineAt(ReadLines(cpuinfo.value), k) && HasTscFeatures(ReadLines(cpuinfo.value)[k])
  {
    match cpuinfo
    case None => false
    case Some(text) =>
      FlagsBufferFeaturesIff(ReadLines(text));
      HasTscFeatures(FlagsBuffer(ReadLines(text)))
  }

  /** At most one line is the first `flags` line. */
  lemma FirstFlagsLineUnique(lines: seq<string>, k: int, k': int)
    requires FirstFlagsLineAt(lines, k) && FirstFlagsLineAt(lines, k')
    ensures k == k'
  {
  }

  /** The scan's buffer names all three features exactly when the first `flags` line does. */
  lemma FlagsBufferFeaturesIff(lines: seq<string>)
    ensures HasTscFeatures(FlagsBuffer(lines)) <==>
              exists k :: FirstFlagsLineAt(lines, k) && HasTscFeatures(lines[k])
  {
    FlagsBufferIsFirstFlagsLine(lines);
    if exists k :: FirstFlagsLineAt(lines, k) {
      var k :| FirstFlagsLineAt(lines, k);
      forall k' | FirstFlagsLineAt(lines, k')
        ensures k' == k
      {
        FirstFlagsLineUnique(lines, k, k');
      }
    } else {
      forall k | 0 <= k < |lines|
        ensures !IsFlagsLine(lines[k])
      {
        if IsFlagsLine(lines[k]) {
          FirstFlagsLineExists(lines, k);
        }
      }
      assert !Contains("", "rdtscp");
    }
  }

  /** A `flags` line somewhere means there is a first one. */
  lemma {:induction false} FirstFlagsLineExists(lines: seq<string>, j: int)
    requires 0 <= j < |lines| && IsFlagsLine(lines[j])
    ensures exists k :: FirstFlagsLineAt(lines, k)
  {
    if !FirstFlagsLineAt(lines, j) {
      var j' :| 0 <= j' < j && IsFlagsLine(lines[j']);
      FirstFlagsLineExists(lines, j');
    }
  }

  /** Without any `flags` line the scan ends on an empty buffer and the probe fails. */
  lemma NoFlagsLineIsUnstable(text: string)
    requires forall k | 0 <= k < |ReadLines(text)| :: !IsFlagsLine(ReadLines(text)[k])
    ensures !IsTscPercpuStable(Some(text))
  {
    FlagsBufferIsFirstFlagsLine(ReadLines(text));
    assert !Contains("", "rdtscp");
  }

  /**
   * Only the first `flags` line counts: after any number of other complete
   * lines, a complete `flags` line decides the probe on its own, whatever
   * follows it (the scan never reads past it, so later lines, a later
   * `flags` line naming all three features, or undecodable bytes make no
   * difference).
   */
  lemma OnlyFirstFlagsLineCounts(header: seq<string>, first: string, rest: string)
    requires forall k | 0 <= k < |header| :: CompleteLine(header[k]) && !IsFlagsLine(header[k])
    requires CompleteLine(first) && IsFlagsLine(first)
    ensures IsTscPercpuStable(Some(Concat(header) + first + rest)) == HasTscFeatures(first)
  {
    ReadLinesOfLines(header, first + rest);
    ReadLinesOfLine(first, rest);
    assert Concat(header) + first + rest == Concat(header) + (first + rest);
    var lines := header + ([first] + ReadLines(rest));
    assert FirstFlagsLineAt(lines, |header|);
    FlagsBufferIsFirstFlagsLine(lines);
  }

  // ---------------------------------------------------------------------
  // The scan as written: read a line into the buffer, stop at end of file
  // or at a `flags` line, otherwise clear the buffer and read on.

  method ProbeCpuinfo(cpuinfo: Option<string>) returns (stable: bool)
    ensures stable == IsTscPercpuStable(cpuinfo)
  {
    if cpuinfo.None? {
      return false;
    }
    var text := cpuinfo.value;
    ghost var lines := ReadLines(text);
    ghost var k := 0;
    var rest := text;
    var buf := "";
    while true
      invariant 0 <= k <= |lines| && ReadLines(rest) == lines[k..]
      invariant FlagsBuffer(lines) == FlagsBuffer(lines[k..])
      decreases |rest|
    {
      if |rest| == 0 {
        buf := "";
        break;
      }
      buf := ReadLine(rest);
      assert lines[k..][0] == buf;
      if StartsWith(buf, "flags") {
        break;
      }
      assert lines[k..][1..] == lines[k + 1..];
      rest := rest[|buf|..];
      k := k + 1;
    }
    stable := Contains(buf, "constant_tsc") && Contains(buf, "nonstop_tsc") && Contains(buf, "rdtscp");
  }
}
