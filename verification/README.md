# minstant's TSC clock, modelled in Dafny

minstant reads time from the x86 time-stamp counter (TSC) when that is
safe. `src/tsc_now.rs` decides at start-up whether it is safe and how
to read it:

- The clock is **stable** when the kernel lists `tsc` among its clock
  sources. One calibration then gives a frequency (`cycles_per_second`)
  and an offset (`cycles_from_anchor`).
- The clock is **stable per CPU** when the CPU flags include
  `constant_tsc`, `nonstop_tsc` and `rdtscp`. One worker per online CPU
  (taken from `/sys/devices/system/cpu/online`, in the Linux "List
  Format") pins itself to its CPU and calibrates there. The results are
  merged into a mean frequency and an offset table indexed by CPU id,
  provided the frequencies agree to within 0.05 %.
- Otherwise the clock is **unstable**.

The read path subtracts the applicable offset from the counter, modulo
2^64. Per CPU, it indexes the table by the low 12 bits of IA32_TSC_AUX.

The model takes the hardware and the operating system as parameters:

- file contents are `Option<string>`, with `None` for an unreadable file;
- each worker's observations are a `WorkerProbe`: whether pinning
  succeeded, the `aux` value `rdtscp` returned, and its calibration
  samples;
- raw counter readings are `u64` inputs.

Everything else is pure functions over immutable datatypes.

| file | module | models |
|---|---|---|
| `wrappers.dfy` | `Wrappers` | `Option` / `Result` |
| `words.dfy` | `Words` | `u32`/`u64`, `wrapping_sub`, `wrapping_mul`, bitwise AND, the `aux & 0xfff` CPU id |
| `text.dfy` | `Text` | `str::trim`, `split`, `splitn(2, _)`, `contains`, `starts_with`, `BufRead::read_line` |
| `int_parse.dfy` | `IntParse` | `str::parse::<usize>` / `::<u64>` on a 64-bit target |
| `cpu_list.dfy` | `CpuList` | `parse_cpu_list_format` |
| `stability.dfy` | `Stability` | `is_tsc_stable`, `is_tsc_percpu_stable` |
| `calibration.dfy` | `Calibration` | `try_read_tsc_freq_khz`, `cycles_per_sec` |
| `tsc_level.dfy` | `TscLevel` | `TSCLevel`, the workers, the merge, `TSCLevel::get`, `cycles_per_second` |
| `tsc_state.dfy` | `TscState` | `init`, `is_tsc_available`, `current_cycle` |

Where the code and its usual description differ, the model follows the
code:

- **Parse errors carry no text.** A failed parse reports only the kind
  of integer error (`Empty`, `InvalidDigit`, `PosOverflow`), not the
  offending substring: `?` converts the bare `ParseIntError`.
- **Workers run one after another.** `TSCLevel::get` spawns workers
  through a lazy `map` and joins them through `collect`. Each worker is
  therefore spawned and joined before the next starts, and the first
  failure stops the rest. Since every worker is modelled as a function
  of its own probe, the result is the same as with all workers running
  at once and the first failure in CPU-list order deciding.

## Model

| member | source | states |
|---|---|---|
| Words.WrappingSub | src/tsc_now.rs:63 | the result plus the subtrahend is the minuend modulo 2^64, and is the plain difference when there is no borrow |
| Words.WrappingMul | src/tsc_now.rs:251 | the product is the exact product whenever it fits in 64 bits |
| Words.MaskLowBits | src/tsc_now.rs:328 | AND with `2^k - 1` keeps exactly the value modulo `2^k`, for every value |
| Words.CpuIdOfAux | src/tsc_now.rs:320-328 | the CPU id taken from IA32_TSC_AUX is `aux mod 4096`, so always below 4096 |
| Text.TrimStart | src/tsc_now.rs:367 | drops exactly the leading Unicode white space: what remains is a suffix that does not start with white space |
| Text.TrimEnd | src/tsc_now.rs:367 | drops exactly the trailing white space: what remains is a prefix that does not end with white space |
| Text.TrimIsInfix | src/tsc_now.rs:367 | the trimmed text sits inside the original with only white space around it |
| Text.TrimDropsWhitespaceSuffix | src/tsc_now.rs:238 | text with no white space at either end is unchanged by trimming it with trailing white space appended |
| Text.Split | src/tsc_now.rs:368 | splitting gives at least one piece, no piece holds the separator, and joining the pieces restores the text |
| Text.SplitJoin | src/tsc_now.rs:368 | split inverts join for pieces free of the separator |
| Text.SplitOnce | src/tsc_now.rs:370-372 | `splitn(2, c)` cuts at the first `c`: before + c + after is the text and `before` has no `c` |
| Text.SplitOnceJoin | src/tsc_now.rs:370-372 | splitting `before + c + after` at `c` gives back the two parts when `before` has no `c` |
| Text.ContainsIff | src/tsc_now.rs:192 | `contains` is true exactly when the pattern occurs at some index |
| Text.ReadLine | src/tsc_now.rs:205 | `read_line` returns a non-empty prefix holding no newline before its end, and ending in a newline unless the text ran out |
| Text.ReadLines | src/tsc_now.rs:204-214 | repeated `read_line` splits the text into pieces that concatenate back to it, each non-empty with no newline before its last character, and every piece but the last ending in a newline; together these fix the pieces as the text's lines |
| Text.ReadLineOfLine | src/tsc_now.rs:205 | `read_line` on a text that starts with a full line returns exactly that line |
| Text.ReadLinesOfLine | src/tsc_now.rs:205 | a text starting with a full line reads that line first, then the rest |
| Text.ReadLinesOfLines | src/tsc_now.rs:204-214 | any run of complete lines in front of a text is read off line by line, in order, before the rest |
| IntParse.ParseUsize | src/tsc_now.rs:371-377 | parsing succeeds exactly when, after an optional `+`, the text is a non-empty run of digits whose value fits in 64 bits; the value is that decimal number |
| IntParse.AccumulateMeaning | src/tsc_now.rs:371-377 | the digit-by-digit overflow-checked accumulation fails exactly on a non-digit or an overflow, and otherwise yields the decimal value |
| IntParse.ParseToDecimal | src/tsc_now.rs:371-377 | every 64-bit number rendered in decimal parses back to itself |
| IntParse.ParseUsizeRejectsForeignChar | src/tsc_now.rs:371-377 | text holding a character other than a digit or `+` never parses |
| CpuList.ParseCpuListFormat | src/tsc_now.rs:365-382 | the parse succeeds exactly when every comma-separated token of the trimmed list is a number or a `from-to` range |
| CpuList.Range | src/tsc_now.rs:373-375 | `from..=to` is ascending from `from`, with `to - from + 1` items, and empty when `from > to` |
| CpuList.ParseCpuListFormatLoop | src/tsc_now.rs:365-382 | the loop pushing each token's numbers into `res` returns the functional parse: the tokens' expansions in order, or the first token's error |
| CpuList.PushToken | src/tsc_now.rs:369-378 | one loop iteration appends the token's expansion or stops with its error |
| CpuList.PushRange | src/tsc_now.rs:373-375 | the inner loop appends `from..=to` in order |
| CpuList.ParseTokensSucceedsIff | src/tsc_now.rs:368-381 | the list parses exactly when every token does; there is no partial result |
| CpuList.ParseTokensPrefixFailure | src/tsc_now.rs:368-379 | once a token fails, the tokens after it change nothing |
| CpuList.ParseFormatRoundTrip | src/tsc_now.rs:365-382 | any non-empty list of numbers and ranges, rendered with commas and followed by white space, parses to the concatenation of the ranges in order, with no sorting and no dedup |
| CpuList.ParseRejectsForeignChar | src/tsc_now.rs:367-378 | a list whose trimmed text holds a character other than digits, `,`, `-`, `+` fails |
| CpuList.ParseRejectsEmptyToken | src/tsc_now.rs:368-377 | an empty token, such as a stray comma, fails the whole list |
| CpuList.ParseRejectsMalformedRange | src/tsc_now.rs:369-372 | a range with an empty bound or a second dash fails the whole list |
| CpuList.ParseExampleMixed | src/tsc_now.rs:390-393 | `"0-2,7,12-14\n"` parses to 0, 1, 2, 7, 12, 13, 14 |
| CpuList.ParseExampleRangeThenSingle | src/tsc_now.rs:394-397 | `"0-4,9\n"` parses to 0, 1, 2, 3, 4, 9 |
| CpuList.ParseExampleSixteen | src/tsc_now.rs:398-401 | `"0-15\n"` parses to 0 through 15 |
| CpuList.ParseRejectsMissingLowerBound | src/tsc_now.rs:371 | `"-3"` fails |
| CpuList.ParseRejectsMissingUpperBound | src/tsc_now.rs:372 | `"3-"` fails |
| CpuList.ParseRejectsSecondDash | src/tsc_now.rs:370-372 | `"0,1-2-3"` fails, because the upper bound `"2-3"` is not a number |
| CpuList.ParseRejectsInteriorSpace | src/tsc_now.rs:367-377 | `"0, 1"` fails: only the whole list is trimmed, not each token |
| CpuList.ParseRejectsDoubledComma | src/tsc_now.rs:368-377 | `"0,,1"` fails |
| CpuList.ParseRejectsBlankList | src/tsc_now.rs:367-377 | every list of only white space, such as a lone newline, fails: it trims to one empty token |
| CpuList.ParseKeepsOrderAndRepeats | src/tsc_now.rs:368-379 | `"3,1,1"` parses to 3, 1, 1: order and repeats are kept |
| CpuList.ParseDescendingRangeIsEmpty | src/tsc_now.rs:373-375 | `"5-3"` parses to the empty list |
| Stability.IsTscStable | src/tsc_now.rs:188-193 | stable exactly when the clock-source file was read and `tsc` occurs in it |
| Stability.FlagsBufferIsFirstFlagsLine | src/tsc_now.rs:204-214 | the buffer left by the loop is the first line starting with `flags`, or empty when there is none |
| Stability.IsTscPercpuStable | src/tsc_now.rs:198-223 | per-CPU stable exactly when `/proc/cpuinfo` was read and its first `flags` line holds `constant_tsc`, `nonstop_tsc` and `rdtscp` |
| Stability.FlagsBufferFeaturesIff | src/tsc_now.rs:204-219 | the buffer the scan stops on names all three features exactly when the first `flags` line does |
| Stability.NoFlagsLineIsUnstable | src/tsc_now.rs:204-219 | with no `flags` line, the probe answers false |
| Stability.OnlyFirstFlagsLineCounts | src/tsc_now.rs:204-219 | after any complete lines that do not start with `flags`, the first complete `flags` line alone decides the probe, whatever text follows it, including a later `flags` line |
| Stability.ProbeCpuinfo | src/tsc_now.rs:198-223 | the read-line loop computes the per-CPU predicate |
| Calibration.TryReadRendered | src/tsc_now.rs:235-241 | a frequency file holding a rendered number and trailing white space reads back as that number |
| Calibration.TryReadTscFreqKhz | src/tsc_now.rs:235-241 | reading the frequency fails exactly when the file is missing or its trimmed text does not parse; a missing file is the read error, and a parse error carries the untrimmed contents |
| Calibration.CyclesFlied | src/tsc_now.rs:257-258 | the cycles flown since the anchor are the exact count rounded up, saturating at `u64::MAX` |
| Calibration.ReadAfterCalibration | src/tsc_now.rs:248-261 | a counter read `d` cycles after the calibration sample, minus the offset, is the rounded-up cycle count since the anchor plus `d`, within one cycle of the exact count |
| Calibration.CyclesPerSec | src/tsc_now.rs:248-261 | with a readable frequency file the frequency is kHz times 1000 (when that fits in 64 bits), otherwise the measured one; the offset makes the sample it was taken from (the fresh one, or the measurement's last) read as the cycles flown since the anchor |
| Calibration.ReadAfterZero | src/tsc_now.rs:258 | the calibration sample itself reads as the cycles flown since the anchor |
| TscLevel.RunWorker | src/tsc_now.rs:117-127 | a worker returns a result exactly when pinning succeeded and IA32_TSC_AUX names its CPU, so a returned id is below 4096 |
| TscLevel.JoinAll | src/tsc_now.rs:131 | the join returns every result, in order, exactly when no worker failed |
| TscLevel.MinCps | src/tsc_now.rs:145-154 | the minimum is at most every frequency and is one of them |
| TscLevel.MaxCps | src/tsc_now.rs:144-151 | the maximum is at least every frequency and is one of them |
| TscLevel.SumBounds | src/tsc_now.rs:146-155 | the sum lies between count times minimum and count times maximum |
| TscLevel.AverageCps | src/tsc_now.rs:163 | the integer mean lies between the minimum and the maximum frequency |
| TscLevel.Table | src/tsc_now.rs:140-156 | the offset table has the requested number of slots |
| TscLevel.TableUnwritten | src/tsc_now.rs:140-156 | a slot that no worker's CPU id names keeps its initial 0 |
| TscLevel.TableLastWriter | src/tsc_now.rs:148-157 | each CPU's slot holds the offset of the last worker for that CPU |
| TscLevel.Merge | src/tsc_now.rs:140-165 | the merge is per-CPU stable exactly when the spread test passes, never stable; the table has `max id + 1` slots and the frequency lies between minimum and maximum |
| TscLevel.MergeResults | src/tsc_now.rs:140-165 | the single loop updating max, min, sum and table computes the merge |
| TscLevel.MaxId | src/tsc_now.rs:112 | the maximum CPU id is in the list and at least every id |
| TscLevel.JoinAllWorkers | src/tsc_now.rs:116-137 | the workers' join succeeds exactly when every worker lands on its CPU, and then yields each worker's id and calibration in order |
| TscLevel.StableProbeWins | src/tsc_now.rs:92-98 | when the clock source lists `tsc`, the level is stable with the initial calibration, whatever the other inputs |
| TscLevel.AvailableCpus | src/tsc_now.rs:332-335 | the online list is available exactly when the file was read and parses; a missing file is the read error, and the ids are the parse's |
| TscLevel.PerCpuLevel | src/tsc_now.rs:100-166 | the per-CPU branch never yields a globally stable level, and a per-CPU level comes from a readable online list and has between 1 and 4096 slots |
| TscLevel.Classify | src/tsc_now.rs:90-169 | the level is globally stable exactly when the clock source lists `tsc`; a per-CPU level needs the CPU flags and a readable online list, and has between 1 and 4096 slots |
| TscLevel.CyclesPerSecond | src/tsc_now.rs:171-182 | the frequency recorded in either usable level |
| TscLevel.PerCpuStableIff | src/tsc_now.rs:90-169 | the level is per-CPU stable exactly when the source is not globally stable, the flags allow per-CPU sync, the CPU list reads to a non-empty list, every worker succeeds and the spread test passes |
| TscLevel.PerCpuLevelIff | src/tsc_now.rs:100-166 | the per-CPU branch yields a per-CPU level exactly when the CPU list reads to a non-empty list, every worker succeeds and the spread test passes |
| TscLevel.WorkerFailureIsUnstable | src/tsc_now.rs:116-137 | one worker that cannot pin or lands on another CPU makes the level unstable |
| TscLevel.WideCpuIdIsUnstable | src/tsc_now.rs:118-122 | an online CPU id of 4096 or more can never be confirmed, so the level is unstable |
| TscLevel.PerCpuLevelIsMerge | src/tsc_now.rs:100-165 | a per-CPU stable level is the merge of every worker's result over the maximum online id |
| TscLevel.MergeContents | src/tsc_now.rs:140-165 | after a merge, slots of CPUs not in the list are 0, each listed CPU holds its last worker's offset, and the frequency is the sum divided by the count |
| TscLevel.PerCpuLevelContents | src/tsc_now.rs:100-165 | the per-CPU level's table has `max id + 1 <= 4096` slots, 0 off the list and each CPU's calibrated offset on it, and its frequency is the integer mean of the workers', between their minimum and maximum |
| TscLevel.EmptyOnlineListIsUnstable | src/tsc_now.rs:102-105 | an online list that parses to nothing leaves the level unstable |
| TscLevel.MergeExampleClose | src/tsc_now.rs:158-165 | frequencies 1000000, 1000100, 999950 merge to per-CPU stable with mean 1000016 |
| TscLevel.MergeExampleSpread | src/tsc_now.rs:158-160 | frequencies 1000000, 1005000, 999000 are too far apart: unstable |
| TscState.Init | src/tsc_now.rs:29-42 | after `init` the TSC is available exactly when the level is not unstable |
| TscState.InitAvailableIff | src/tsc_now.rs:29-42 | after `init` the TSC is available exactly when the clock source lists `tsc`, or the per-CPU conditions all hold |
| TscState.InitCyclesPerSecond | src/tsc_now.rs:171-182 | the frequency of an available level is the initial calibration's when globally stable, and between the workers' minimum and maximum otherwise |
| TscState.CurrentCycle | src/tsc_now.rs:60-73 | the read plus the offset is the counter modulo 2^64, using the slot of the CPU named by `aux` per CPU; an out-of-range slot and an unstable level panic |
| TscState.ReadBeforeInitPanics | src/tsc_now.rs:14-18 | before `init` the TSC is unavailable and a read panics |
| TscState.ReadOnOnlineCpuSucceeds | src/tsc_now.rs:60-73 | after `init`, a read on an online CPU succeeds exactly when the TSC is available |
| TscState.ReadAgainstOffset | src/tsc_now.rs:60-71 | a read `d` cycles after the sample an offset came from, against a level holding that offset, gives the cycles since the anchor plus `d` |

## Left out

- File reads (`read_to_string`, `File::open`, `BufReader`): the
  contents are `Option<string>` parameters. For the files read whole,
  a read error, including text that is not valid UTF-8, is `None`.
  `/proc/cpuinfo` is read one line at a time and the scan stops at the
  first `flags` line. So a line that fails to read or decode before that
  line is `None`, and the text after it is never read: any text may stand
  there (`OnlyFirstFlagsLineCounts` shows it cannot change the answer).
- `sched_setaffinity`, `_rdtsc`, `__rdtscp` and `Instant::now`: their
  results are inputs (`WorkerProbe`, `Sample`, `tsc`, `aux`).
- Threads, `join`, the `static` `UnsafeCell` state, the `#[ctor]` hook
  and the `SeqCst` fence: only the values they carry are modelled.
- `_calculate_cycles_per_sec`: a floating-point loop over wall-clock
  samples that need not terminate. Its result is the `Measurement` input.
- `nanos_per_cycle` (the `f64` written by `init`) and `nanos_per_cycle()`:
  floating point.
- Calibration.CyclesFlied: computes `cps * nanos / 1e9` rounded up
  exactly, with integer ceiling division. The source uses `f64`, which
  can round differently once the product passes 2^53.
- Calibration.CyclesPerSec: models `tsc_freq_khz * 1000` and
  `last_tsc - cycles_flied` as release-build wrap-around modulo 2^64. A
  debug build panics on overflow instead.
- TscLevel.SpreadTooWide: states the test `(max - min) / min > 0.0005`
  exactly, as `2000 * (max - min) > min`. `f64` rounding could decide
  differently right at the boundary. With `min == 0` the exact test
  agrees with the float one: infinity is unstable, and `0 / 0` (NaN) is
  not.
- TscLevel.SumCps: the sum is unbounded. The source's `u64` sum could
  overflow with about 2^34 CPUs at 1 GHz.
- TscLevel.CyclesPerSecond: calling it on `Unstable` is excluded by a
  precondition instead of being modelled as the panic.
- `max_cpu_id + 1` overflowing `usize`, and a range too large to
  allocate: the model's integers are unbounded.
- `usize` is 64 bits wide (x86_64). On 32-bit x86, ids above 2^32 - 1
  would fail to parse.
