/**
 * Rust's `str::parse::<usize>` (`usize::from_str`) on a 64-bit target, and
 * the decimal rendering it inverts.
 */
module IntParse {
  import opened Wrappers
  import opened Words

  /** `usize::MAX` on x86_64. */
  const USIZE_MAX: nat := U64_MAX

  /** The kinds of `core::num::ParseIntError` an unsigned parse can report. */
  datatype IntErrorKind = Empty | InvalidDigit | PosOverflow

  predicate IsDigit(c: char)
  {
    '0' <= c <= '9'
  }

  function DigitValue(c: char): (d: nat)
    requires IsDigit(c)
    ensures d < 10
  {
    (c as int) - ('0' as int)
  }

  function DigitChar(d: nat): (c: char)
    requires d < 10
    ensures IsDigit(c) && DigitValue(c) == d
  {
    ('0' as int + d) as char
  }

  predicate AllDigits(s: string)
  {
    forall k | 0 <= k < |s| :: IsDigit(s[k])
  }

  /** The number an all-digit string denotes, read most significant digit first from `acc`. */
  function DecimalFrom(acc: nat, s: string): (v: nat)
    requires AllDigits(s)
    ensures v >= acc
    decreases |s|
  {
    if |s| == 0 then acc else DecimalFrom(acc * 10 + DigitValue(s[0]), s[1..])
  }

  function DecimalValue(s: string): nat
    requires AllDigits(s)
  {
    DecimalFrom(0, s)
  }

  /** The digit part `from_str` reads: the text after an optional leading `+`. */
  function UnsignedDigits(s: string): string
  {
    if |s| > 0 && s[0] == '+' then s[1..] else s
  }

  /**
   * The digit loop of `from_str_radix`: each character must be a decimal
   * digit, and the running value is checked against `usize::MAX` after
   * every step.
   */
  function Accumulate(digits: string, acc: nat): Result<nat, IntErrorKind>
    requires acc <= USIZE_MAX
  {
    if |digits| == 0 then Success(acc)
    else if !IsDigit(digits[0]) then Failure(InvalidDigit)
    else
      var v := acc * 10 + DigitValue(digits[0]);
      if v > USIZE_MAX then Failure(PosOverflow) else Accumulate(digits[1..], v)
  }

  /**
   * `s.parse::<usize>()`: an optional `+`, then one or more ASCII decimal
   * digits denoting a value no larger than `usize::MAX`.
   */
  function ParseUsize(s: string): (r: Result<nat, IntErrorKind>)
    ensures r.Success? <==>
              var d := UnsignedDigits(s);
              |d| > 0 && AllDigits(d) && DecimalValue(d) <= USIZE_MAX
    ensures r.Success? ==> AllDigits(UnsignedDigits(s)) && r.value == DecimalValue(UnsignedDigits(s))
    ensures r.Success? ==> r.value <= USIZE_MAX
  {
    if |s| == 0 then Failure(Empty)
    else if |s| == 1 && (s[0] == '+' || s[0] == '-') then Failure(InvalidDigit)
    else
      var d := UnsignedDigits(s);
      AccumulateMeaning(d, 0);
      Accumulate(d, 0)
  }

  /** The bounded digit loop agrees with the unbounded decimal value. */
  lemma {:induction false} AccumulateMeaning(digits: string, acc: nat)
    requires acc <= USIZE_MAX
    ensures Accumulate(digits, acc).Success? <==> AllDigits(digits) && DecimalFrom(acc, digits) <= USIZE_MAX
    ensures Accumulate(digits, acc).Success? ==> Accumulate(digits, acc).value == DecimalFrom(acc, digits)
  {
    if |digits| > 0 {
      if IsDigit(digits[0]) {
        var v := acc * 10 + DigitValue(digits[0]);
        if v <= USIZE_MAX {
          AccumulateMeaning(digits[1..], v);
          AllDigitsCons(digits);
        } else if AllDigits(digits) {
          assert DecimalFrom(acc, digits) == DecimalFrom(v, digits[1..]) >= v;
        }
      }
    }
  }

  lemma AllDigitsCons(s: string)
    requires |s| > 0
    ensures AllDigits(s) <==> IsDigit(s[0]) && AllDigits(s[1..])
  {
    if IsDigit(s[0]) && AllDigits(s[1..]) {
      forall k | 0 <= k < |s|
        ensures IsDigit(s[k])
      {
        if k > 0 {
          assert s[k] == s[1..][k - 1];
        }
      }
    }
  }

  /** Appending a digit multiplies the value read so far by ten and adds the digit. */
  lemma {:induction false} DecimalFromSnoc(acc: nat, s: string, c: char)
    requires AllDigits(s) && IsDigit(c)
    ensures AllDigits(s + [c])
    ensures DecimalFrom(acc, s + [c]) == DecimalFrom(acc, s) * 10 + DigitValue(c)
    decreases |s|
  {
    assert AllDigits(s + [c]);
    if |s| > 0 {
      assert (s + [c])[1..] == s[1..] + [c];
      DecimalFromSnoc(acc * 10 + DigitValue(s[0]), s[1..], c);
    }
  }

  /** `n.to_string()`: the shortest decimal rendering of `n`. */
  function ToDecimal(n: nat): (s: string)
    ensures |s| > 0 && AllDigits(s)
    ensures |s| > 1 ==> s[0] != '0'
  {
    if n < 10 then [DigitChar(n)] else ToDecimal(n / 10) + [DigitChar(n % 10)]
  }

  /** Reading back a rendered number gives the number. */
  lemma {:induction false} DecimalOfToDecimal(n: nat)
    ensures DecimalValue(ToDecimal(n)) == n
  {
    if n >= 10 {
      DecimalOfToDecimal(n / 10);
      DecimalFromSnoc(0, ToDecimal(n / 10), DigitChar(n % 10));
      assert ToDecimal(n) == ToDecimal(n / 10) + [DigitChar(n % 10)];
      assert n == (n / 10) * 10 + n % 10;
    } else {
      var s := [DigitChar(n)];
      assert DecimalFrom(0, s) == DecimalFrom(n, s[1..]);
      assert s[1..] == "";
    }
  }

  /** Round trip: `n.to_string().parse::<usize>() == Ok(n)` for every `usize`. */
  lemma ParseToDecimal(n: nat)
    requires n <= USIZE_MAX
    ensures ParseUsize(ToDecimal(n)) == Success(n)
  {
    DecimalOfToDecimal(n);
    assert UnsignedDigits(ToDecimal(n)) == ToDecimal(n);
  }

  /** Any character other than a digit or `+` makes the parse fail. */
  lemma ParseUsizeRejectsForeignChar(s: string, c: char)
    requires c in s && !IsDigit(c) && c != '+'
    ensures ParseUsize(s).Failure?
  {
    var i :| 0 <= i < |s| && s[i] == c;
    if s[0] == '+' {
      assert UnsignedDigits(s)[i - 1] == c;
    } else {
      assert UnsignedDigits(s)[i] == c;
    }
  }
}
