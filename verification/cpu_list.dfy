/**
 * `parse_cpu_list_format`: the Linux "List Format" used by
 * `/sys/devices/system/cpu/online` — comma-separated CPU numbers and
 * inclusive `from-to` ranges, in ASCII decimal.
 */
module CpuList {
  import opened Wrappers
  import opened Text
  import opened IntParse

  /** `from..=to` as a sequence: ascending, and empty when `from > to`. */
  function Range(lo: nat, hi: nat): (r: seq<nat>)
    ensures |r| == if lo <= hi then hi - lo + 1 else 0
    ensures forall k | 0 <= k < |r| :: r[k] == lo + k
    decreases hi + 1 - lo
  {
    if lo > hi then [] else [lo] + Range(lo + 1, hi)
  }

  /**
   * The numbers one comma-separated token stands for: a token with a dash
   * is split at its first dash into two bounds, anything else is a single
   * number.
   */
  function ExpandToken(token: string): Result<seq<nat>, IntErrorKind>
  {
    if '-' in token then
      var (first, last) := SplitOnce(token, '-');
      var lo :- ParseUsize(first);
      var hi :- ParseUsize(last);
      Success(Range(lo, hi))
    else
      var n :- ParseUsize(token);
      Success([n])
  }

  /** The expansions of the tokens, concatenated in order; the first bad token fails the whole list. */
  function ParseTokens(tokens: seq<string>): Result<seq<nat>, IntErrorKind>
  {
    if |tokens| == 0 then Success([])
    else
      var head :- ExpandToken(tokens[0]);
      var tail :- ParseTokens(tokens[1..]);
      Success(head + tail)
  }

  /** The comma-separated tokens of a list, after trimming the whole text. */
  function Tokens(list: string): (tokens: seq<string>)
    ensures |tokens| >= 1
  {
    Split(Trim(list), ',')
  }

  /** `parse_cpu_list_format(list)`: succeeds exactly when every token of the trimmed list is a number or a range. */
  function ParseCpuListFormat(list: string): (r: Result<seq<nat>, IntErrorKind>)
    ensures r.Success? <==> forall k | 0 <= k < |Tokens(list)| :: ExpandToken(Tokens(list)[k]).Success?
  {
    ParseTokensSucceedsIff(Tokens(list));
    ParseTokens(Tokens(list))
  }

  // ---------------------------------------------------------------------
  // The parser's loop as written: one pass over the tokens, pushing each
  // number or each element of a range onto the result.

  method ParseCpuListFormatLoop(list: string) returns (r: Result<seq<nat>, IntErrorKind>)
    ensures r == ParseCpuListFormat(list)
  {
    var tokens := Tokens(list);
    var res: seq<nat> := [];
    var k := 0;
    while k < |tokens|
      invariant 0 <= k <= |tokens|
      invariant ParseTokens(tokens[..k]) == Success(res)
    {
      var next := PushToken(res, tokens[k]);
      ParseStep(tokens, k, res);
      if next.Failure? {
        return Failure(next.error);
      }
      res := next.value;
      k := k + 1;
    }
    assert tokens[..k] == tokens;
    return Success(res);
  }

  /** The loop's step: token `k` extends the result parsed so far, or its error is the whole list's. */
  lemma ParseStep(tokens: seq<string>, k: nat, res: seq<nat>)
    requires k < |tokens| && ParseTokens(tokens[..k]) == Success(res)
    ensures ExpandToken(tokens[k]).Failure? ==> ParseTokens(tokens) == Failure(ExpandToken(tokens[k]).error)
    ensures ExpandToken(tokens[k]).Success? ==> ParseTokens(tokens[..k + 1]) == Success(res + ExpandToken(tokens[k]).value)
  {
    ParseTokensSnoc(tokens[..k], tokens[k]);
    assert tokens[..k + 1] == tokens[..k] + [tokens[k]];
    if ExpandToken(tokens[k]).Failure? {
      FailureAt(tokens, k);
    }
  }

  lemma FailureAt(tokens: seq<string>, k: nat)
    requires k < |tokens| && ParseTokens(tokens[..k + 1]).Failure?
    ensures ParseTokens(tokens) == ParseTokens(tokens[..k + 1])
  {
    ParseTokensPrefixFailure(tokens[..k + 1], tokens[k + 1..]);
    assert tokens[..k + 1] + tokens[k + 1..] == tokens;
  }

  /** One iteration of the loop: push the numbers of one token, or stop at its error. */
  method PushToken(res: seq<nat>, token: string) returns (next: Result<seq<nat>, IntErrorKind>)
    ensures ExpandToken(token).Success? ==> next == Success(res + ExpandToken(token).value)
    ensures ExpandToken(token).Failure? ==> next == Failure(ExpandToken(token).error)
  {
    if '-' in token {
      var (first, last) := SplitOnce(token, '-');
      var lo := ParseUsize(first);
      if lo.Failure? {
        return Failure(lo.error);
      }
      var hi := ParseUsize(last);
      if hi.Failure? {
        return Failure(hi.error);
      }
      var pushed := PushRange(res, lo.value, hi.value);
      return Success(pushed);
    }
    var n := ParseUsize(token);
    if n.Failure? {
      return Failure(n.error);
    }
    return Success(res + [n.value]);
  }

  /** `for i in lo..=hi { res.push(i) }`. */
  method PushRange(res: seq<nat>, lo: nat, hi: nat) returns (out: seq<nat>)
    ensures out == res + Range(lo, hi)
  {
    out := res;
    var i := lo;
    while i <= hi
      invariant lo <= i && (i <= hi + 1 || i == lo)
      invariant |out| == |res| + (i - lo)
      invariant out[..|res|] == res
      invariant forall k | |res| <= k < |out| :: out[k] == lo + (k - |res|)
      decreases hi + 1 - i
    {
      out := out + [i];
      i := i + 1;
    }
    assert out == res + Range(lo, hi);
  }

  /** Parsing one more token extends the result by that token's expansion, or fails. */
  lemma {:induction false} ParseTokensSnoc(tokens: seq<string>, t: string)
    requires ParseTokens(tokens).Success?
    ensures ExpandToken(t).Failure? ==> ParseTokens(tokens + [t]) == Failure(ExpandToken(t).error)
    ensures ExpandToken(t).Success? ==>
              ParseTokens(tokens + [t]) == Success(ParseTokens(tokens).value + ExpandToken(t).value)
  {
    if |tokens| == 0 {
      assert tokens + [t] == [t];
      assert [t][1..] == [];
      if ExpandToken(t).Success? {
        assert ExpandToken(t).value + [] == [] + ExpandToken(t).value;
      }
    } else {
      assert (tokens + [t])[0] == tokens[0];
      assert (tokens + [t])[1..] == tokens[1..] + [t];
      ParseTokensSnoc(tokens[1..], t);
      if ExpandToken(t).Success? && ExpandToken(tokens[0]).Success? {
        var head := ExpandToken(tokens[0]).value;
        var tail := ParseTokens(tokens[1..]).value;
        assert head + (tail + ExpandToken(t).value) == (head + tail) + ExpandToken(t).value;
      }
    }
  }

  /** A failing prefix fails the whole list: there is no partial result. */
  lemma {:induction false} ParseTokensPrefixFailure(tokens: seq<string>, more: seq<string>)
    requires ParseTokens(tokens).Failure?
    ensures ParseTokens(tokens + more) == ParseTokens(tokens)
  {
    if |tokens| > 0 {
      assert (tokens + more)[1..] == tokens[1..] + more;
      if ExpandToken(tokens[0]).Success? {
        ParseTokensPrefixFailure(tokens[1..], more);
      }
    }
  }

  // ---------------------------------------------------------------------
  // What the parser accepts and returns.

  /** The list parses exactly when every one of its tokens does. */
  lemma {:induction false} ParseTokensSucceedsIff(tokens: seq<string>)
    ensures ParseTokens(tokens).Success? <==>
              forall k | 0 <= k < |tokens| :: ExpandToken(tokens[k]).Success?
  {
    if |tokens| > 0 {
      ParseTokensSucceedsIff(tokens[1..]);
      assert forall k | 1 <= k < |tokens| :: tokens[k] == tokens[1..][k - 1];
    }
  }

  /** A numeric token is not a valid CPU list item when it holds anything but digits and `+`. */
  lemma ExpandTokenRejectsForeignChar(token: string, c: char)
    requires c in token && !IsDigit(c) && c != '+' && c != '-'
    ensures ExpandToken(token).Failure?
  {
    if '-' in token {
      var (first, last) := SplitOnce(token, '-');
      assert c in first + ['-'] + last;
      if c in first {
        ParseUsizeRejectsForeignChar(first, c);
      } else {
        assert c in last;
        ParseUsizeRejectsForeignChar(last, c);
      }
    } else {
      ParseUsizeRejectsForeignChar(token, c);
    }
  }

  /**
   * After trimming, anything other than digits, commas, dashes and `+`
   * fails the parse; in particular interior whitespace such as "0, 1".
   */
  lemma ParseRejectsForeignChar(list: string, c: char)
    requires c in Trim(list) && !IsDigit(c) && c !in ",-+"
    ensures ParseCpuListFormat(list).Failure?
  {
    var tokens := Tokens(list);
    JoinMember(tokens, ',', c);
    var k :| 0 <= k < |tokens| && c in tokens[k];
    ExpandTokenRejectsForeignChar(tokens[k], c);
    ParseTokensSucceedsIff(tokens);
  }

  /** An empty token, from a stray or doubled comma or an empty list, fails the parse. */
  lemma ParseRejectsEmptyToken(list: string)
    requires "" in Tokens(list)
    ensures ParseCpuListFormat(list).Failure?
  {
    var tokens := Tokens(list);
    var k :| 0 <= k < |tokens| && tokens[k] == "";
    assert ExpandToken("").Failure?;
    ParseTokensSucceedsIff(tokens);
  }

  /**
   * A range with an empty bound ("-3", "3-") or a second dash ("1-2-3",
   * whose upper bound "2-3" is not a number) fails the parse.
   */
  lemma ParseRejectsMalformedRange(list: string, token: string)
    requires token in Tokens(list) && '-' in token
    requires SplitOnce(token, '-').0 == "" || SplitOnce(token, '-').1 == "" || '-' in SplitOnce(token, '-').1
    ensures ParseCpuListFormat(list).Failure?
  {
    var tokens := Tokens(list);
    var (first, last) := SplitOnce(token, '-');
    if '-' in last {
      ParseUsizeRejectsForeignChar(last, '-');
    }
    assert ExpandToken(token).Failure?;
    ParseTokensSucceedsIff(tokens);
  }

  // ---------------------------------------------------------------------
  // A reference printer for the format, and the round trip through it.

  /** One item of a CPU list: a single CPU or an inclusive range. */
  datatype Item = Single(cpu: nat) | Span(lo: nat, hi: nat)

  predicate InUsize(item: Item)
  {
    match item
    case Single(n) => n <= USIZE_MAX
    case Span(f, t) => f <= USIZE_MAX && t <= USIZE_MAX
  }

  function FormatItem(item: Item): (s: string)
    ensures DigitEnds(s) && ',' !in s
  {
    match item
    case Single(n) => ToDecimal(n)
    case Span(f, t) => ToDecimal(f) + "-" + ToDecimal(t)
  }

  function ItemCpus(item: Item): seq<nat>
  {
    match item
    case Single(n) => [n]
    case Span(f, t) => Range(f, t)
  }

  function FormatItems(items: seq<Item>): seq<string>
    ensures |FormatItems(items)| == |items|
    ensures forall k | 0 <= k < |items| :: FormatItems(items)[k] == FormatItem(items[k])
  {
    if |items| == 0 then [] else [FormatItem(items[0])] + FormatItems(items[1..])
  }

  /** The text a list of items is written as: the items joined by commas. */
  function Format(items: seq<Item>): string
    requires |items| >= 1
  {
    Join(FormatItems(items), ',')
  }

  /** The CPUs a list of items denotes, in order, with ranges expanded. */
  function Expand(items: seq<Item>): seq<nat>
  {
    if |items| == 0 then [] else ItemCpus(items[0]) + Expand(items[1..])
  }

  lemma ExpandFormatItem(item: Item)
    requires InUsize(item)
    ensures ExpandToken(FormatItem(item)) == Success(ItemCpus(item))
  {
    match item
    case Single(n) =>
      ParseToDecimal(n);
    case Span(f, t) =>
      ParseToDecimal(f);
      ParseToDecimal(t);
      assert ToDecimal(f) + "-" + ToDecimal(t) == ToDecimal(f) + ['-'] + ToDecimal(t);
      SplitOnceJoin(ToDecimal(f), '-', ToDecimal(t));
  }

  lemma {:induction false} ParseFormattedTokens(items: seq<Item>)
    requires forall k | 0 <= k < |items| :: InUsize(items[k])
    ensures ParseTokens(FormatItems(items)) == Success(Expand(items))
  {
    if |items| > 0 {
      ExpandFormatItem(items[0]);
      ParseFormattedTokens(items[1..]);
      assert FormatItems(items)[1..] == FormatItems(items[1..]);
    }
  }

  /**
   * Round trip: parsing the text of a list of items, with or without a
   * trailing newline, yields their expansion in order.
   */
  lemma ParseFormatRoundTrip(items: seq<Item>, suffix: string)
    requires |items| >= 1
    requires forall k | 0 <= k < |items| :: InUsize(items[k])
    requires forall k | 0 <= k < |suffix| :: IsWhitespace(suffix[k])
    ensures ParseCpuListFormat(Format(items) + suffix) == Success(Expand(items))
  {
    var text := Format(items) + suffix;
    var parts := FormatItems(items);
    assert Tokens(text) == parts by {
      JoinedTokens(parts, suffix);
    }
    ParseFormattedTokens(items);
    assert ParseCpuListFormat(text) == ParseTokens(parts);
  }

  /**
   * Numbers joined by commas, followed by whitespace, split back into the
   * same tokens.
   */
  lemma JoinedTokens(parts: seq<string>, suffix: string)
    requires |parts| >= 1
    requires forall k | 0 <= k < |parts| :: DigitEnds(parts[k]) && ',' !in parts[k]
    requires forall k | 0 <= k < |suffix| :: IsWhitespace(suffix[k])
    ensures Tokens(Join(parts, ',') + suffix) == parts
  {
    var text := Join(parts, ',');
    JoinEnds(parts);
    DigitEndsNotWhitespace(text);
    TrimDropsWhitespaceSuffix(text, suffix);
    SplitJoin(parts, ',');
  }

  /** Text that starts and ends with a digit. */
  predicate DigitEnds(s: string)
  {
    |s| > 0 && IsDigit(s[0]) && IsDigit(s[|s| - 1])
  }

  lemma DigitEndsNotWhitespace(s: string)
    requires DigitEnds(s)
    ensures |s| > 0 && !IsWhitespace(s[0]) && !IsWhitespace(s[|s| - 1])
  {
  }

  lemma {:induction false} JoinEnds(parts: seq<string>)
    requires |parts| >= 1
    requires forall k | 0 <= k < |parts| :: DigitEnds(parts[k])
    ensures DigitEnds(Join(parts, ','))
  {
    if |parts| > 1 {
      JoinEnds(parts[1..]);
    }
  }

  // ---------------------------------------------------------------------
  // The repository's unit tests and the List Format's error cases.

  lemma ParseExampleMixed()
    ensures ParseCpuListFormat("0-2,7,12-14\n") == Success([0, 1, 2, 7, 12, 13, 14])
  {
    FormatMixed();
    ParseOfFormatted([Span(0, 2), Single(7), Span(12, 14)], "0-2,7,12-14\n", [0, 1, 2, 7, 12, 13, 14]);
  }

  lemma FormatMixed()
    ensures Format([Span(0, 2), Single(7), Span(12, 14)]) + "\n" == "0-2,7,12-14\n"
    ensures Expand([Span(0, 2), Single(7), Span(12, 14)]) == [0, 1, 2, 7, 12, 13, 14]
  {
    var items := [Span(0, 2), Single(7), Span(12, 14)];
    assert FormatItem(items[0]) == "0-2" && FormatItem(items[1]) == "7";
    assert FormatItem(items[2]) == "12-14";
    assert FormatItems(items) == ["0-2", "7", "12-14"];
    assert Join(["12-14"], ',') == "12-14";
    assert Join(["7", "12-14"], ',') == "7,12-14";
    assert Join(["0-2", "7", "12-14"], ',') == "0-2,7,12-14";
  }

  lemma ParseExampleRangeThenSingle()
    ensures ParseCpuListFormat("0-4,9\n") == Success([0, 1, 2, 3, 4, 9])
  {
    FormatRangeThenSingle();
    ParseOfFormatted([Span(0, 4), Single(9)], "0-4,9\n", [0, 1, 2, 3, 4, 9]);
  }

  lemma FormatRangeThenSingle()
    ensures Format([Span(0, 4), Single(9)]) + "\n" == "0-4,9\n"
    ensures Expand([Span(0, 4), Single(9)]) == [0, 1, 2, 3, 4, 9]
  {
    var items := [Span(0, 4), Single(9)];
    assert FormatItem(items[0]) == "0-4" && FormatItem(items[1]) == "9";
    assert FormatItems(items) == ["0-4", "9"];
  }

  lemma ParseExampleSixteen()
    ensures ParseCpuListFormat("0-15\n") == Success(Range(0, 15))
  {
    FormatSixteen();
    ParseOfFormatted([Span(0, 15)], "0-15\n", Range(0, 15));
  }

  lemma FormatSixteen()
    ensures Format([Span(0, 15)]) + "\n" == "0-15\n"
    ensures Expand([Span(0, 15)]) == Range(0, 15)
  {
    var items := [Span(0, 15)];
    assert FormatItem(items[0]) == "0-15";
    assert FormatItems(items) == ["0-15"];
  }

  lemma ParseOfFormatted(items: seq<Item>, list: string, cpus: seq<nat>)
    requires |items| >= 1
    requires forall k | 0 <= k < |items| :: InUsize(items[k])
    requires list == Format(items) + "\n" || list == Format(items)
    requires cpus == Expand(items)
    ensures ParseCpuListFormat(list) == Success(cpus)
  {
    if list == Format(items) {
      ParseFormatRoundTrip(items, "");
      assert Format(items) + "" == list;
    } else {
      ParseFormatRoundTrip(items, "\n");
    }
  }

  /** The tokens of a list written as separator-free parts joined by commas. */
  lemma TokensOfJoin(list: string, parts: seq<string>)
    requires |parts| >= 1
    requires forall k | 0 <= k < |parts| :: ',' !in parts[k]
    requires list == Join(parts, ',')
    requires |list| > 0 ==> !IsWhitespace(list[0]) && !IsWhitespace(list[|list| - 1])
    ensures Tokens(list) == parts
  {
    TrimNoop(list);
    SplitJoin(parts, ',');
  }

  /** An empty lower bound: "-3". */
  lemma ParseRejectsMissingLowerBound()
    ensures ParseCpuListFormat("-3").Failure?
  {
    TokensOfJoin("-3", ["-3"]);
    assert SplitOnce("-3", '-').0 == "";
    ParseRejectsMalformedRange("-3", "-3");
  }

  /** An empty upper bound: "3-". */
  lemma ParseRejectsMissingUpperBound()
    ensures ParseCpuListFormat("3-").Failure?
  {
    TokensOfJoin("3-", ["3-"]);
    assert SplitOnce("3-", '-').1 == "";
    ParseRejectsMalformedRange("3-", "3-");
  }

  /** A second dash: "0,1-2-3" fails even though its first token is fine. */
  lemma ParseRejectsSecondDash()
    ensures ParseCpuListFormat("0,1-2-3").Failure?
  {
    TokensOfJoin("0,1-2-3", ["0", "1-2-3"]);
    assert SplitOnce("1-2-3", '-').1 == "2-3";
    ParseRejectsMalformedRange("0,1-2-3", "1-2-3");
  }

  /** Interior whitespace: "0, 1". */
  lemma ParseRejectsInteriorSpace()
    ensures ParseCpuListFormat("0, 1").Failure?
  {
    TokensOfJoin("0, 1", ["0", " 1"]);
    ExpandTokenRejectsForeignChar(" 1", ' ');
    ParseTokensSucceedsIff(["0", " 1"]);
  }

  /** A doubled comma: "0,,1". */
  lemma ParseRejectsDoubledComma()
    ensures ParseCpuListFormat("0,,1").Failure?
  {
    TokensOfJoin("0,,1", ["0", "", "1"]);
    ParseRejectsEmptyToken("0,,1");
  }

  /** A list of nothing but white space, such as a lone newline, holds one empty token. */
  lemma ParseRejectsBlankList(list: string)
    requires forall k | 0 <= k < |list| :: IsWhitespace(list[k])
    ensures ParseCpuListFormat(list).Failure?
  {
    assert Trim(list) == "";
    assert Tokens(list) == [""];
    ParseRejectsEmptyToken(list);
  }

  /** Tokens are expanded in order, with no sorting and no removal of repeats. */
  lemma ParseKeepsOrderAndRepeats()
    ensures ParseCpuListFormat("3,1,1") == Success([3, 1, 1])
  {
    var items := [Single(3), Single(1), Single(1)];
    assert Format(items) == "3,1,1";
    assert Expand(items) == [3, 1, 1];
    ParseOfFormatted(items, "3,1,1", [3, 1, 1]);
  }

  /** A descending range stands for no CPU at all. */
  lemma ParseDescendingRangeIsEmpty()
    ensures ParseCpuListFormat("5-3") == Success([])
  {
    var items := [Span(5, 3)];
    assert Format(items) == "5-3";
    assert Expand(items) == [];
    ParseOfFormatted(items, "5-3", []);
  }
}
