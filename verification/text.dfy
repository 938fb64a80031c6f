/**
 * The slice of Rust's `str` API the clock uses on kernel-exported text:
 * `trim`, `split(',')`, `splitn(2, '-')`, `contains`, `starts_with`, and
 * `BufRead::read_line`.
 */
module Text {

  /** Rust's `char::is_whitespace`: the Unicode White_Space property. */
  predicate IsWhitespace(c: char)
  {
    || ('\t' <= c <= '\r')
    || c == ' '
    || c == '\U{0085}'
    || c == '\U{00A0}'
    || c == '\U{1680}'
    || ('\U{2000}' <= c <= '\U{200A}')
    || c == '\U{2028}'
    || c == '\U{2029}'
    || c == '\U{202F}'
    || c == '\U{205F}'
    || c == '\U{3000}'
  }

  /** `s.trim_start()`: the suffix left after dropping leading whitespace. */
  function TrimStart(s: string): (r: string)
    ensures |r| <= |s| && r == s[|s| - |r|..]
    ensures forall k | 0 <= k < |s| - |r| :: IsWhitespace(s[k])
    ensures |r| > 0 ==> !IsWhitespace(r[0])
  {
    if |s| > 0 && IsWhitespace(s[0]) then TrimStart(s[1..]) else s
  }

  /** `s.trim_end()`: the prefix left after dropping trailing whitespace. */
  function TrimEnd(s: string): (r: string)
    ensures |r| <= |s| && r == s[..|r|]
    ensures forall k | |r| <= k < |s| :: IsWhitespace(s[k])
    ensures |r| > 0 ==> !IsWhitespace(r[|r| - 1])
  {
    if |s| > 0 && IsWhitespace(s[|s| - 1]) then TrimEnd(s[..|s| - 1]) else s
  }

  /** `s.trim()`. */
  function Trim(s: string): string
  {
    TrimEnd(TrimStart(s))
  }

  /** Text that neither starts nor ends with whitespace is left alone by `trim`. */
  lemma TrimNoop(s: string)
    requires |s| > 0 ==> !IsWhitespace(s[0]) && !IsWhitespace(s[|s| - 1])
    ensures Trim(s) == s
  {
  }

  /** Everything of `s` outside `s[i..j]` is whitespace. */
  predicate WhitespaceOutside(s: string, i: int, j: int)
    requires 0 <= i <= j <= |s|
  {
    forall k | 0 <= k < |s| && (k < i || j <= k) :: IsWhitespace(s[k])
  }

  /** Trimming removes only whitespace, from both ends, and keeps the middle intact. */
  lemma TrimIsInfix(s: string)
    ensures exists i, j :: 0 <= i <= j <= |s| && Trim(s) == s[i..j] && WhitespaceOutside(s, i, j)
  {
    var t := TrimStart(s);
    var r := TrimEnd(t);
    var i := |s| - |t|;
    var j := i + |r|;
    assert r == s[i..j] by {
      assert t == s[i..];
      assert r == t[..|r|];
    }
    forall k | 0 <= k < |s| && (k < i || j <= k)
      ensures IsWhitespace(s[k])
    {
      if j <= k {
        assert s[k] == t[k - i];
      }
    }
    assert WhitespaceOutside(s, i, j);
  }

  /** Trailing whitespace, such as a final newline, is dropped by `trim`. */
  lemma TrimDropsWhitespaceSuffix(s: string, suffix: string)
    requires |s| > 0 && !IsWhitespace(s[0]) && !IsWhitespace(s[|s| - 1])
    requires forall k | 0 <= k < |suffix| :: IsWhitespace(suffix[k])
    ensures Trim(s + suffix) == s
  {
    var t := s + suffix;
    assert TrimStart(t) == t;
    TrimEndDropsSuffix(s, suffix);
  }

  lemma {:induction false} TrimEndDropsSuffix(s: string, suffix: string)
    requires |s| > 0 && !IsWhitespace(s[|s| - 1])
    requires forall k | 0 <= k < |suffix| :: IsWhitespace(suffix[k])
    ensures TrimEnd(s + suffix) == s
    decreases |suffix|
  {
    if |suffix| == 0 {
      assert s + suffix == s;
    } else {
      var shorter := suffix[..|suffix| - 1];
      assert (s + suffix)[..|s + suffix| - 1] == s + shorter;
      TrimEndDropsSuffix(s, shorter);
    }
  }

  /** `parts.join([sep])`. */
  function Join(parts: seq<string>, sep: char): string
    requires |parts| >= 1
  {
    if |parts| == 1 then parts[0] else parts[0] + [sep] + Join(parts[1..], sep)
  }

  /**
   * `s.split(sep)`: the maximal separator-free pieces between occurrences
   * of `sep`; the empty string splits into one empty piece.
   */
  function Split(s: string, sep: char): (parts: seq<string>)
    ensures |parts| >= 1
    ensures forall k | 0 <= k < |parts| :: sep !in parts[k]
    ensures Join(parts, sep) == s
  {
    if |s| == 0 then [""]
    else
      var rest := Split(s[1..], sep);
      if s[0] == sep then
        assert Join([""] + rest, sep) == [sep] + Join(rest, sep);
        [""] + rest
      else
        var parts := [[s[0]] + rest[0]] + rest[1..];
        assert parts[1..] == rest[1..];
        parts
  }

  /** Splitting a separator-free prefix off: it becomes the head of the first piece. */
  lemma {:induction false} SplitPrefix(p: string, t: string, sep: char)
    requires sep !in p
    ensures Split(p + t, sep) == [p + Split(t, sep)[0]] + Split(t, sep)[1..]
  {
    var st := Split(t, sep);
    if |p| > 0 {
      assert (p + t)[1..] == p[1..] + t;
      assert (p + t)[0] == p[0] != sep;
      SplitPrefix(p[1..], t, sep);
      assert [p[0]] + (p[1..] + st[0]) == p + st[0];
    } else {
      assert p + t == t;
      assert p + st[0] == st[0];
      assert st == [st[0]] + st[1..];
    }
  }

  /** `split` inverts `join` when no piece contains the separator. */
  lemma {:induction false} SplitJoin(parts: seq<string>, sep: char)
    requires |parts| >= 1
    requires forall k | 0 <= k < |parts| :: sep !in parts[k]
    ensures Split(Join(parts, sep), sep) == parts
  {
    if |parts| == 1 {
      SplitPrefix(parts[0], "", sep);
      assert parts[0] + "" == parts[0];
    } else {
      var rest := Join(parts[1..], sep);
      SplitJoin(parts[1..], sep);
      assert ([sep] + rest)[1..] == rest;
      assert Split([sep] + rest, sep) == [""] + parts[1..];
      assert parts[0] + [sep] + rest == parts[0] + ([sep] + rest);
      SplitPrefix(parts[0], [sep] + rest, sep);
      assert parts[0] + "" == parts[0];
    }
  }

  /** Every character of a joined string other than the separator comes from some piece. */
  lemma {:induction false} JoinMember(parts: seq<string>, sep: char, c: char)
    requires |parts| >= 1
    requires c in Join(parts, sep) && c != sep
    ensures exists k :: 0 <= k < |parts| && c in parts[k]
  {
    if |parts| > 1 {
      var rest := Join(parts[1..], sep);
      if c !in parts[0] {
        assert c in rest;
        JoinMember(parts[1..], sep, c);
        var k :| 0 <= k < |parts| - 1 && c in parts[1..][k];
        assert c in parts[k + 1];
      }
    }
  }

  /** `s.splitn(2, c)` when `c` occurs: the text before and after its first occurrence. */
  function SplitOnce(s: string, c: char): (r: (string, string))
    requires c in s
    ensures r.0 + [c] + r.1 == s
    ensures c !in r.0
  {
    if s[0] == c then ("", s[1..])
    else
      var r := SplitOnce(s[1..], c);
      ([s[0]] + r.0, r.1)
  }

  /** Splitting at the first separator recovers the two sides it was put between. */
  lemma {:induction false} SplitOnceJoin(before: string, c: char, after: string)
    requires c !in before
    ensures SplitOnce(before + [c] + after, c) == (before, after)
  {
    var s := before + [c] + after;
    if |before| > 0 {
      assert s[0] == before[0] != c;
      assert s[1..] == before[1..] + [c] + after;
      SplitOnceJoin(before[1..], c, after);
      assert [before[0]] + before[1..] == before;
    } else {
      assert s[0] == c && s[1..] == after;
    }
  }

  /** `s.starts_with(p)`. */
  predicate StartsWith(s: string, p: string)
  {
    |p| <= |s| && s[..|p|] == p
  }

  /** `s.contains(sub)`: a left-to-right search for `sub` in `s`. */
  predicate Contains(s: string, sub: string)
    decreases |s|
  {
    StartsWith(s, sub) || (|s| > 0 && Contains(s[1..], sub))
  }

  /** `sub` occurs in `s` starting at offset `i`. */
  predicate OccursAt(s: string, sub: string, i: int)
  {
    0 <= i && i + |sub| <= |s| && s[i..i + |sub|] == sub
  }

  /** The search finds `sub` exactly when it occurs at some offset of `s`. */
  lemma {:induction false} ContainsIff(s: string, sub: string)
    ensures Contains(s, sub) <==> exists i :: OccursAt(s, sub, i)
    decreases |s|
  {
    if StartsWith(s, sub) {
      assert OccursAt(s, sub, 0);
    } else if |s| > 0 {
      ContainsIff(s[1..], sub);
      if Contains(s[1..], sub) {
        var i :| OccursAt(s[1..], sub, i);
        assert s[i + 1..i + 1 + |sub|] == s[1..][i..i + |sub|];
        assert OccursAt(s, sub, i + 1);
      } else {
        forall i | OccursAt(s, sub, i)
          ensures false
        {
          if i > 0 {
            var t := s[1..];
            assert i + |sub| <= |s|;
            assert t[i - 1..i - 1 + |sub|] == s[i..i + |sub|];
            assert OccursAt(t, sub, i - 1);
          }
        }
      }
    }
  }

  /**
   * `BufRead::read_line` on a non-empty remainder: everything up to and
   * including the first newline, or the whole remainder when none is left.
   */
  function ReadLine(s: string): (line: string)
    requires |s| > 0
    ensures 0 < |line| <= |s| && line == s[..|line|]
    ensures forall k | 0 <= k < |line| - 1 :: line[k] != '\n'
    ensures line[|line| - 1] == '\n' || line == s
  {
    if s[0] == '\n' || |s| == 1 then s[..1] else [s[0]] + ReadLine(s[1..])
  }

  /** A non-empty piece of text with no newline before its last character. */
  predicate OneLine(line: string)
  {
    |line| > 0 && forall k | 0 <= k < |line| - 1 :: line[k] != '\n'
  }

  /** A line that `read_line` cut at a newline rather than at end of file. */
  predicate CompleteLine(line: string)
  {
    OneLine(line) && line[|line| - 1] == '\n'
  }

  /**
   * The successive lines `read_line` returns until it reports end of file:
   * they cover the text in order, each is one line, and every line but the
   * last ends in a newline. Together these fix the pieces uniquely.
   */
  function ReadLines(s: string): (lines: seq<string>)
    ensures forall k | 0 <= k < |lines| :: OneLine(lines[k])
    ensures forall k | 0 <= k < |lines| - 1 :: CompleteLine(lines[k])
    ensures Concat(lines) == s
    decreases |s|
  {
    if |s| == 0 then []
    else
      var line := ReadLine(s);
      var rest := ReadLines(s[|line|..]);
      assert |rest| > 0 ==> |line| < |s|;
      assert Concat([line] + rest) == line + Concat(rest);
      [line] + rest
  }

  /** A complete first line is what `read_line` returns. */
  lemma ReadLineOfLine(line: string, rest: string)
    requires CompleteLine(line)
    ensures ReadLine(line + rest) == line
  {
    var s := line + rest;
    var read := ReadLine(s);
    assert forall k | 0 <= k < |read| && k < |line| :: read[k] == line[k];
    assert read == s[..|line|] == line;
  }

  /** A complete first line is read off on its own, and reading continues after it. */
  lemma ReadLinesOfLine(line: string, rest: string)
    requires CompleteLine(line)
    ensures ReadLines(line + rest) == [line] + ReadLines(rest)
  {
    ReadLineOfLine(line, rest);
    assert (line + rest)[|line|..] == rest;
  }

  /** Complete lines in front of any text are read off one by one, in order. */
  lemma {:induction false} ReadLinesOfLines(lines: seq<string>, rest: string)
    requires forall k | 0 <= k < |lines| :: CompleteLine(lines[k])
    ensures ReadLines(Concat(lines) + rest) == lines + ReadLines(rest)
  {
    if |lines| == 0 {
      assert Concat(lines) + rest == rest;
    } else {
      var head, more := lines[0], lines[1..];
      var tail := Concat(more) + rest;
      var after := ReadLines(rest);
      assert Concat(lines) + rest == head + tail;
      assert forall k | 0 <= k < |more| :: more[k] == lines[k + 1];
      ReadLinesOfLines(more, rest);
      ReadLinesOfLine(head, tail);
      PrependLine(head, more, after);
      assert [head] + more == lines;
      calc {
        ReadLines(Concat(lines) + rest);
        ReadLines(head + tail);
        [head] + (more + after);
        lines + after;
      }
    }
  }

  lemma PrependLine(head: string, more: seq<string>, after: seq<string>)
    ensures [head] + (more + after) == ([head] + more) + after
  {
  }

  function Concat(lines: seq<string>): string
  {
    if |lines| == 0 then "" else lines[0] + Concat(lines[1..])
  }
}
