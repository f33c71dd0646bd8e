/**
 * Python's `bytes.splitlines()` (without `keepends`), which the text-to-speech
 * pipeline applies to the bytes returned by document extraction.
 *
 * A line ends at LF, at CR, or at the pair CR LF (which counts as a single
 * break). The breaks are not part of the lines, and a break at the very end
 * of the input does not start another, empty line.
 */
module PyBytes {

  type byte = b: int | 0 <= b < 256

  const LF: byte := 10
  const CR: byte := 13

  /** True for the two bytes at which `bytes.splitlines` breaks: LF and CR. */
  predicate IsLineBreak(b: byte) {
    b == LF || b == CR
  }

  /** True when no byte of `line` is a line break. */
  predicate NoLineBreak(line: seq<byte>) {
    forall k :: 0 <= k < |line| ==> !IsLineBreak(line[k])
  }

  /** The three line terminators `bytes.splitlines` recognises. */
  predicate IsTerminator(eol: seq<byte>) {
    eol == [LF] || eol == [CR] || eol == [CR, LF]
  }

  /** Length of the first line of `s`: the position of its first line break, or |s| if it has none. */
  function LineLength(s: seq<byte>): (n: nat)
    ensures n <= |s|
    ensures NoLineBreak(s[..n])
    ensures n < |s| ==> IsLineBreak(s[n])
  {
    if s == [] || IsLineBreak(s[0]) then 0
    else
      var m := LineLength(s[1..]);
      assert s[..1 + m] == [s[0]] + s[1..][..m];
      1 + m
  }

  /** Number of bytes taken by the line break at `s[n]`: two for CR LF, otherwise one. */
  function BreakWidth(s: seq<byte>, n: nat): (w: nat)
    requires n < |s| && IsLineBreak(s[n])
    ensures w == 1 || w == 2
    ensures n + w <= |s|
    ensures w == 2 <==> s[n] == CR && n + 1 < |s| && s[n + 1] == LF
  {
    if s[n] == CR && n + 1 < |s| && s[n + 1] == LF then 2 else 1
  }

  /** `s.splitlines()`: the lines of `s`, in order, without their line breaks. */
  function SplitLines(s: seq<byte>): (lines: seq<seq<byte>>)
    ensures lines == [] <==> s == []
    decreases |s|
  {
    if s == [] then []
    else
      var n := LineLength(s);
      if n == |s| then [s]
      else [s[..n]] + SplitLines(s[n + BreakWidth(s, n)..])
  }

  /** No line of `s.splitlines()` contains a line break. */
  lemma {:induction false} SplitLinesHaveNoBreak(s: seq<byte>)
    ensures forall i :: 0 <= i < |SplitLines(s)| ==> NoLineBreak(SplitLines(s)[i])
    decreases |s|
  {
    if s != [] {
      var n := LineLength(s);
      if n < |s| {
        SplitLinesHaveNoBreak(s[n + BreakWidth(s, n)..]);
      }
    }
  }

  /** Each line followed by the terminator `eol`: the inverse of SplitLines. */
  function JoinLines(lines: seq<seq<byte>>, eol: seq<byte>): (s: seq<byte>)
  {
    if lines == [] then [] else lines[0] + eol + JoinLines(lines[1..], eol)
  }

  /** The first line of `line + rest` is `line` when `rest` starts with a line break. */
  lemma LineLengthOfLine(line: seq<byte>, rest: seq<byte>)
    requires NoLineBreak(line)
    requires rest != [] && IsLineBreak(rest[0])
    ensures LineLength(line + rest) == |line|
  {
    var s := line + rest;
    assert s[..|line|] == line && s[|line|] == rest[0];
  }

  /**
   * A line closed by a terminator is split off whole, unless a lone CR is
   * followed by LF, which would make the two one CR LF break.
   */
  lemma SplitFirstLine(line: seq<byte>, eol: seq<byte>, rest: seq<byte>)
    requires NoLineBreak(line) && IsTerminator(eol)
    requires eol == [CR] && rest != [] ==> rest[0] != LF
    ensures SplitLines(line + eol + rest) == [line] + SplitLines(rest)
  {
    var s := line + eol + rest;
    assert s == line + (eol + rest);
    LineLengthOfLine(line, eol + rest);
    var n := |line|;
    assert s[n] == eol[0];
    assert BreakWidth(s, n) == |eol|;
    assert s[..n] == line && s[n + |eol|..] == rest;
  }

  /** What follows a terminator opens the next line: its first byte, or the next terminator. */
  lemma JoinedStart(lines: seq<seq<byte>>, eol: seq<byte>)
    requires IsTerminator(eol)
    requires lines != [] && NoLineBreak(lines[0])
    ensures JoinLines(lines, eol)[0] == if lines[0] != [] then lines[0][0] else eol[0]
  {
    assert JoinLines(lines, eol) == lines[0] + (eol + JoinLines(lines[1..], eol));
  }

  /**
   * Splitting lines that were each closed by one and the same terminator gives
   * the lines back: no line is lost, none is added, none contains a break.
   */
  lemma {:induction false} SplitJoinLines(lines: seq<seq<byte>>, eol: seq<byte>)
    requires IsTerminator(eol)
    requires forall i :: 0 <= i < |lines| ==> NoLineBreak(lines[i])
    ensures SplitLines(JoinLines(lines, eol)) == lines
  {
    if lines != [] {
      var rest := JoinLines(lines[1..], eol);
      if rest != [] {
        JoinedStart(lines[1..], eol);
      }
      SplitFirstLine(lines[0], eol, rest);
      SplitJoinLines(lines[1..], eol);
      assert lines == [lines[0]] + lines[1..];
    }
  }

  /** A line break after the last byte does not produce an extra, empty line. */
  lemma {:induction false} TrailingBreakAddsNoLine(s: seq<byte>, eol: seq<byte>)
    requires IsTerminator(eol)
    requires s != [] && !IsLineBreak(s[|s| - 1])
    ensures SplitLines(s + eol) == SplitLines(s)
    decreases |s|
  {
    var n := LineLength(s);
    if n == |s| {
      SplitFirstLine(s, eol, []);
      assert s + eol + [] == s + eol;
    } else {
      var rest := SplitLinesExtend(s, eol);
      TrailingBreakAddsNoLine(rest, eol);
    }
  }

  /**
   * When the first line break of `s` is not its last byte, bytes appended to
   * `s` leave its first line and that break alone: they extend only `rest`,
   * what follows the break.
   */
  lemma SplitLinesExtend(s: seq<byte>, more: seq<byte>) returns (rest: seq<byte>)
    requires LineLength(s) < |s| && !IsLineBreak(s[|s| - 1])
    ensures rest != [] && rest[|rest| - 1] == s[|s| - 1]
    ensures |rest| < |s|
    ensures SplitLines(s) == [s[..LineLength(s)]] + SplitLines(rest)
    ensures SplitLines(s + more) == [s[..LineLength(s)]] + SplitLines(rest + more)
  {
    var n := LineLength(s);
    var t := s + more;
    LineLengthPrefix(s, more);
    assert t[..n] == s[..n] && t[n] == s[n] && t[n + 1] == s[n + 1];
    var w := BreakWidth(s, n);
    assert BreakWidth(t, n) == w;
    rest := s[n + w..];
    assert t[n + w..] == rest + more;
  }

  /** When `s` has a line break, appending bytes does not move its first one. */
  lemma LineLengthPrefix(s: seq<byte>, more: seq<byte>)
    requires LineLength(s) < |s|
    ensures LineLength(s + more) == LineLength(s)
  {
    var n := LineLength(s);
    var t := s + more;
    var m := LineLength(t);
    assert t[..n] == s[..n] && t[n] == s[n];
  }
}
