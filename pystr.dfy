/**
 * Python's `str.split(sep)` for a one-character separator and `sep.join(parts)`,
 * the two string operations the language-tag expression is built from.
 */
module PyStr {

  /** True when `c` does not occur in any of `parts`. */
  predicate NoneContains(parts: seq<string>, c: char) {
    forall i :: 0 <= i < |parts| ==> c !in parts[i]
  }

  /**
   * `s.split(sep)`: the maximal runs between occurrences of `sep`, in order.
   * There is always at least one part (`"".split("-") == [""]`), and no part
   * contains the separator.
   */
  function Split(s: string, sep: char): (parts: seq<string>)
    ensures |parts| >= 1
    ensures NoneContains(parts, sep)
  {
    if s == [] then [[]]
    else
      var rest := Split(s[1..], sep);
      assert s == [s[0]] + s[1..];
      if s[0] == sep then [[]] + rest
      else [[s[0]] + rest[0]] + rest[1..]
  }

  /** `sep.join(parts)`: the parts with one `sep` between each neighbouring pair. */
  function Join(parts: seq<string>, sep: char): (s: string)
  {
    if parts == [] then []
    else if |parts| == 1 then parts[0]
    else parts[0] + [sep] + Join(parts[1..], sep)
  }

  /** There is one more part than there are separators. */
  lemma {:induction false} SplitCount(s: string, sep: char)
    ensures |Split(s, sep)| == multiset(s)[sep] + 1
  {
    if s != [] {
      SplitCount(s[1..], sep);
      assert s == [s[0]] + s[1..];
    }
  }

  /** Joining what was split gives the string back. */
  lemma {:induction false} JoinSplit(s: string, sep: char)
    ensures Join(Split(s, sep), sep) == s
  {
    if s != [] {
      var rest := Split(s[1..], sep);
      JoinSplit(s[1..], sep);
      if s[0] != sep {
        if |rest| > 1 {
          assert rest == [rest[0]] + rest[1..];
        }
      }
    }
  }

  /** A separator-free prefix runs into the first part of what follows it. */
  lemma {:induction false} SplitAfterRun(run: string, t: string, sep: char)
    requires sep !in run
    ensures Split(run + t, sep) == [run + Split(t, sep)[0]] + Split(t, sep)[1..]
    decreases |run|
  {
    if run != [] {
      var s := run + t;
      assert s[1..] == run[1..] + t;
      assert sep !in run[1..] by { assert forall c :: c in run[1..] ==> c in run; }
      SplitAfterRun(run[1..], t, sep);
      assert s[0] == run[0] && run[0] != sep by { assert run[0] in run; }
      assert [run[0]] + (run[1..] + Split(t, sep)[0]) == run + Split(t, sep)[0];
    } else {
      var parts := Split(t, sep);
      assert run + t == t && run + parts[0] == parts[0];
      assert parts == [parts[0]] + parts[1..];
    }
  }

  /** A leading separator splits off an empty first part. */
  lemma SplitAfterSeparator(t: string, sep: char)
    ensures Split([sep] + t, sep) == [[]] + Split(t, sep)
  {
    assert ([sep] + t)[1..] == t;
  }

  /** A join of two or more parts is the first part, a separator, and the join of the rest. */
  lemma JoinFirst(parts: seq<string>, sep: char)
    requires |parts| > 1
    ensures Join(parts, sep) == parts[0] + ([sep] + Join(parts[1..], sep))
  {
  }

  /** Splitting a join of separator-free parts gives the parts back. */
  lemma {:induction false} SplitJoin(parts: seq<string>, sep: char)
    requires parts != []
    requires NoneContains(parts, sep)
    ensures Split(Join(parts, sep), sep) == parts
  {
    var p := parts[0];
    assert sep !in p;
    if |parts| == 1 {
      SplitAfterRun(p, [], sep);
      assert Split([], sep) == [[]];
      assert p + [] == p;
    } else {
      var tail := Join(parts[1..], sep);
      assert NoneContains(parts[1..], sep);
      SplitJoin(parts[1..], sep);
      var t := [sep] + tail;
      SplitAfterSeparator(tail, sep);
      SplitAfterRun(p, t, sep);
      JoinFirst(parts, sep);
      assert p + [] == p;
      assert parts == [p] + parts[1..];
    }
  }

  /** Joining two non-empty runs of parts puts one separator between their joins. */
  lemma {:induction false} JoinAppend(a: seq<string>, b: seq<string>, sep: char)
    requires a != [] && b != []
    ensures Join(a + b, sep) == Join(a, sep) + ([sep] + Join(b, sep))
    decreases |a|
  {
    if |a| > 1 {
      assert (a + b)[1..] == a[1..] + b;
      JoinAppend(a[1..], b, sep);
    }
  }

  /** A join of separator-free parts contains one separator fewer than it has parts. */
  lemma {:induction false} JoinCount(parts: seq<string>, sep: char)
    requires parts != []
    requires NoneContains(parts, sep)
    ensures multiset(Join(parts, sep))[sep] == |parts| - 1
  {
    SplitJoin(parts, sep);
    SplitCount(Join(parts, sep), sep);
  }
}
