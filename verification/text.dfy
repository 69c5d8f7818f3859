/**
 * Line-oriented text: splitting on a separator, joining with one, and the
 * "every piece followed by a separator" shape that `push_str` loops build.
 */
module Text {

  /** Splits `s` at every occurrence of `sep`, as Rust's `str::split` does. */
  function SplitOn(s: string, sep: char): (parts: seq<string>)
    ensures |parts| > 0
    ensures forall i :: 0 <= i < |parts| ==> sep !in parts[i]
  {
    if |s| == 0 then [""]
    else
      var rest := SplitOn(s[1..], sep);
      if s[0] == sep then [""] + rest
      else [[s[0]] + rest[0]] + rest[1..]
  }

  /** The pieces with one `sep` between each neighbouring pair. */
  function Join(parts: seq<string>, sep: char): string
    requires |parts| > 0
  {
    if |parts| == 1 then parts[0]
    else parts[0] + [sep] + Join(parts[1..], sep)
  }

  /** Every piece followed by `sep`, including the last one. */
  function Terminated(parts: seq<string>, sep: char): string
  {
    if |parts| == 0 then ""
    else Terminated(parts[..|parts| - 1], sep) + parts[|parts| - 1] + [sep]
  }

  /** Rust's `String::pop`, keeping only the shortened string. */
  function Pop(s: string): (r: string)
    ensures |s| > 0 ==> r + [s[|s| - 1]] == s
    ensures |s| == 0 ==> r == s
  {
    if |s| == 0 then s else s[..|s| - 1]
  }

  predicate SeparatorFree(parts: seq<string>, sep: char) {
    forall i :: 0 <= i < |parts| ==> sep !in parts[i]
  }

  lemma {:induction false} SplitPiece(t: string, sep: char, rest: string)
    requires sep !in t
    ensures SplitOn(t + [sep] + rest, sep) == [t] + SplitOn(rest, sep)
    decreases |t|
  {
    if |t| == 0 {
      assert t + [sep] + rest == [sep] + rest;
      assert ([sep] + rest)[1..] == rest;
    } else {
      var s := t + [sep] + rest;
      assert s[0] == t[0];
      assert s[1..] == t[1..] + [sep] + rest;
      SplitPiece(t[1..], sep, rest);
      assert [t[0]] + t[1..] == t;
    }
  }

  lemma {:induction false} SplitWhole(t: string, sep: char)
    requires sep !in t
    ensures SplitOn(t, sep) == [t]
    decreases |t|
  {
    if |t| > 0 {
      SplitWhole(t[1..], sep);
      assert [t[0]] + t[1..] == t;
    }
  }

  /** Splitting undoes joining when no piece contains the separator. */
  lemma {:induction false} SplitJoin(parts: seq<string>, sep: char)
    requires |parts| > 0 && SeparatorFree(parts, sep)
    ensures SplitOn(Join(parts, sep), sep) == parts
    decreases |parts|
  {
    if |parts| == 1 {
      SplitWhole(parts[0], sep);
    } else {
      SplitJoin(parts[1..], sep);
      SplitPiece(parts[0], sep, Join(parts[1..], sep));
      assert [parts[0]] + parts[1..] == parts;
    }
  }

  lemma TerminatedSnoc(parts: seq<string>, last: string, sep: char)
    ensures Terminated(parts + [last], sep) == Terminated(parts, sep) + last + [sep]
  {
    assert (parts + [last])[..|parts|] == parts;
  }

  lemma {:induction false} TerminatedAppend(a: seq<string>, b: seq<string>, sep: char)
    ensures Terminated(a + b, sep) == Terminated(a, sep) + Terminated(b, sep)
    decreases |b|
  {
    if |b| == 0 {
      assert a + b == a;
    } else {
      var b' := b[..|b| - 1];
      TerminatedAppend(a, b', sep);
      assert (a + b)[..|a + b| - 1] == a + b';
    }
  }

  lemma {:induction false} TerminatedCons(p: string, rest: seq<string>, sep: char)
    ensures Terminated([p] + rest, sep) == p + [sep] + Terminated(rest, sep)
  {
    TerminatedAppend([p], rest, sep);
    assert [p][..0] == [];
  }

  /** Dropping the final separator of a terminated list leaves the joined list. */
  lemma {:induction false} PopTerminated(parts: seq<string>, sep: char)
    requires |parts| > 0
    ensures Pop(Terminated(parts, sep)) == Join(parts, sep)
    decreases |parts|
  {
    if |parts| == 1 {
      assert parts[..0] == [];
      assert Terminated(parts, sep) == parts[0] + [sep];
    } else {
      PopTerminated(parts[1..], sep);
      TerminatedCons(parts[0], parts[1..], sep);
      assert [parts[0]] + parts[1..] == parts;
      var tail := Terminated(parts[1..], sep);
      assert |tail| > 0 by { assert parts[1..] != []; }
      assert Pop(parts[0] + [sep] + tail) == parts[0] + [sep] + Pop(tail);
    }
  }
}
