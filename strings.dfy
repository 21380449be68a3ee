/**
 The string operations the menu navigator relies on: Python's `str.split` with a
 one-character separator, its inverse (joining with the separator), and
 `str.startswith`.
 */
module Strings {

  /** `s.startswith(p)`. */
  predicate StartsWith(s: string, p: string)
  {
    |p| <= |s| && s[..|p|] == p
  }

  /** Number of occurrences of `d` in `s`. */
  function Occurrences(s: string, d: char): (n: nat)
    ensures n == 0 <==> d !in s
    ensures n <= |s|
  {
    if |s| == 0 then 0
    else (if s[0] == d then 1 else 0) + Occurrences(s[1..], d)
  }

  /** `d.join(fields)`: the fields glued together with one `d` between neighbours. */
  function Join(fields: seq<string>, d: char): string
    requires |fields| >= 1
    decreases |fields|
  {
    if |fields| == 1 then fields[0] else fields[0] + [d] + Join(fields[1..], d)
  }

  /**
   `s.split(d)`: the maximal runs of `s` between occurrences of `d`, empty runs
   included, so there is always one field more than there are separators.
   */
  function Split(s: string, d: char): (fields: seq<string>)
    ensures |fields| == Occurrences(s, d) + 1
    ensures |fields| >= 2 <==> d in s
    ensures forall i :: 0 <= i < |fields| ==> d !in fields[i]
    decreases |s|
  {
    if |s| == 0 then [""]
    else
      var rest := Split(s[1..], d);
      if s[0] == d then [""] + rest
      else [[s[0]] + rest[0]] + rest[1..]
  }

  /** Joining the fields of a split gives back the string. */
  lemma {:induction false} JoinSplit(s: string, d: char)
    ensures Join(Split(s, d), d) == s
    decreases |s|
  {
    if |s| > 0 {
      var rest := Split(s[1..], d);
      JoinSplit(s[1..], d);
      if s[0] == d {
        assert ([""] + rest)[1..] == rest;
        assert Join(Split(s, d), d) == "" + [d] + Join(rest, d);
        assert s == [s[0]] + s[1..];
      } else if |rest| == 1 {
        assert Split(s, d) == [[s[0]] + rest[0]];
        assert s == [s[0]] + s[1..];
      } else {
        var fields := [[s[0]] + rest[0]] + rest[1..];
        assert fields[1..] == rest[1..];
        assert Join(fields, d) == [s[0]] + rest[0] + [d] + Join(rest[1..], d);
        assert Join(rest, d) == rest[0] + [d] + Join(rest[1..], d);
        assert s == [s[0]] + s[1..];
      }
    }
  }

  /** A string without the separator is a single field. */
  lemma {:induction false} SplitSingle(a: string, d: char)
    requires d !in a
    ensures Split(a, d) == [a]
    decreases |a|
  {
    if |a| > 0 {
      SplitSingle(a[1..], d);
      assert a == [a[0]] + a[1..];
    }
  }

  /** A separator-free prefix followed by the separator becomes the first field. */
  lemma {:induction false} SplitAfterPrefix(a: string, b: string, d: char)
    requires d !in a
    ensures Split(a + [d] + b, d) == [a] + Split(b, d)
    decreases |a|
  {
    var s := a + [d] + b;
    if |a| == 0 {
      assert s[1..] == b;
    } else {
      assert s[1..] == a[1..] + [d] + b;
      SplitAfterPrefix(a[1..], b, d);
      assert a == [a[0]] + a[1..];
    }
  }

  /** Splitting a join of separator-free fields gives back exactly those fields. */
  lemma {:induction false} SplitJoin(fields: seq<string>, d: char)
    requires |fields| >= 1
    requires forall i :: 0 <= i < |fields| ==> d !in fields[i]
    ensures Split(Join(fields, d), d) == fields
    decreases |fields|
  {
    if |fields| == 1 {
      SplitSingle(fields[0], d);
    } else {
      SplitJoin(fields[1..], d);
      SplitAfterPrefix(fields[0], Join(fields[1..], d), d);
      assert fields == [fields[0]] + fields[1..];
    }
  }
}
