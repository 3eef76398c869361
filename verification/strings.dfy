/** Python's `str.split(sep)`, `sep.join(parts)` and `str.rstrip(ch)` for a
    single-character separator, on strings as sequences of characters. */
module Strings {

  /** Number of occurrences of `c` in `s`. */
  function CountOf(s: string, c: char): nat
    decreases |s|
  {
    if |s| == 0 then 0
    else (if s[0] == c then 1 else 0) + CountOf(s[1..], c)
  }

  /** `c` occurs in `s` exactly when its count is positive. */
  lemma {:induction false} CountOfPositive(s: string, c: char)
    ensures CountOf(s, c) > 0 <==> c in s
    decreases |s|
  {
    if |s| > 0 {
      CountOfPositive(s[1..], c);
      assert c in s <==> s[0] == c || c in s[1..];
    }
  }

  /** `s.split(c)`: the maximal runs between occurrences of `c`. Like Python,
      it never returns an empty list: `"".split(c) == [""]`. */
  function Split(s: string, c: char): (r: seq<string>)
    ensures |r| == CountOf(s, c) + 1
    ensures forall i :: 0 <= i < |r| ==> c !in r[i]
    decreases |s|
  {
    if |s| == 0 then [""]
    else
      var rest := Split(s[1..], c);
      if s[0] == c then [""] + rest
      else [[s[0]] + rest[0]] + rest[1..]
  }

  /** `c.join(parts)`. */
  function Join(parts: seq<string>, c: char): string
    decreases |parts|
  {
    if |parts| == 0 then ""
    else if |parts| == 1 then parts[0]
    else parts[0] + [c] + Join(parts[1..], c)
  }

  /** `s.rstrip(c)`: `s` without its trailing run of `c`. */
  function RStrip(s: string, c: char): (r: string)
    ensures |r| <= |s| && r == s[..|r|]
    ensures |r| == 0 || r[|r| - 1] != c
    ensures forall i :: |r| <= i < |s| ==> s[i] == c
    decreases |s|
  {
    if |s| > 0 && s[|s| - 1] == c then RStrip(s[..|s| - 1], c) else s
  }

  /** A string without `c` splits into itself alone. */
  lemma {:induction false} SplitNoSep(s: string, c: char)
    requires c !in s
    ensures Split(s, c) == [s]
    decreases |s|
  {
    if |s| > 0 {
      assert c !in s[1..];
      SplitNoSep(s[1..], c);
      assert [s[0]] + s[1..] == s;
    }
  }

  /** Splitting distributes over a separator: the fields of `a + [c] + b` are
      those of `a` followed by those of `b`. */
  lemma {:induction false} SplitAround(a: string, b: string, c: char)
    ensures Split(a + [c] + b, c) == Split(a, c) + Split(b, c)
    decreases |a|
  {
    var s := a + [c] + b;
    if |a| == 0 {
      assert s[1..] == b;
    } else {
      assert s[1..] == a[1..] + [c] + b;
      SplitAround(a[1..], b, c);
    }
  }

  /** A separator-free field followed by a separator splits off as the
      first field. */
  lemma SplitCons(x: string, rest: string, c: char)
    requires c !in x
    ensures Split(x + [c] + rest, c) == [x] + Split(rest, c)
  {
    SplitAround(x, rest, c);
    SplitNoSep(x, c);
  }

  /** Join undoes Split: `c.join(s.split(c)) == s`. */
  lemma {:induction false} JoinSplit(s: string, c: char)
    ensures Join(Split(s, c), c) == s
    decreases |s|
  {
    if |s| > 0 {
      var rest := Split(s[1..], c);
      JoinSplit(s[1..], c);
      if s[0] == c {
        assert Split(s, c) == [""] + rest;
        assert ([""] + rest)[1..] == rest;
      } else {
        var head := [s[0]] + rest[0];
        assert Split(s, c) == [head] + rest[1..];
        if |rest| == 1 {
          assert Join(Split(s, c), c) == head;
        } else {
          assert ([head] + rest[1..])[1..] == rest[1..];
          assert Join(rest, c) == rest[0] + [c] + Join(rest[1..], c);
          assert Join(Split(s, c), c) == head + [c] + Join(rest[1..], c);
        }
        assert [s[0]] + s[1..] == s;
      }
    }
  }

  /** Split undoes Join when no part contains the separator and there is at
      least one part: `c.join(ps).split(c) == ps`. */
  lemma {:induction false} SplitJoin(ps: seq<string>, c: char)
    requires |ps| >= 1
    requires forall i :: 0 <= i < |ps| ==> c !in ps[i]
    ensures Split(Join(ps, c), c) == ps
    decreases |ps|
  {
    if |ps| == 1 {
      SplitNoSep(ps[0], c);
    } else {
      SplitAround(ps[0], Join(ps[1..], c), c);
      SplitNoSep(ps[0], c);
      SplitJoin(ps[1..], c);
      assert [ps[0]] + ps[1..] == ps;
    }
  }

  /** Stripping `c` from a string that does not end in `c`, followed by any
      run of `c`, gives back that string. */
  lemma {:induction false} RStripTrailing(s: string, tail: string, c: char)
    requires |s| == 0 || s[|s| - 1] != c
    requires forall i :: 0 <= i < |tail| ==> tail[i] == c
    ensures RStrip(s + tail, c) == s
    decreases |tail|
  {
    if |tail| > 0 {
      var shorter := tail[..|tail| - 1];
      assert (s + tail)[..|s + tail| - 1] == s + shorter;
      RStripTrailing(s, shorter, c);
    } else {
      assert s + tail == s;
    }
  }
}
