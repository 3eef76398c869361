/** Python's ordering of `str` values (code point by code point, a proper
    prefix first), `sorted` over a list of lines, and the step that turns a
    sorted list into the sorted list of its distinct values. */
module Lex {

  /** `a <= b` on Python strings. */
  predicate LessEq(a: string, b: string)
    decreases |a|
  {
    |a| == 0 || (|b| > 0 && (a[0] < b[0] || (a[0] == b[0] && LessEq(a[1..], b[1..]))))
  }

  /** `a < b` on Python strings. */
  predicate Less(a: string, b: string)
  {
    LessEq(a, b) && a != b
  }

  lemma {:induction false} LessEqTotal(a: string, b: string)
    ensures LessEq(a, b) || LessEq(b, a)
    decreases |a|
  {
    if |a| > 0 && |b| > 0 && a[0] == b[0] {
      LessEqTotal(a[1..], b[1..]);
    }
  }

  lemma {:induction false} LessEqAntisymmetric(a: string, b: string)
    requires LessEq(a, b) && LessEq(b, a)
    ensures a == b
    decreases |a|
  {
    if |a| > 0 {
      LessEqAntisymmetric(a[1..], b[1..]);
      assert a == [a[0]] + a[1..];
      assert b == [b[0]] + b[1..];
    }
  }

  lemma {:induction false} LessEqTransitive(a: string, b: string, c: string)
    requires LessEq(a, b) && LessEq(b, c)
    ensures LessEq(a, c)
    decreases |a|
  {
    if |a| > 0 && a[0] == b[0] && b[0] == c[0] {
      LessEqTransitive(a[1..], b[1..], c[1..]);
    }
  }

  /** Every element is at most every later one. */
  ghost predicate Sorted(s: seq<string>)
  {
    forall i, j :: 0 <= i < j < |s| ==> LessEq(s[i], s[j])
  }

  /** Every element is below every later one: sorted and duplicate-free. */
  ghost predicate StrictlySorted(s: seq<string>)
  {
    forall i, j :: 0 <= i < j < |s| ==> Less(s[i], s[j])
  }

  /** Inserts `x` into the sorted list `s` before the first element not
      below it. */
  function Insert(x: string, s: seq<string>): (r: seq<string>)
    requires Sorted(s)
    ensures Sorted(r)
    ensures multiset(r) == multiset(s) + multiset{x}
    decreases |s|
  {
    if |s| == 0 then [x]
    else if LessEq(x, s[0]) then
      BelowHeadBelowAll(x, s);
      ConsSorted(x, s);
      [x] + s
    else
      LessEqTotal(x, s[0]);
      var rest := Insert(x, s[1..]);
      assert s == [s[0]] + s[1..];
      BelowAllOfInsert(s[0], x, s[1..], rest);
      ConsSorted(s[0], rest);
      [s[0]] + rest
  }

  /** Putting a lower bound of a sorted list in front keeps it sorted. */
  lemma ConsSorted(h: string, s: seq<string>)
    requires Sorted(s)
    requires forall k :: 0 <= k < |s| ==> LessEq(h, s[k])
    ensures Sorted([h] + s)
  {
  }

  /** Anything at most the head of a sorted list is at most all of it. */
  lemma BelowHeadBelowAll(x: string, s: seq<string>)
    requires Sorted(s) && |s| > 0 && LessEq(x, s[0])
    ensures forall k :: 0 <= k < |s| ==> LessEq(x, s[k])
  {
    forall k | 0 < k < |s|
      ensures LessEq(x, s[k])
    {
      LessEqTransitive(x, s[0], s[k]);
    }
  }

  /** A lower bound of `x` and of all of `t` bounds every element of a list
      holding `t` and `x`. */
  lemma BelowAllOfInsert(h: string, x: string, t: seq<string>, r: seq<string>)
    requires LessEq(h, x)
    requires forall k :: 0 <= k < |t| ==> LessEq(h, t[k])
    requires multiset(r) == multiset(t) + multiset{x}
    ensures forall k :: 0 <= k < |r| ==> LessEq(h, r[k])
  {
    forall k | 0 <= k < |r|
      ensures LessEq(h, r[k])
    {
      assert r[k] in multiset(r);
      if r[k] != x {
        assert r[k] in multiset(t);
      }
    }
  }

  /** `sorted(s)`: the elements of `s` in ascending order. */
  function SortLines(s: seq<string>): (r: seq<string>)
    ensures Sorted(r)
    ensures multiset(r) == multiset(s)
    decreases |s|
  {
    if |s| == 0 then []
    else
      assert s == [s[0]] + s[1..];
      Insert(s[0], SortLines(s[1..]))
  }

  /** Drops each element equal to its successor; on a sorted list this leaves
      each distinct value once. */
  function Dedup(s: seq<string>): (r: seq<string>)
    ensures forall x :: x in r <==> x in s
    ensures Sorted(s) ==> StrictlySorted(r)
    decreases |s|
  {
    if |s| <= 1 then s
    else
      var rest := Dedup(s[1..]);
      assert forall x :: x in s <==> x == s[0] || x in s[1..];
      if s[0] == s[1] then rest
      else
        assert Sorted(s) ==> forall k :: 0 <= k < |rest| ==> Less(s[0], rest[k]) by {
          if Sorted(s) {
            forall k | 0 <= k < |rest|
              ensures Less(s[0], rest[k])
            {
              var y := rest[k];
              assert y in s[1..];
              var j :| 1 <= j < |s| && s[j] == y;
              if y == s[0] {
                assert LessEq(s[1], s[0]);
                LessEqAntisymmetric(s[0], s[1]);
              }
            }
          }
        }
        [s[0]] + rest
  }

  /** A sorted list is determined by its multiset: `sorted` depends only on
      which lines there are, not on the order they arrived in. */
  lemma {:induction false} SortedUnique(a: seq<string>, b: seq<string>)
    requires Sorted(a) && Sorted(b)
    requires multiset(a) == multiset(b)
    ensures a == b
    decreases |a|
  {
    if |a| > 0 {
      assert |b| == |multiset(b)| == |a|;
      assert a[0] in multiset(b) && b[0] in multiset(a);
      HeadsAgree(a, b);
      assert a == [a[0]] + a[1..];
      assert b == [b[0]] + b[1..];
      assert multiset(a[1..]) == multiset(a) - multiset{a[0]};
      assert multiset(b[1..]) == multiset(b) - multiset{b[0]};
      SortedUnique(a[1..], b[1..]);
    }
  }

  /** Two lists, each with its head at most all its elements, that contain
      each other's heads, have the same head. */
  lemma HeadsAgree(a: seq<string>, b: seq<string>)
    requires |a| > 0 && |b| > 0
    requires forall j :: 0 < j < |a| ==> LessEq(a[0], a[j])
    requires forall j :: 0 < j < |b| ==> LessEq(b[0], b[j])
    requires a[0] in b && b[0] in a
    ensures a[0] == b[0]
  {
    if a[0] != b[0] {
      var i :| 0 <= i < |b| && b[i] == a[0];
      var j :| 0 <= j < |a| && a[j] == b[0];
      LessEqAntisymmetric(a[0], b[0]);
    }
  }

  /** A strictly sorted list is determined by its set of elements: it is the
      only way to print a set in ascending order, each element once. */
  lemma {:induction false} StrictlySortedUnique(a: seq<string>, b: seq<string>)
    requires StrictlySorted(a) && StrictlySorted(b)
    requires forall x :: x in a <==> x in b
    ensures a == b
    decreases |a|
  {
    if |b| > 0 {
      assert b[0] in a;
    }
    if |a| > 0 {
      assert a[0] in b;
      HeadsAgree(a, b);
      forall x
        ensures x in a[1..] <==> x in b[1..]
      {
        assert x in a <==> x == a[0] || x in a[1..];
        assert x in b <==> x == b[0] || x in b[1..];
        assert a[0] !in a[1..];
        assert b[0] !in b[1..];
      }
      StrictlySortedUnique(a[1..], b[1..]);
      assert a == [a[0]] + a[1..];
      assert b == [b[0]] + b[1..];
    }
  }
}
