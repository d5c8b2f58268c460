/**
  The order in which the option lists are shown: Python compares strings code point
  by code point, and a proper prefix sorts first. `list.sort()` is modelled by an
  insertion sort whose result is the unique sorted permutation of its input.
*/
module Ordering {

  /** `a <= b` on Python strings. */
  predicate LexLeq(a: string, b: string)
    decreases |a|
  {
    |a| == 0 || (|b| > 0 && (a[0] < b[0] || (a[0] == b[0] && LexLeq(a[1..], b[1..]))))
  }

  lemma {:induction false} LexLeqReflexive(a: string)
    ensures LexLeq(a, a)
    decreases |a|
  {
    if |a| > 0 {
      LexLeqReflexive(a[1..]);
    }
  }

  lemma {:induction false} LexLeqTotal(a: string, b: string)
    ensures LexLeq(a, b) || LexLeq(b, a)
    decreases |a|
  {
    if |a| > 0 && |b| > 0 && a[0] == b[0] {
      LexLeqTotal(a[1..], b[1..]);
    }
  }

  lemma {:induction false} LexLeqTransitive(a: string, b: string, c: string)
    requires LexLeq(a, b) && LexLeq(b, c)
    ensures LexLeq(a, c)
    decreases |a|
  {
    if |a| > 0 && a[0] == b[0] && b[0] == c[0] {
      LexLeqTransitive(a[1..], b[1..], c[1..]);
    }
  }

  lemma {:induction false} LexLeqAntisymmetric(a: string, b: string)
    requires LexLeq(a, b) && LexLeq(b, a)
    ensures a == b
    decreases |a|
  {
    if |a| > 0 {
      LexLeqAntisymmetric(a[1..], b[1..]);
      assert a == [a[0]] + a[1..] && b == [b[0]] + b[1..];
    }
  }

  predicate Sorted(s: seq<string>)
  {
    forall i, j :: 0 <= i < j < |s| ==> LexLeq(s[i], s[j])
  }

  /** Places `x` in front of the first element it does not exceed. */
  function Insert(x: string, s: seq<string>): (r: seq<string>)
    requires Sorted(s)
    ensures Sorted(r)
    ensures multiset(r) == multiset(s) + multiset{x}
  {
    if s == [] then [x]
    else if LexLeq(x, s[0]) then
      assert forall k :: 0 <= k < |s| ==> LexLeq(x, s[k]) by {
        forall k | 0 <= k < |s| ensures LexLeq(x, s[k]) {
          LexLeqReflexive(s[0]);
          if k > 0 { LexLeqTransitive(x, s[0], s[k]); }
        }
      }
      [x] + s
    else
      var rest := Insert(x, s[1..]);
      assert s == [s[0]] + s[1..];
      assert forall y :: y in rest ==> LexLeq(s[0], y) by {
        forall y | y in rest ensures LexLeq(s[0], y) {
          assert y in multiset(rest);
          if y == x {
            LexLeqTotal(x, s[0]);
          } else {
            assert y in multiset(s[1..]);
            var k :| 0 <= k < |s[1..]| && s[1..][k] == y;
            assert s[k + 1] == y;
          }
        }
      }
      [s[0]] + rest
  }

  /** The list `.sort()` leaves behind. */
  function Sort(s: seq<string>): (r: seq<string>)
    ensures Sorted(r)
    ensures multiset(r) == multiset(s)
  {
    if s == [] then []
    else
      assert s == [s[0]] + s[1..];
      Insert(s[0], Sort(s[1..]))
  }

  /** The head of a sorted list is at most each of its elements. */
  lemma HeadIsLeast(s: seq<string>, y: string)
    requires Sorted(s) && y in s
    ensures LexLeq(s[0], y)
  {
    var k :| 0 <= k < |s| && s[k] == y;
    if k == 0 { LexLeqReflexive(y); }
  }

  /** Sorting determines its result: there is exactly one sorted arrangement of a multiset. */
  lemma {:induction false} SortedPermutationUnique(a: seq<string>, b: seq<string>)
    requires Sorted(a) && Sorted(b)
    requires multiset(a) == multiset(b)
    ensures a == b
    decreases |a|
  {
    if a != [] {
      assert |b| == |a| by {
        assert |multiset(b)| == |multiset(a)|;
      }
      assert a[0] in multiset(b) && b[0] in multiset(a);
      HeadIsLeast(b, a[0]);
      HeadIsLeast(a, b[0]);
      LexLeqAntisymmetric(a[0], b[0]);
      var ta, tb := a[1..], b[1..];
      assert a == [a[0]] + ta && b == [b[0]] + tb;
      assert multiset(ta) == multiset(tb) by {
        assert multiset(a) == multiset{a[0]} + multiset(ta);
        assert multiset(b) == multiset{a[0]} + multiset(tb);
        forall y ensures multiset(ta)[y] == multiset(tb)[y] {
          assert multiset(a)[y] == multiset(b)[y];
        }
      }
      SortedPermutationUnique(ta, tb);
    }
  }
}
