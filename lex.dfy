/**
 * Lexicographic order on integer sequences: the order Python uses to compare
 * two lists of ints, and the order JavaScript uses to compare two strings
 * (code unit by code unit).  A proper prefix comes first.
 */
module Lex {

  predicate LexLe(a: seq<int>, b: seq<int>)
    decreases |a|
  {
    |a| == 0 || (|b| > 0 && (a[0] < b[0] || (a[0] == b[0] && LexLe(a[1..], b[1..]))))
  }

  predicate LexLess(a: seq<int>, b: seq<int>)
  {
    LexLe(a, b) && a != b
  }

  /** The textbook definition: a is a prefix of b, or a is smaller at the first difference. */
  ghost predicate FirstDifferenceLe(a: seq<int>, b: seq<int>)
  {
    (|a| <= |b| && a == b[..|a|]) ||
    (exists k :: 0 <= k < |a| && k < |b| && a[..k] == b[..k] && a[k] < b[k])
  }

  lemma {:induction false} LexLeIsFirstDifference(a: seq<int>, b: seq<int>)
    ensures LexLe(a, b) <==> FirstDifferenceLe(a, b)
    decreases |a|
  {
    if |a| > 0 && |b| > 0 {
      LexLeIsFirstDifference(a[1..], b[1..]);
      if a[0] == b[0] {
        TailFirstDifference(a, b);
      } else if a[0] < b[0] {
        assert a[..0] == b[..0];
      } else {
        NoFirstDifference(a, b);
      }
    }
  }

  /** With equal heads, the first difference is the first difference of the tails. */
  lemma TailFirstDifference(a: seq<int>, b: seq<int>)
    requires |a| > 0 && |b| > 0 && a[0] == b[0]
    ensures FirstDifferenceLe(a, b) <==> FirstDifferenceLe(a[1..], b[1..])
  {
    if FirstDifferenceLe(a[1..], b[1..]) {
      if |a[1..]| <= |b[1..]| && a[1..] == b[1..][..|a[1..]|] {
        assert a == b[..|a|];
      } else {
        var k :| 0 <= k < |a[1..]| && k < |b[1..]| && a[1..][..k] == b[1..][..k] && a[1..][k] < b[1..][k];
        assert a[..k + 1] == b[..k + 1];
      }
    }
    if FirstDifferenceLe(a, b) {
      if |a| <= |b| && a == b[..|a|] {
        assert a[1..] == b[1..][..|a[1..]|];
      } else {
        var k :| 0 <= k < |a| && k < |b| && a[..k] == b[..k] && a[k] < b[k];
        assert k > 0;
        assert a[1..][..k - 1] == b[1..][..k - 1];
      }
    }
  }

  /** A larger head rules out both a prefix and a smaller first difference. */
  lemma NoFirstDifference(a: seq<int>, b: seq<int>)
    requires |a| > 0 && |b| > 0 && a[0] > b[0]
    ensures !FirstDifferenceLe(a, b)
  {
    if |a| <= |b| {
      assert b[..|a|][0] == b[0];
    }
    forall k | 0 < k <= |a| && k <= |b| ensures a[..k] != b[..k] {
      assert a[..k][0] == a[0] && b[..k][0] == b[0];
    }
  }

  lemma {:induction false} LexLeReflexive(a: seq<int>)
    ensures LexLe(a, a)
    decreases |a|
  {
    if |a| > 0 {
      LexLeReflexive(a[1..]);
    }
  }

  lemma {:induction false} LexLeTotal(a: seq<int>, b: seq<int>)
    ensures LexLe(a, b) || LexLe(b, a)
    decreases |a|
  {
    if |a| > 0 && |b| > 0 {
      LexLeTotal(a[1..], b[1..]);
    }
  }

  lemma {:induction false} LexLeAntisymmetric(a: seq<int>, b: seq<int>)
    requires LexLe(a, b) && LexLe(b, a)
    ensures a == b
    decreases |a|
  {
    if |a| > 0 {
      LexLeAntisymmetric(a[1..], b[1..]);
      assert a == [a[0]] + a[1..];
      assert b == [b[0]] + b[1..];
    }
  }

  lemma {:induction false} LexLeTransitive(a: seq<int>, b: seq<int>, c: seq<int>)
    requires LexLe(a, b) && LexLe(b, c)
    ensures LexLe(a, c)
    decreases |a|
  {
    if |a| > 0 && a[0] == b[0] && b[0] == c[0] {
      LexLeTransitive(a[1..], b[1..], c[1..]);
    }
  }

  lemma LexLessEmpty(a: seq<int>)
    ensures LexLess([], a) <==> a != []
    ensures !LexLess(a, [])
  {
  }

  /** Comparing two non-empty sequences compares the heads first, then the tails. */
  lemma LexLessCons(x: int, y: int, a: seq<int>, b: seq<int>)
    ensures LexLess([x] + a, [y] + b) <==> x < y || (x == y && LexLess(a, b))
  {
    assert ([x] + a)[1..] == a && ([y] + b)[1..] == b;
  }

  /** Comparing two concatenations whose first blocks have equal length compares block by block. */
  lemma {:induction false} LexLessBlocks(p: seq<int>, q: seq<int>, a: seq<int>, b: seq<int>)
    requires |p| == |q|
    ensures LexLess(p + a, q + b) <==> LexLess(p, q) || (p == q && LexLess(a, b))
    decreases |p|
  {
    if |p| == 0 {
      assert p + a == a && q + b == b;
    } else {
      assert p + a == [p[0]] + (p[1..] + a);
      assert q + b == [q[0]] + (q[1..] + b);
      assert p == [p[0]] + p[1..] && q == [q[0]] + q[1..];
      LexLessCons(p[0], q[0], p[1..] + a, q[1..] + b);
      LexLessCons(p[0], q[0], p[1..], q[1..]);
      LexLessBlocks(p[1..], q[1..], a, b);
    }
  }
}
