/** Subsequences: what is left of a list after deleting elements, order kept. */
module Subsequences {
  predicate IsSubsequence<T(==)>(a: seq<T>, b: seq<T>)
    decreases b
  {
    a == [] || (b != [] && ((a[0] == b[0] && IsSubsequence(a[1..], b[1..])) || IsSubsequence(a, b[1..])))
  }

  lemma {:induction false} Reflexive<T>(a: seq<T>)
    ensures IsSubsequence(a, a)
  {
    if a != [] {
      Reflexive(a[1..]);
    }
  }

  lemma {:induction false} WithoutFirst<T>(a: seq<T>, b: seq<T>)
    requires a != [] && IsSubsequence(a, b)
    ensures IsSubsequence(a[1..], b)
    decreases b
  {
    if !(a[0] == b[0] && IsSubsequence(a[1..], b[1..])) {
      WithoutFirst(a, b[1..]);
    }
  }

  /** Deleting one more element. */
  lemma {:induction false} WithoutOne<T>(p: seq<T>, x: T, q: seq<T>, b: seq<T>)
    requires IsSubsequence(p + [x] + q, b)
    ensures IsSubsequence(p + q, b)
    decreases b
  {
    var a := p + [x] + q;
    if p == [] {
      WithoutFirst(a, b);
      assert a[1..] == p + q;
    } else if a[0] == b[0] && IsSubsequence(a[1..], b[1..]) {
      assert a[1..] == p[1..] + [x] + q;
      WithoutOne(p[1..], x, q, b[1..]);
      assert (p + q)[1..] == p[1..] + q;
    } else {
      WithoutOne(p, x, q, b[1..]);
    }
  }

  lemma {:induction false} NeverLonger<T>(a: seq<T>, b: seq<T>)
    requires IsSubsequence(a, b)
    ensures |a| <= |b|
    decreases b
  {
    if a != [] {
      if a[0] == b[0] && IsSubsequence(a[1..], b[1..]) {
        NeverLonger(a[1..], b[1..]);
      } else {
        NeverLonger(a, b[1..]);
      }
    }
  }

  /** A subsequence of the same length is the list itself. */
  lemma {:induction false} NothingMissing<T>(a: seq<T>, b: seq<T>)
    requires IsSubsequence(a, b) && |a| == |b|
    ensures a == b
    decreases b
  {
    if a != [] {
      if a[0] == b[0] && IsSubsequence(a[1..], b[1..]) {
        NothingMissing(a[1..], b[1..]);
        assert a == [a[0]] + a[1..] && b == [b[0]] + b[1..];
      } else {
        NeverLonger(a, b[1..]);
      }
    }
  }

  lemma {:induction false} IsSuffix<T>(a: seq<T>, b: seq<T>)
    ensures IsSubsequence(a, b + a)
    decreases b
  {
    if b == [] {
      Reflexive(a);
      assert b + a == a;
    } else {
      IsSuffix(a, b[1..]);
      assert (b + a)[1..] == b[1..] + a;
    }
  }

  lemma {:induction false} Append<T>(a: seq<T>, b: seq<T>, c: seq<T>)
    requires IsSubsequence(a, b)
    ensures IsSubsequence(a + c, b + c)
    decreases b
  {
    if a == [] {
      IsSuffix(c, b);
      assert a + c == c;
    } else {
      assert (b + c)[1..] == b[1..] + c;
      if a[0] == b[0] && IsSubsequence(a[1..], b[1..]) {
        Append(a[1..], b[1..], c);
        assert (a + c)[1..] == a[1..] + c;
      } else {
        Append(a, b[1..], c);
      }
    }
  }

  /** Matching the first element as early as possible loses nothing. */
  lemma {:induction false} EarliestIsBest<T>(a: seq<T>, b: seq<T>)
    requires a != [] && b != [] && a[0] == b[0]
    ensures IsSubsequence(a, b) <==> IsSubsequence(a[1..], b[1..])
  {
    if IsSubsequence(a, b[1..]) {
      WithoutFirst(a, b[1..]);
    }
  }
}
