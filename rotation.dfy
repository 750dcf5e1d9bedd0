/**
 * The rotation buffer as a value: a FIFO cycle in which every pop from the
 * front is followed by a push of the same handle to the back.
 */
module Rotation {
  import opened Sequences

  /**
   * The queue after `n` pop-front/push-back steps: the first `n` elements
   * have moved, in order, to the back.
   */
  function RotateLeft<T>(s: seq<T>, n: nat): (r: seq<T>)
    requires n <= |s|
    ensures |r| == |s|
    ensures forall i :: 0 <= i < |s| - n ==> r[i] == s[n + i]
    ensures forall i :: |s| - n <= i < |s| ==> r[i] == s[i + n - |s|]
  {
    s[n..] + s[..n]
  }

  /** Position `i` of the rotated queue holds the element `n` places further on, cyclically. */
  lemma RotateLeftAt<T>(s: seq<T>, n: nat, i: nat)
    requires n <= |s| && i < |s|
    ensures RotateLeft(s, n)[i] == s[(i + n) % |s|]
  {
    var k := |s|;
    if i + n < k {
      ModUnique(i + n, k, 0, i + n);
    } else {
      ModUnique(i + n, k, 1, i + n - k);
    }
  }

  /** One more pop-front/push-back step after `n` steps is `n + 1` steps. */
  lemma RotateLeftStep<T>(s: seq<T>, n: nat)
    requires n < |s|
    ensures var t := RotateLeft(s, n); t[1..] + [t[0]] == RotateLeft(s, n + 1)
  {
    var t := RotateLeft(s, n);
    assert t[1..] == s[n + 1..] + s[..n];
    assert s[..n + 1] == s[..n] + [s[n]];
  }

  /** Rotating by `a` and then by `b` is rotating by `a + b`. */
  lemma RotateLeftAdd<T>(s: seq<T>, a: nat, b: nat)
    requires a + b <= |s|
    ensures RotateLeft(RotateLeft(s, a), b) == RotateLeft(s, a + b)
  {
    var t := RotateLeft(s, a);
    assert t[b..] == s[a + b..] + s[..a];
    assert t[..b] == s[a..a + b];
    assert s[..a + b] == s[..a] + s[a..a + b];
  }

  /** A rotation of a duplicate-free queue is duplicate-free. */
  lemma RotateLeftKeepsDistinct<T>(s: seq<T>, n: nat)
    requires n <= |s| && NoDuplicates(s)
    ensures NoDuplicates(RotateLeft(s, n))
  {
    var r, k := RotateLeft(s, n), |s|;
    forall i, j | 0 <= i < j < k ensures r[i] != r[j] {
      if j < k - n {
        assert r[i] == s[n + i] && r[j] == s[n + j];
      } else if i < k - n {
        assert r[i] == s[n + i] && r[j] == s[j + n - k];
      } else {
        assert r[i] == s[i + n - k] && r[j] == s[j + n - k];
      }
    }
  }

  /** A rotation keeps every element with its multiplicity, and keeps the queue duplicate-free. */
  lemma RotateLeftPermutes<T>(s: seq<T>, n: nat)
    requires n <= |s|
    ensures multiset(RotateLeft(s, n)) == multiset(s)
    ensures NoDuplicates(RotateLeft(s, n)) <==> NoDuplicates(s)
  {
    RotateLeftMultiset(s, n);
    if NoDuplicates(s) {
      RotateLeftKeepsDistinct(s, n);
    }
    if NoDuplicates(RotateLeft(s, n)) {
      RotateLeftUndo(s, n);
      RotateLeftKeepsDistinct(RotateLeft(s, n), |s| - n);
    }
  }

  /** Moving the front to the back keeps every element with its multiplicity. */
  lemma RotateLeftMultiset<T>(s: seq<T>, n: nat)
    requires n <= |s|
    ensures multiset(RotateLeft(s, n)) == multiset(s)
  {
    assert s == s[..n] + s[n..];
    assert multiset(s[n..] + s[..n]) == multiset(s[n..]) + multiset(s[..n]);
  }

  /** Rotating the rest of the way round restores the queue. */
  lemma RotateLeftUndo<T>(s: seq<T>, n: nat)
    requires n <= |s|
    ensures RotateLeft(RotateLeft(s, n), |s| - n) == s
  {
    RotateLeftAdd(s, n, |s| - n);
    assert RotateLeft(s, |s|) == s;
  }

  lemma MulAtLeast(d: int, k: int)
    requires d >= 1 && k > 0
    ensures d * k >= k
  {}

  /** Euclidean division has one remainder: `q * k + r` with `0 <= r < k` leaves `r`. */
  lemma ModUnique(x: int, k: int, q: int, r: int)
    requires k > 0 && 0 <= r < k && x == q * k + r
    ensures x % k == r
  {
    var q', r' := x / k, x % k;
    assert x == q' * k + r';
    assert (q - q') * k == r' - r;
    if q > q' {
      MulAtLeast(q - q', k);
    } else if q < q' {
      MulAtLeast(q' - q, k);
    }
  }

  /** The buffer after `j` rotation ticks, each a pop-front/push-back of one handle. */
  function AfterTicks<T>(s: seq<T>, j: nat): (r: seq<T>)
    ensures |r| == |s|
    decreases j
  {
    if j == 0 || |s| == 0 then s else AfterTicks(RotateLeft(s, 1), j - 1)
  }

  /** Stepping a count up by one steps its remainder up by one, wrapping at `k`. */
  lemma ModSucc(j: nat, k: nat)
    requires k > 0 && j > 0
    ensures (j - 1) % k + 1 < k ==> j % k == (j - 1) % k + 1
    ensures (j - 1) % k + 1 == k ==> j % k == 0
  {
    var q, m := (j - 1) / k, (j - 1) % k;
    assert j - 1 == q * k + m;
    if m + 1 < k {
      ModUnique(j, k, q, m + 1);
    } else {
      assert j == (q + 1) * k;
      ModUnique(j, k, q + 1, 0);
    }
  }

  /** `j` ticks on a buffer of length K rotate it by `j mod K`. */
  lemma {:induction false} AfterTicksIsRotation<T>(s: seq<T>, j: nat)
    requires |s| > 0
    ensures AfterTicks(s, j) == RotateLeft(s, j % |s|)
    decreases j
  {
    var k := |s|;
    if j == 0 {
      assert RotateLeft(s, 0) == s;
    } else {
      var m := (j - 1) % k;
      AfterTicksIsRotation(RotateLeft(s, 1), j - 1);
      RotateLeftAdd(s, 1, m);
      ModSucc(j, k);
      if m + 1 == k {
        assert RotateLeft(s, k) == s == RotateLeft(s, 0);
      }
    }
  }

  /**
   * Round-robin order: the handle popped at tick `j` (counting from 0) is
   * element `j mod K` of the starting buffer, and K ticks restore it.
   */
  lemma RoundRobin<T>(s: seq<T>, j: nat)
    requires |s| > 0
    ensures AfterTicks(s, j)[0] == s[j % |s|]
    ensures AfterTicks(s, |s|) == s
    ensures multiset(AfterTicks(s, j)) == multiset(s)
  {
    AfterTicksIsRotation(s, j);
    RotateLeftAt(s, j % |s|, 0);
    RotateLeftPermutes(s, j % |s|);
    AfterTicksIsRotation(s, |s|);
    assert RotateLeft(s, 0) == s;
  }
}
