/** Splitting a list of ids into delete batches. */
module Chunks {

  /** The batches of at most n ids, in order. */
  function Split(s: seq<int>, n: int): seq<seq<int>>
    decreases |s|
  {
    if n <= 0 || s == [] then []
    else if |s| <= n then [s]
    else [s[..n]] + Split(s[n..], n)
  }

  function Flatten(chunks: seq<seq<int>>): seq<int> {
    if chunks == [] then [] else chunks[0] + Flatten(chunks[1..])
  }

  lemma {:induction false} FlattenAppend(a: seq<seq<int>>, b: seq<seq<int>>)
    ensures Flatten(a + b) == Flatten(a) + Flatten(b)
  {
    if a == [] {
      assert a + b == b;
    } else {
      assert (a + b)[1..] == a[1..] + b;
      FlattenAppend(a[1..], b);
    }
  }

  /** Batching loses, repeats and reorders nothing. */
  lemma {:induction false} SplitFlattens(s: seq<int>, n: int)
    requires n > 0
    ensures Flatten(Split(s, n)) == s
    decreases |s|
  {
    if s != [] && |s| <= n {
      assert Flatten([s]) == s + Flatten([]);
    } else if s != [] {
      SplitFlattens(s[n..], n);
      assert Split(s, n)[1..] == Split(s[n..], n);
    }
  }

  /** Every batch but the last is full, the last is never empty, and the count is the rounded-up quotient. */
  lemma {:induction false} SplitSizes(s: seq<int>, n: int)
    requires n > 0
    ensures var c := Split(s, n);
            && |c| == (|s| + n - 1) / n
            && (forall i :: 0 <= i < |c| - 1 ==> |c[i]| == n)
            && (c != [] ==> 1 <= |c[|c| - 1]| <= n)
    decreases |s|
  {
    SplitCount(s, n);
    if |s| > n {
      SplitSizes(s[n..], n);
    }
  }

  lemma {:induction false} SplitCount(s: seq<int>, n: int)
    requires n > 0
    ensures |Split(s, n)| == (|s| + n - 1) / n
    decreases |s|
  {
    if |s| <= n {
      QuotientOf(|s| + n - 1, n, if s == [] then 0 else 1);
    } else {
      SplitCount(s[n..], n);
      QuotientStep(|s| - 1, n);
    }
  }

  lemma {:induction false} ProductGrows(n: nat, a: nat, b: nat)
    requires a <= b
    ensures n * a <= n * b
    decreases b
  {
    if a < b {
      ProductGrows(n, a, b - 1);
      assert n * b == n * (b - 1) + n;
    }
  }

  lemma QuotientBounds(x: nat, n: nat)
    requires n > 0
    ensures 0 <= x / n && n * (x / n) <= x < n * (x / n) + n
  {
    assert x == n * (x / n) + x % n;
  }

  /** Two multiples of n that both stand less than n below a number are the same multiple. */
  lemma SameMultiple(x: nat, n: nat, p: nat, q: nat)
    requires n > 0 && n * p <= x < n * p + n && n * q <= x < n * q + n
    ensures p == q
  {
    assert n * (p + 1) == n * p + n && n * (q + 1) == n * q + n;
    if p < q {
      ProductGrows(n, p + 1, q);
    } else if q < p {
      ProductGrows(n, q + 1, p);
    }
  }

  lemma QuotientOf(x: nat, n: nat, q: nat)
    requires n > 0 && n * q <= x < n * q + n
    ensures x / n == q
  {
    QuotientBounds(x, n);
    SameMultiple(x, n, x / n, q);
  }

  lemma QuotientStep(x: nat, n: nat)
    requires n > 0
    ensures (x + n) / n == x / n + 1
  {
    QuotientBounds(x, n);
    assert n * (x / n + 1) == n * (x / n) + n;
    QuotientOf(x + n, n, x / n + 1);
  }

  /** The loop that cuts the batches off one by one. */
  method ChunkInts(s: seq<int>, n: int) returns (out: seq<seq<int>>)
    ensures out == Split(s, n)
  {
    if n <= 0 || |s| == 0 {
      return [];
    }
    out := [];
    var i := 0;
    while i < |s|
      invariant 0 <= i
      invariant out + Split(s[if i < |s| then i else |s|..], n) == Split(s, n)
    {
      var end := i + n;
      if end > |s| {
        end := |s|;
      }
      assert s[i..][..end - i] == s[i..end];
      assert s[i..][end - i..] == s[end..];
      ghost var rest := Split(s[end..], n);
      if |s| - i <= n {
        assert s[i..end] == s[i..];
      }
      assert Split(s[i..], n) == [s[i..end]] + rest;
      assert out + ([s[i..end]] + rest) == (out + [s[i..end]]) + rest;
      out := out + [s[i..end]];
      i := i + n;
    }
    assert s[|s|..] == [];
  }
}
