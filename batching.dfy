/**
 * The batches in which the loaders hand rows to the user interface: the
 * rows are cut, in order, into runs of a fixed size, the last run holding
 * whatever is left over.
 */
module Batching {

  /** `xs` cut into consecutive runs of `n`, the last one possibly shorter. */
  function Chunks<T>(xs: seq<T>, n: nat): seq<seq<T>>
    requires n > 0
    decreases |xs|
  {
    if xs == [] then []
    else if |xs| <= n then [xs]
    else [xs[..n]] + Chunks(xs[n..], n)
  }

  /** The runs put back together. */
  function Flatten<T>(xss: seq<seq<T>>): seq<T> {
    if xss == [] then [] else Flatten(xss[..|xss| - 1]) + xss[|xss| - 1]
  }

  lemma {:induction false} FlattenAppend<T>(a: seq<seq<T>>, b: seq<seq<T>>)
    ensures Flatten(a + b) == Flatten(a) + Flatten(b)
    decreases |b|
  {
    if b == [] {
      assert a + b == a;
    } else {
      var front, last := b[..|b| - 1], b[|b| - 1];
      assert (a + b)[..|a + b| - 1] == a + front;
      assert (a + b)[|a + b| - 1] == last;
      FlattenAppend(a, front);
      calc {
        Flatten(a + b);
        Flatten(a + front) + last;
        Flatten(a) + Flatten(front) + last;
        Flatten(a) + (Flatten(front) + last);
        Flatten(a) + Flatten(b);
      }
    }
  }

  /** Cutting `xs` into runs loses nothing and reorders nothing. */
  lemma {:induction false} ChunksFlatten<T>(xs: seq<T>, n: nat)
    requires n > 0
    ensures Flatten(Chunks(xs, n)) == xs
    decreases |xs|
  {
    if |xs| > n {
      ChunksFlatten(xs[n..], n);
      FlattenAppend([xs[..n]], Chunks(xs[n..], n));
      assert Flatten([xs[..n]]) == xs[..n] by {
        assert [xs[..n]][..0] == [];
      }
      assert xs[..n] + xs[n..] == xs;
    } else if xs != [] {
      assert [xs][..0] == [];
    }
  }

  /** Every run is non-empty and holds at most `n` rows; all but the last hold exactly `n`. */
  lemma {:induction false} ChunkSizes<T>(xs: seq<T>, n: nat)
    requires n > 0
    ensures forall i :: 0 <= i < |Chunks(xs, n)| ==> 0 < |Chunks(xs, n)[i]| <= n
    ensures forall i :: 0 <= i < |Chunks(xs, n)| - 1 ==> |Chunks(xs, n)[i]| == n
    decreases |xs|
  {
    if |xs| > n {
      var rest := Chunks(xs[n..], n);
      ChunkSizes(xs[n..], n);
      assert Chunks(xs, n) == [xs[..n]] + rest;
      forall i | 0 < i < |Chunks(xs, n)|
        ensures Chunks(xs, n)[i] == rest[i - 1]
      {
      }
    }
  }

  /** Full runs of `n` followed by more rows are cut where the runs end. */
  lemma {:induction false} ChunksAfterFullRuns<T>(runs: seq<seq<T>>, b: seq<T>, n: nat)
    requires n > 0 && forall i :: 0 <= i < |runs| ==> |runs[i]| == n
    ensures Chunks(Flatten(runs) + b, n) == runs + Chunks(b, n)
    decreases |runs|
  {
    if runs == [] {
      assert Flatten(runs) + b == b;
    } else {
      var r, rest := runs[0], runs[1..];
      assert runs == [r] + rest;
      FlattenAppend([r], rest);
      assert Flatten([r]) == r by {
        assert [r][..0] == [];
      }
      var xs := Flatten(runs) + b;
      assert xs == r + (Flatten(rest) + b);
      ChunksAfterFullRuns(rest, b, n);
      if Flatten(rest) + b == [] {
        assert xs == r;
      } else {
        assert xs[..n] == r && xs[n..] == Flatten(rest) + b;
      }
    }
  }

  /** Handing over one more run of at most `n` rows after full runs. */
  lemma ChunksSnoc<T>(runs: seq<seq<T>>, batch: seq<T>, n: nat)
    requires n > 0 && forall i :: 0 <= i < |runs| ==> |runs[i]| == n
    requires 0 < |batch| <= n
    ensures Chunks(Flatten(runs) + batch, n) == runs + [batch]
  {
    ChunksAfterFullRuns(runs, batch, n);
  }

  /** Full runs of `n` are their own cutting. */
  lemma FullRunsAreChunks<T>(runs: seq<seq<T>>, n: nat)
    requires n > 0 && forall i :: 0 <= i < |runs| ==> |runs[i]| == n
    ensures Chunks(Flatten(runs), n) == runs
  {
    ChunksAfterFullRuns(runs, [], n);
    assert Flatten(runs) + [] == Flatten(runs);
    assert runs + [] == runs;
  }

  /** Full runs of `n` followed by fewer than `n` rows: the full runs are what a cut at a multiple of `n` keeps. */
  lemma FullPart<T>(a: seq<T>, b: seq<T>, k: nat, n: nat)
    requires n > 0 && |a| == k * n && |b| < n
    ensures |a| % n == 0 && |a + b| % n == |b|
    ensures (a + b)[..|a + b| - |a + b| % n] == a
  {
    RemainderAfterRuns(k, 0, n);
    RemainderAfterRuns(k, |b|, n);
  }

  /** `k` whole runs of `n` and then `y < n` more leave remainder `y`. */
  lemma {:induction false} RemainderAfterRuns(k: nat, y: nat, n: nat)
    requires n > 0 && y < n
    ensures (k * n + y) % n == y
  {
    var x := k * n + y;
    var q, r := x / n, x % n;
    assert x == q * n + r;
    assert (q - k) * n == y - r;
    if q < k {
      AtLeastOneRun(k - q, n);
    } else if q > k {
      AtLeastOneRun(q - k, n);
    }
  }

  lemma AtLeastOneRun(d: nat, n: nat)
    requires d >= 1
    ensures d * n >= n
  {
  }
}
