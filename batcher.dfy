/**
 * The batcher `split_comments` of analyzer.py: the comment list cut into
 * consecutive slices `comments[i:i + chunk_size]` for `i` in
 * `range(0, len(comments), chunk_size)`.
 */
module Batcher {

  function Min(a: int, b: int): int { if a <= b then a else b }

  /** Python's slice `s[a:b]` for non-negative bounds: both ends clamped to `len(s)`. */
  function Slice<T>(s: seq<T>, a: nat, b: nat): seq<T> {
    var lo := Min(a, |s|);
    s[lo .. if b < lo then lo else Min(b, |s|)]
  }

  /** The slices that start at `i`, `i + k`, `i + 2k`, ... below `|s|`. */
  function ChunksFrom<T>(s: seq<T>, k: nat, i: nat): seq<seq<T>>
    requires k > 0
    decreases |s| - i
  {
    if i >= |s| then [] else [Slice(s, i, i + k)] + ChunksFrom(s, k, i + k)
  }

  /** `split_comments(comments, chunk_size)`. */
  function SplitComments<T>(s: seq<T>, k: nat): seq<seq<T>>
    requires k > 0
  {
    ChunksFrom(s, k, 0)
  }

  /** Concatenation of a sequence of chunks, in order. */
  function Flatten<T>(chunks: seq<seq<T>>): seq<T> {
    if chunks == [] then [] else chunks[0] + Flatten(chunks[1..])
  }

  lemma {:induction false} ChunksFromFlatten<T>(s: seq<T>, k: nat, i: nat)
    requires k > 0 && i <= |s|
    ensures Flatten(ChunksFrom(s, k, i)) == s[i..]
    decreases |s| - i
  {
    if i < |s| {
      var j := Min(i + k, |s|);
      var rest := ChunksFrom(s, k, i + k);
      if i + k <= |s| {
        ChunksFromFlatten(s, k, i + k);
      } else {
        assert rest == [];
      }
      assert ChunksFrom(s, k, i)[1..] == rest;
      calc {
        Flatten(ChunksFrom(s, k, i));
        s[i..j] + Flatten(rest);
        s[i..j] + s[j..];
        s[i..];
      }
    }
  }

  /** Concatenating the chunks gives back the input: nothing dropped, duplicated or reordered. */
  lemma SplitCommentsFlatten<T>(s: seq<T>, k: nat)
    requires k > 0
    ensures Flatten(SplitComments(s, k)) == s
  {
    ChunksFromFlatten(s, k, 0);
  }

  lemma {:induction false} ChunksFromCount<T>(s: seq<T>, k: nat, i: nat)
    requires k > 0 && i <= |s|
    ensures |ChunksFrom(s, k, i)| == (|s| - i + k - 1) / k
    decreases |s| - i
  {
    if i < |s| {
      if i + k <= |s| {
        ChunksFromCount(s, k, i + k);
        DivStep(|s| - (i + k) + k - 1, k);
      } else {
        DivOne(|s| - i + k - 1, k);
      }
    } else {
      DivZero(k - 1, k);
    }
  }

  lemma {:induction false} ChunksFromAt<T>(s: seq<T>, k: nat, i: nat, j: nat)
    requires k > 0 && j < |ChunksFrom(s, k, i)|
    ensures i + j * k < |s|
    ensures ChunksFrom(s, k, i)[j] == Slice(s, i + j * k, i + j * k + k)
    decreases j
  {
    if j > 0 {
      ChunksFromAt(s, k, i + k, j - 1);
      MulStep(j, k);
    }
  }

  /**
   * The shape of the batches: there are ceil(N/K) of them and batch `j` is the
   * slice `s[j*K : j*K + K]`, as the list comprehension builds it.
   */
  lemma SplitCommentsShape<T>(s: seq<T>, k: nat)
    requires k > 0
    ensures |SplitComments(s, k)| == (|s| + k - 1) / k
    ensures forall j :: 0 <= j < |SplitComments(s, k)| ==>
      SplitComments(s, k)[j] == Slice(s, j * k, j * k + k)
  {
    ChunksFromCount(s, k, 0);
    var c := SplitComments(s, k);
    forall j | 0 <= j < |c|
      ensures c[j] == Slice(s, j * k, j * k + k)
    {
      ChunksFromAt(s, k, 0, j);
      assert 0 + j * k == j * k;
    }
  }

  /**
   * Every chunk but the last holds exactly `k` comments and the last holds
   * between 1 and `k`; an empty input gives no chunks.
   */
  lemma {:induction false} SplitCommentsLengths<T>(s: seq<T>, k: nat)
    requires k > 0
    ensures var c := SplitComments(s, k);
      (|s| == 0 <==> c == []) &&
      (forall j :: 0 <= j < |c| - 1 ==> |c[j]| == k) &&
      (c != [] ==> 1 <= |c[|c| - 1]| <= k)
  {
    var c := SplitComments(s, k);
    SplitCommentsShape(s, k);
    forall j | 0 <= j < |c| - 1
      ensures |c[j]| == k
    {
      FullChunk(|s|, k, j);
    }
    if c != [] {
      var m := |c| - 1;
      assert m * k < |s| by {
        DivLower(|s| + k - 1, k, m);
      }
    }
  }

  /** A chunk before the last one ends inside the input. */
  lemma FullChunk(n: nat, k: nat, j: nat)
    requires k > 0 && j + 1 < (n + k - 1) / k
    ensures j * k + k <= n
  {
    DivBound(n + k - 1, k, j + 2);
    assert (j + 2) * k == (j + 1) * k + k;
    assert (j + 1) * k == j * k + k;
  }

  // Facts about Euclidean division and multiplication used by the lemmas above.

  lemma MulStep(j: int, k: int)
    ensures (j - 1) * k + k == j * k
  {
  }

  lemma DivStep(x: int, k: int)
    requires k > 0 && x >= 0
    ensures (x + k) / k == x / k + 1
  {
    DivUnique(x + k, k, x / k + 1, x % k);
  }

  /** Euclidean division is determined by quotient and remainder. */
  lemma DivUnique(x: int, k: int, q: int, r: int)
    requires k > 0 && 0 <= r < k && x == q * k + r
    ensures x / k == q
  {
    var q', r' := x / k, x % k;
    assert (q - q') * k == r' - r;
    if q > q' {
      MulAtLeast(q - q', k);
    } else if q < q' {
      MulAtLeast(q' - q, k);
    }
  }

  lemma MulAtLeast(a: int, k: int)
    requires a >= 1 && k > 0
    ensures a * k >= k
  {
  }

  lemma DivOne(x: int, k: int)
    requires k <= x < 2 * k
    ensures x / k == 1
  {
  }

  lemma DivZero(x: int, k: int)
    requires 0 <= x < k
    ensures x / k == 0
  {
  }

  lemma DivBound(x: int, k: int, q: nat)
    requires k > 0 && x >= 0 && q <= x / k
    ensures q * k <= x
  {
    assert (x / k) * k <= x;
    assert q * k <= (x / k) * k;
  }

  lemma DivLower(x: int, k: int, m: nat)
    requires k > 0 && x >= 0 && m < x / k
    ensures m * k <= x - k
  {
    DivBound(x, k, m + 1);
  }
}
