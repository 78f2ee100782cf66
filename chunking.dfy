/**
  `chunkArray(items, chunkSize)` of discordBot.js: split a sequence into consecutive
  groups of `chunkSize` elements; the last group holds what is left over.
 */
module Chunking {

  function Min(a: int, b: int): int { if a <= b then a else b }

  /**
    The groups chunkArray returns, defined on values: the first
    `Min(k, |s|)` elements, then the groups of the rest.
   */
  function Chunks<T>(s: seq<T>, k: nat): seq<seq<T>>
    requires k > 0 || |s| == 0
    decreases |s|
  {
    if |s| == 0 then []
    else
      var n := Min(k, |s|);
      [s[..n]] + Chunks(s[n..], k)
  }

  /** The concatenation of a sequence of groups. */
  function Flatten<T>(groups: seq<seq<T>>): seq<T>
  {
    if groups == [] then [] else groups[0] + Flatten(groups[1..])
  }

  /** What is left of `s` once the first `i` elements are taken; `slice` is empty past the end. */
  function Drop<T>(s: seq<T>, i: nat): seq<T>
  {
    if i < |s| then s[i..] else []
  }

  /**
    The loop of chunkArray: `index` advances by `chunkSize` and each step pushes
    `array.slice(index, index + chunkSize)`, whose end is clamped to the length.
    An empty array gives no groups for any size, since the loop test fails at once;
    a non-empty array with `chunkSize <= 0` loops for ever, hence the precondition.
   */
  method ChunkArray<T>(items: seq<T>, chunkSize: nat) returns (chunks: seq<seq<T>>)
    requires chunkSize > 0 || |items| == 0
    ensures chunks == Chunks(items, chunkSize)
  {
    chunks := [];
    var index := 0;
    while index < |items|
      invariant chunks + Chunks(Drop(items, index), chunkSize) == Chunks(items, chunkSize)
      decreases |items| - index
    {
      var end := Min(index + chunkSize, |items|);
      ChunksStep(items, index, chunkSize);
      chunks := chunks + [items[index..end]];
      index := index + chunkSize;
    }
  }

  /** One step of the loop: the groups of what is left start with the next slice. */
  lemma ChunksStep<T>(s: seq<T>, i: nat, k: nat)
    requires k > 0 && i < |s|
    ensures Chunks(Drop(s, i), k) == [s[i..Min(i + k, |s|)]] + Chunks(Drop(s, i + k), k)
  {
    var rest := s[i..];
    var n := Min(k, |rest|);
    assert rest[..n] == s[i..Min(i + k, |s|)];
    assert rest[n..] == Drop(s, i + k);
  }

  /** Concatenating the groups gives back the input, in order. */
  lemma {:induction false} FlattenChunks<T>(s: seq<T>, k: nat)
    requires k > 0
    ensures Flatten(Chunks(s, k)) == s
    decreases |s|
  {
    if |s| > 0 {
      var n := Min(k, |s|);
      FlattenChunks(s[n..], k);
      assert s == s[..n] + s[n..];
    }
  }

  /** Group `i` is exactly the slice from `i * k` to `(i + 1) * k`, clamped to the end. */
  lemma {:induction false} ChunkAt<T>(s: seq<T>, k: nat, i: nat)
    requires k > 0
    requires i < |Chunks(s, k)|
    ensures i * k < |s|
    ensures Chunks(s, k)[i] == s[i * k .. Min((i + 1) * k, |s|)]
    decreases |s|
  {
    var n := Min(k, |s|);
    if i > 0 {
      ChunkAt(s[n..], k, i - 1);
      assert n == k;
      assert (i - 1) * k + k == i * k;
      assert i * k + k == (i + 1) * k;
    }
  }

  /**
    The number of groups is the ceiling of `|s| / k`: all groups but the last are
    full, and no group is empty, so an empty input gives none.
   */
  lemma {:induction false} ChunkCount<T>(s: seq<T>, k: nat)
    requires k > 0
    ensures (|Chunks(s, k)| - 1) * k < |s| <= |Chunks(s, k)| * k
    ensures |Chunks(s, k)| == (|s| + k - 1) / k
    decreases |s|
  {
    var c := |Chunks(s, k)|;
    if |s| > 0 {
      var n := Min(k, |s|);
      ChunkCount(s[n..], k);
      MulSucc(c - 1, k);
      MulSucc(c - 2, k);
    }
    MulSucc(c - 1, k);
    DivBetween(|s| + k - 1, k, c);
  }

  lemma MulSucc(c: int, k: int)
    ensures (c + 1) * k == c * k + k
  {
  }

  lemma MulAtLeast(x: int, k: int)
    requires x >= 1 && k > 0
    ensures x * k >= k
  {
    MulSucc(x - 1, k);
    assert (x - 1) * k >= 0;
  }

  lemma MulMono(a: int, b: int, k: int)
    requires a <= b && k >= 0
    ensures a * k <= b * k
  {
    assert b * k - a * k == (b - a) * k;
  }

  lemma DivBetween(a: int, k: int, q: int)
    requires k > 0 && q * k <= a < q * k + k
    ensures a / k == q
  {
    var d := a / k;
    assert a == d * k + a % k && 0 <= a % k < k;
    if d < q {
      MulAtLeast(q - d, k);
    } else if d > q {
      MulAtLeast(d - q, k);
    }
  }

  /** Every group but the last has exactly `k` elements; the last has between 1 and `k`. */
  lemma ChunkSizes<T>(s: seq<T>, k: nat)
    requires k > 0
    ensures forall i :: 0 <= i < |Chunks(s, k)| - 1 ==> |Chunks(s, k)[i]| == k
    ensures |Chunks(s, k)| > 0 ==> 1 <= |Chunks(s, k)[|Chunks(s, k)| - 1]| <= k
    ensures Chunks(s, k) == [] <==> s == []
  {
    var c := Chunks(s, k);
    ChunkCount(s, k);
    forall i | 0 <= i < |c| - 1
      ensures |c[i]| == k
    {
      ChunkAt(s, k, i);
      MulMono(i + 1, |c| - 1, k);
      MulSucc(i, k);
    }
    if |c| > 0 {
      ChunkAt(s, k, |c| - 1);
      MulSucc(|c| - 1, k);
    }
  }

  /** Seven names in groups of three give groups of sizes 3, 3 and 1. */
  lemma SevenByThree<T>(s: seq<T>)
    requires |s| == 7
    ensures |Chunks(s, 3)| == 3
    ensures |Chunks(s, 3)[0]| == 3 && |Chunks(s, 3)[1]| == 3 && |Chunks(s, 3)[2]| == 1
    ensures Chunks(s, 3) == [s[..3], s[3..6], s[6..]]
  {
    ChunkCount(s, 3);
    ChunkAt(s, 3, 0);
    ChunkAt(s, 3, 1);
    ChunkAt(s, 3, 2);
    var c := Chunks(s, 3);
    assert c[0] == s[..3] && c[1] == s[3..6] && c[2] == s[6..];
  }
}
