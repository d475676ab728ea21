/**
 * The partitioner: `Chunk` splits a slice into contiguous pieces of size
 * ceil(n / chunkCount), `Join` concatenates pieces back into one slice.
 * Slices are modelled as value sequences; Go's sharing of one backing array
 * between the pieces is not modelled.
 */
module SliceUtils {

  /** Integer ceiling of a / b, the exact form of Go's `mathutils.IntDivCeil`. */
  function CeilDiv(a: nat, b: nat): nat
    requires b >= 1
  {
    (a + b - 1) / b
  }

  /** q = ceil(a / b) is the least q with q * b >= a. */
  lemma CeilDivBounds(a: nat, b: nat)
    requires b >= 1
    ensures CeilDiv(a, b) * b >= a
    ensures a > 0 ==> CeilDiv(a, b) * b - b < a
    ensures a > 0 ==> CeilDiv(a, b) >= 1
    ensures a == 0 ==> CeilDiv(a, b) == 0
  {
    var q, r := (a + b - 1) / b, (a + b - 1) % b;
    assert a + b - 1 == q * b + r && 0 <= r < b;
  }

  /** x < y and c > 0 give x * c < y * c. */
  lemma MulStrict(x: int, y: int, c: int)
    requires x < y && c > 0
    ensures x * c < y * c
  {
    assert y * c - x * c == (y - x) * c;
  }

  /** The size of every chunk but the last. */
  function ChunkSize(n: nat, k: nat): nat
    requires k >= 1
  {
    CeilDiv(n, k)
  }

  /** How many chunks the loop of `Chunk` produces for a slice of length n. */
  function ChunkCount(n: nat, k: nat): nat
    requires k >= 1
  {
    if ChunkSize(n, k) == 0 then 0 else CeilDiv(n, ChunkSize(n, k))
  }

  /** Start index of chunk i. */
  function ChunkStart(n: nat, k: nat, i: nat): (r: nat)
    requires k >= 1
    ensures r <= ChunkEnd(n, k, i) <= n
  {
    if i * ChunkSize(n, k) < n then i * ChunkSize(n, k) else n
  }

  /** End index (exclusive) of chunk i: the Go loop's `end`, clipped to n. */
  function ChunkEnd(n: nat, k: nat, i: nat): nat
    requires k >= 1
  {
    if i * ChunkSize(n, k) + ChunkSize(n, k) < n then i * ChunkSize(n, k) + ChunkSize(n, k) else n
  }

  /** The chunks of `s`: chunk i is `s[ChunkStart(i) .. ChunkEnd(i)]`. */
  function Chunked<T>(s: seq<T>, k: nat): seq<seq<T>>
    requires k >= 1
  {
    seq(ChunkCount(|s|, k), i requires 0 <= i < ChunkCount(|s|, k) =>
      s[ChunkStart(|s|, k, i) .. ChunkEnd(|s|, k, i)])
  }

  /** In-order concatenation of pieces. */
  function Flatten<T>(ss: seq<seq<T>>): seq<T>
  {
    if ss == [] then [] else Flatten(ss[..|ss| - 1]) + ss[|ss| - 1]
  }

  /** Sum of the lengths of the pieces. */
  function TotalLength<T>(ss: seq<seq<T>>): nat
  {
    if ss == [] then 0 else TotalLength(ss[..|ss| - 1]) + |ss[|ss| - 1]|
  }

  lemma {:induction false} FlattenLength<T>(ss: seq<seq<T>>)
    ensures |Flatten(ss)| == TotalLength(ss)
  {
    if ss != [] {
      FlattenLength(ss[..|ss| - 1]);
    }
  }

  lemma {:induction false} FlattenConcat<T>(a: seq<seq<T>>, b: seq<seq<T>>)
    ensures Flatten(a + b) == Flatten(a) + Flatten(b)
  {
    if b == [] {
      assert a + b == a;
    } else {
      assert (a + b)[..|a + b| - 1] == a + b[..|b| - 1];
      FlattenConcat(a, b[..|b| - 1]);
    }
  }

  /** Pieces that are all empty flatten to nothing. */
  lemma {:induction false} FlattenEmpties<T>(ss: seq<seq<T>>)
    requires forall i :: 0 <= i < |ss| ==> ss[i] == []
    ensures Flatten(ss) == []
  {
    if ss != [] {
      FlattenEmpties(ss[..|ss| - 1]);
    }
  }

  /** Every chunk index below ChunkCount starts inside the slice, and the chunks tile it. */
  lemma ChunkArithmetic(n: nat, k: nat, i: nat)
    requires k >= 1 && i < ChunkCount(n, k)
    ensures ChunkSize(n, k) >= 1
    ensures i * ChunkSize(n, k) < n
    ensures ChunkStart(n, k, i) == i * ChunkSize(n, k)
    ensures ChunkStart(n, k, i) < ChunkEnd(n, k, i) <= n
    ensures ChunkEnd(n, k, i) - ChunkStart(n, k, i) <= ChunkSize(n, k)
    ensures i + 1 < ChunkCount(n, k) ==> ChunkEnd(n, k, i) - ChunkStart(n, k, i) == ChunkSize(n, k)
    ensures i + 1 < ChunkCount(n, k) ==> ChunkStart(n, k, i + 1) == ChunkEnd(n, k, i)
    ensures i + 1 == ChunkCount(n, k) ==> ChunkEnd(n, k, i) == n
  {
    var size, c := ChunkSize(n, k), ChunkCount(n, k);
    CeilDivBounds(n, k);
    assert n > 0 && size >= 1;
    CeilDivBounds(n, size);
    if i < c - 1 {
      MulStrict(i, c - 1, size);
    }
    assert i * size <= c * size - size;
    assert (i + 1) * size == i * size + size;
    if i + 1 < c {
      if i + 1 < c - 1 {
        MulStrict(i + 1, c - 1, size);
      }
      assert (c - 1) * size == c * size - size;
      assert i * size + size < n;
    } else {
      assert i * size + size >= n;
    }
  }

  /** The piece count of `Chunk` never exceeds the requested count k. */
  lemma ChunkCountAtMost(n: nat, k: nat)
    requires k >= 1
    ensures ChunkCount(n, k) <= k
    ensures n == 0 <==> ChunkCount(n, k) == 0
  {
    var size := ChunkSize(n, k);
    CeilDivBounds(n, k);
    if n > 0 {
      var c := CeilDiv(n, size);
      CeilDivBounds(n, size);
      if c > k {
        MulStrict(k, c - 1, size);
        assert false;
      }
    }
  }

  /** Sizing rules of the chunks, all in one place. */
  lemma ChunkedShape<T>(s: seq<T>, k: nat)
    requires k >= 1
    ensures |Chunked(s, k)| <= k
    ensures s == [] <==> Chunked(s, k) == []
    ensures forall i :: 0 <= i < |Chunked(s, k)| ==> 1 <= |Chunked(s, k)[i]| <= ChunkSize(|s|, k)
    ensures forall i :: 0 <= i < |Chunked(s, k)| - 1 ==> |Chunked(s, k)[i]| == ChunkSize(|s|, k)
  {
    ChunkCountAtMost(|s|, k);
    forall i | 0 <= i < |Chunked(s, k)|
      ensures 1 <= |Chunked(s, k)[i]| <= ChunkSize(|s|, k)
      ensures i < |Chunked(s, k)| - 1 ==> |Chunked(s, k)[i]| == ChunkSize(|s|, k)
    {
      ChunkArithmetic(|s|, k, i);
    }
  }

  /** The first j chunks cover exactly the prefix of `s` up to where chunk j starts. */
  lemma {:induction false} ChunkedPrefix<T>(s: seq<T>, k: nat, j: nat)
    requires k >= 1 && j <= ChunkCount(|s|, k)
    ensures Flatten(Chunked(s, k)[..j]) == s[..if j == 0 then 0 else ChunkEnd(|s|, k, j - 1)]
  {
    var c := Chunked(s, k);
    if j == 0 {
      assert c[..0] == [];
    } else {
      assert c[..j][..j - 1] == c[..j - 1];
      ChunkedPrefix(s, k, j - 1);
      ChunkAdjacent(|s|, k, j - 1);
      var lo, hi := ChunkStart(|s|, k, j - 1), ChunkEnd(|s|, k, j - 1);
      assert Flatten(c[..j]) == s[..lo] + s[lo..hi];
      assert s[..lo] + s[lo..hi] == s[..hi];
    }
  }

  /** Chunk 0 starts at 0 and every later chunk starts where the one before it ends. */
  lemma ChunkAdjacent(n: nat, k: nat, i: nat)
    requires k >= 1 && i < ChunkCount(n, k)
    ensures i == 0 ==> ChunkStart(n, k, i) == 0
    ensures i > 0 ==> ChunkStart(n, k, i) == ChunkEnd(n, k, i - 1)
  {
    ChunkArithmetic(n, k, i);
    if i > 0 {
      ChunkArithmetic(n, k, i - 1);
    }
  }

  /** Concatenating the chunks in order gives back the input exactly. */
  lemma ChunkedFlatten<T>(s: seq<T>, k: nat)
    requires k >= 1
    ensures Flatten(Chunked(s, k)) == s
  {
    var c := ChunkCount(|s|, k);
    ChunkedPrefix(s, k, c);
    assert Chunked(s, k)[..c] == Chunked(s, k);
    ChunkCountAtMost(|s|, k);
    if c > 0 {
      ChunkArithmetic(|s|, k, c - 1);
    }
  }

  /** Two slices of equal length are cut at the same boundaries. */
  lemma ChunkedAligned<T, U>(s: seq<T>, t: seq<U>, k: nat)
    requires k >= 1 && |s| == |t|
    ensures |Chunked(s, k)| == |Chunked(t, k)|
    ensures forall i :: 0 <= i < |Chunked(s, k)| ==> |Chunked(s, k)[i]| == |Chunked(t, k)[i]|
  {
  }

  /** An empty slice has no chunks. */
  lemma ChunkedEmpty<T>(s: seq<T>, k: nat)
    requires k >= 1 && s == []
    ensures Chunked(s, k) == []
  {
  }

  /**
   * Chunk, as the Go loop: step i by chunkSize, cut `s[i:end]` with
   * end clipped to len(s), and append it. With chunkCount 0 only the empty
   * slice has a defined result: the loop does not run, whatever chunk size
   * the division by zero produced, and no chunks are made.
   */
  method Chunk<T>(s: seq<T>, chunkCount: nat) returns (chunks: seq<seq<T>>)
    requires chunkCount >= 1 || s == []
    ensures chunkCount >= 1 ==> chunks == Chunked(s, chunkCount)
    ensures s == [] ==> chunks == []
  {
    chunks := [];
    if chunkCount == 0 {
      return;
    }
    var chunkSize := CeilDiv(|s|, chunkCount);
    var i := 0;
    while i < |s|
      invariant 0 <= |chunks| <= ChunkCount(|s|, chunkCount)
      invariant i == |chunks| * chunkSize
      invariant i < |s| <==> |chunks| < ChunkCount(|s|, chunkCount)
      invariant chunks == Chunked(s, chunkCount)[..|chunks|]
      decreases |s| - i
    {
      ChunkArithmetic(|s|, chunkCount, |chunks|);
      var end := i + chunkSize;
      if end > |s| {
        end := |s|;
      }
      assert s[i..end] == Chunked(s, chunkCount)[|chunks|];
      chunks := chunks + [s[i..end]];
      i := i + chunkSize;
      assert (|chunks| - 1) * chunkSize + chunkSize == |chunks| * chunkSize;
      if |chunks| < ChunkCount(|s|, chunkCount) {
        ChunkArithmetic(|s|, chunkCount, |chunks|);
      } else {
        ChunkArithmetic(|s|, chunkCount, |chunks| - 1);
      }
    }
    assert |chunks| == ChunkCount(|s|, chunkCount);
  }

  /**
   * Join, as the Go code's two loops: the capacity `l` (the sum of the piece
   * lengths, or the first hint when one is given and positive, or 0) and the
   * appended pieces. The capacity has no effect on the contents.
   */
  method Join<T>(s: seq<seq<T>>, length: seq<int>) returns (joined: seq<T>, capacity: nat)
    ensures joined == Flatten(s)
    ensures |joined| == TotalLength(s)
    ensures capacity == if |length| == 0 then TotalLength(s) else if length[0] > 0 then length[0] else 0
  {
    var l: nat := 0;
    if |length| == 0 {
      for j := 0 to |s|
        invariant l == TotalLength(s[..j])
      {
        assert s[..j + 1][..j] == s[..j];
        l := l + |s[j]|;
      }
      assert s[..|s|] == s;
    } else if length[0] > 0 {
      l := length[0];
    }
    capacity := l;
    joined := [];
    for j := 0 to |s|
      invariant joined == Flatten(s[..j])
    {
      assert s[..j + 1][..j] == s[..j];
      joined := joined + s[j];
    }
    assert s[..|s|] == s;
    FlattenLength(s);
  }

  /** `TestChunk`'s case: eight elements in three chunks. */
  lemma ChunkEightIntoThree()
    ensures Chunked([1, 2, 3, 4, 5, 6, 7, 8], 3) == [[1, 2, 3], [4, 5, 6], [7, 8]]
  {
    var s := [1, 2, 3, 4, 5, 6, 7, 8];
    assert ChunkSize(8, 3) == 3;
    assert ChunkCount(8, 3) == 3;
    assert Chunked(s, 3)[0] == s[0..3] == [1, 2, 3];
    assert Chunked(s, 3)[1] == s[3..6] == [4, 5, 6];
    assert Chunked(s, 3)[2] == s[6..8] == [7, 8];
  }

  /** Fewer chunks than requested: four elements asked for in three chunks come out as two. */
  lemma ChunkFourIntoThree()
    ensures Chunked([1, 2, 3, 4], 3) == [[1, 2], [3, 4]]
  {
    var s := [1, 2, 3, 4];
    assert ChunkSize(4, 3) == 2;
    assert ChunkCount(4, 3) == 2;
    assert Chunked(s, 3)[0] == s[0..2] == [1, 2];
    assert Chunked(s, 3)[1] == s[2..4] == [3, 4];
  }
}
