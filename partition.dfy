/** Partition arithmetic of pwordcount: how one file's token list is cut into
    n slices (file_divider), and how the list of input files is cut into
    contiguous blocks, one per worker (the block loop of diveconquer). */
module Partition {

  /** Concatenation of a sequence of sequences, in order. */
  function Flatten<T>(parts: seq<seq<T>>): (r: seq<T>)
    decreases |parts|
  {
    if parts == [] then [] else Flatten(parts[..|parts| - 1]) + parts[|parts| - 1]
  }

  lemma {:induction false} FlattenConcat<T>(a: seq<seq<T>>, b: seq<seq<T>>)
    ensures Flatten(a + b) == Flatten(a) + Flatten(b)
    decreases |b|
  {
    if b == [] {
      assert a + b == a;
    } else {
      var b' := b[..|b| - 1];
      assert (a + b)[..|a + b| - 1] == a + b';
      FlattenConcat(a, b');
    }
  }

  lemma FlattenSingle<T>(x: seq<T>)
    ensures Flatten([x]) == x
  {
    assert [x][..0] == [];
  }

  // ---------------------------------------------------------------------
  // Arithmetic on non-negative integers
  // ---------------------------------------------------------------------

  /** Division characterised by its quotient and remainder. */
  lemma DivUnique(a: nat, n: nat, q: nat, r: nat)
    requires n >= 1 && r < n && a == q * n + r
    ensures a / n == q && a % n == r
  {
    var q', r' := a / n, a % n;
    assert a == q' * n + r';
    if q' < q {
      MulStep(q', q, n);
    } else if q' > q {
      MulStep(q, q', n);
    }
  }

  lemma DivMonotone(a: nat, b: nat, n: nat)
    requires n >= 1 && a <= b
    ensures a / n <= b / n
  {
    var qa, qb := a / n, b / n;
    assert a == qa * n + a % n && b == qb * n + b % n;
    if qa > qb {
      MulStep(qb, qa, n);
    }
  }

  lemma MulMonotone(x: nat, y: nat, c: nat)
    requires x <= y
    ensures x * c <= y * c
  {
    assert y * c == x * c + (y - x) * c;
  }

  lemma MulStep(x: nat, y: nat, c: nat)
    requires x < y
    ensures x * c + c <= y * c
  {
    MulMonotone(x + 1, y, c);
    assert (x + 1) * c == x * c + c;
  }

  lemma Distribute(x: nat, y: nat, c: nat)
    ensures (x + y) * c == x * c + y * c
  {
  }

  /** Adding t items to a count a moves its quotient by n by t / n or by
      ceil(t / n). */
  lemma QuotientStep(a: nat, t: nat, n: nat)
    requires n >= 1
    ensures (a + t) / n - a / n == t / n || (a + t) / n - a / n == (t + n - 1) / n
  {
    if a % n + t % n < n {
      QuotientStepNoCarry(a, t, n);
    } else {
      QuotientStepCarry(a, t, n);
    }
  }

  lemma QuotientStepNoCarry(a: nat, t: nat, n: nat)
    requires n >= 1 && a % n + t % n < n
    ensures (a + t) / n == a / n + t / n
  {
    var qa, s := a / n, t / n;
    Distribute(qa, s, n);
    DivUnique(a + t, n, qa + s, a % n + t % n);
  }

  lemma QuotientStepCarry(a: nat, t: nat, n: nat)
    requires n >= 1 && a % n + t % n >= n
    ensures (a + t) / n == a / n + t / n + 1 == a / n + (t + n - 1) / n
  {
    CarrySum(a, t, n);
    CarryRoundUp(t, n);
  }

  lemma CarrySum(a: nat, t: nat, n: nat)
    requires n >= 1 && a % n + t % n >= n
    ensures (a + t) / n == a / n + t / n + 1
  {
    var qa, s := a / n, t / n;
    Distribute(qa + s, 1, n);
    Distribute(qa, s, n);
    DivUnique(a + t, n, qa + s + 1, a % n + t % n - n);
  }

  lemma CarryRoundUp(t: nat, n: nat)
    requires n >= 1 && t % n >= 1
    ensures (t + n - 1) / n == t / n + 1
  {
    var s := t / n;
    Distribute(s, 1, n);
    DivUnique(t + n - 1, n, s + 1, t % n - 1);
  }

  // ---------------------------------------------------------------------
  // Slices of one file's token list
  // ---------------------------------------------------------------------

  /** Bound k of a split of `total` items into n parts: int(k * total / n).
      Slice k (1-based) of n runs from bound k - 1 up to bound k. The same
      bound, applied to the file's line count, names the lines a worker
      reports. */
  function SliceBound(total: nat, n: nat, k: nat): (b: nat)
    requires n >= 1 && k <= n
    ensures b <= total
    ensures k == 0 ==> b == 0
    ensures k == n ==> b == total
  {
    MulMonotone(k, n, total);
    DivMonotone(k * total, n * total, n);
    DivUnique(n * total, n, total, 0);
    k * total / n
  }

  lemma SliceBoundMonotone(total: nat, n: nat, j: nat, k: nat)
    requires n >= 1 && j <= k <= n
    ensures SliceBound(total, n, j) <= SliceBound(total, n, k)
  {
    MulMonotone(j, k, total);
    DivMonotone(j * total, k * total, n);
  }

  /** Slice k (1-based) of n of `words`: words[int((k-1)*T/n) : int(k*T/n)]. */
  function Slice<T>(words: seq<T>, n: nat, k: nat): (r: seq<T>)
    requires 1 <= k <= n
    ensures |r| <= |words|
    ensures multiset(r) <= multiset(words)
    ensures k == 1 ==> r <= words
  {
    SliceBoundMonotone(|words|, n, k - 1, k);
    var lo, hi := SliceBound(|words|, n, k - 1), SliceBound(|words|, n, k);
    assert words == words[..lo] + words[lo..hi] + words[hi..];
    words[lo..hi]
  }

  /** Slice 1 of 1 is the whole list. */
  lemma SliceWhole<T>(words: seq<T>)
    ensures Slice(words, 1, 1) == words
  {
    assert words[0..|words|] == words;
  }

  /** Every slice holds floor(T/n) or ceil(T/n) items. */
  lemma SliceLength<T>(words: seq<T>, n: nat, k: nat)
    requires 1 <= k <= n
    ensures |Slice(words, n, k)| == |words| / n || |Slice(words, n, k)| == (|words| + n - 1) / n
  {
    var t := |words|;
    var a := (k - 1) * t;
    assert k * t == a + t;
    QuotientStep(a, t, n);
    SliceBoundMonotone(t, n, k - 1, k);
    assert |Slice(words, n, k)| == SliceBound(t, n, k) - SliceBound(t, n, k - 1);
    assert SliceBound(t, n, k) == (a + t) / n && SliceBound(t, n, k - 1) == a / n;
  }

  /** The first k slices of n, in order. */
  function Slices<T>(words: seq<T>, n: nat, k: nat): (r: seq<seq<T>>)
    requires 1 <= n && k <= n
    ensures |r| == k
    ensures forall i :: 0 <= i < k ==> r[i] == Slice(words, n, i + 1)
  {
    seq(k, i requires 0 <= i < k => Slice(words, n, i + 1))
  }

  lemma {:induction false} SlicesPrefix<T>(words: seq<T>, n: nat, k: nat)
    requires 1 <= n && k <= n
    ensures Flatten(Slices(words, n, k)) == words[..SliceBound(|words|, n, k)]
  {
    if k == 0 {
      assert Slices(words, n, 0) == [];
    } else {
      SlicesPrefix(words, n, k - 1);
      assert Slices(words, n, k)[..k - 1] == Slices(words, n, k - 1);
      SliceBoundMonotone(|words|, n, k - 1, k);
      var lo, hi := SliceBound(|words|, n, k - 1), SliceBound(|words|, n, k);
      assert words[..hi] == words[..lo] + words[lo..hi];
    }
  }

  /** Slices 1..n tile the token list: in order, with no gap and no
      overlap, they give back the whole list. */
  lemma SlicesTile<T>(words: seq<T>, n: nat)
    requires n >= 1
    ensures Flatten(Slices(words, n, n)) == words
  {
    SlicesPrefix(words, n, n);
    assert words[..|words|] == words;
  }

  /** Consecutive slices meet: slice k ends where slice k + 1 starts, and
      every bound lies within the list. */
  lemma SlicesAdjacent<T>(words: seq<T>, n: nat, k: nat)
    requires 1 <= k < n
    ensures var lo := SliceBound(|words|, n, k - 1);
            var mid := SliceBound(|words|, n, k);
            var hi := SliceBound(|words|, n, k + 1);
            0 <= lo <= mid <= hi <= |words| &&
            Slice(words, n, k) == words[lo..mid] && Slice(words, n, k + 1) == words[mid..hi]
  {
    SliceBoundMonotone(|words|, n, k - 1, k);
    SliceBoundMonotone(|words|, n, k, k + 1);
  }

  // ---------------------------------------------------------------------
  // Blocks of the input file list
  // ---------------------------------------------------------------------

  /** Number of worker blocks for `numFiles` files at parallelism `parallel`:
      min(parallel, numFiles); zero or less means no block at all. */
  function BlockCount(numFiles: nat, parallel: int): (p: int)
    ensures p <= numFiles && p <= parallel
    ensures p == parallel || p == numFiles
  {
    if parallel < numFiles then parallel else numFiles
  }

  /** First file index of block i of p: i * (F // p). */
  function BlockStart(numFiles: nat, p: nat, i: nat): (b: nat)
    requires 1 <= p
    ensures i == 0 ==> b == 0
    ensures i <= p ==> b <= numFiles
  {
    var q := numFiles / p;
    assert numFiles == q * p + numFiles % p;
    assert i <= p ==> i * q <= p * q by {
      if i <= p {
        MulMonotone(i, p, q);
      }
    }
    i * q
  }

  /** One past the last file index of block i of p: (i + 1) * (F // p),
      except that the last block runs to the end of the list. */
  function BlockEnd(numFiles: nat, p: nat, i: nat): (b: nat)
    requires 1 <= p
    ensures b <= numFiles
    ensures i >= p - 1 ==> b == numFiles
  {
    var q := numFiles / p;
    assert numFiles == q * p + numFiles % p;
    if i < p - 1 then
      MulMonotone(i + 1, p, q);
      (i + 1) * q
    else numFiles
  }

  /** The blocks tile the file list: block 0 starts at 0, the last block
      ends at F, each block starts where the previous one ends, and no
      block is empty. */
  lemma BlocksTile(numFiles: nat, p: nat)
    requires 1 <= p <= numFiles
    ensures BlockStart(numFiles, p, 0) == 0
    ensures BlockEnd(numFiles, p, p - 1) == numFiles
    ensures forall i :: 0 <= i < p - 1 ==> BlockEnd(numFiles, p, i) == BlockStart(numFiles, p, i + 1)
    ensures forall i :: 0 <= i < p ==> BlockStart(numFiles, p, i) < BlockEnd(numFiles, p, i) <= numFiles
  {
    forall i | 0 <= i < p
      ensures BlockStart(numFiles, p, i) < BlockEnd(numFiles, p, i) <= numFiles
    {
      BlockBounds(numFiles, p, i);
    }
  }

  lemma BlockBounds(numFiles: nat, p: nat, i: nat)
    requires 1 <= p <= numFiles && i < p
    ensures BlockStart(numFiles, p, i) < BlockEnd(numFiles, p, i) <= numFiles
  {
    var q := numFiles / p;
    assert numFiles == q * p + numFiles % p;
    DivMonotone(p, numFiles, p);
    DivUnique(p, p, 1, 0);
    assert q >= 1;
    MulMonotone(i + 1, p, q);
    assert (i + 1) * q == i * q + q;
    if i == p - 1 {
      MulMonotone(i, p, q);
    }
  }

  /** Every block but the last holds exactly F // p files; the last holds
      F // p + F % p, absorbing the remainder. */
  lemma BlockSizes(numFiles: nat, p: nat, i: nat)
    requires 1 <= p <= numFiles && i < p
    ensures i < p - 1 ==> BlockEnd(numFiles, p, i) - BlockStart(numFiles, p, i) == numFiles / p
    ensures i == p - 1 ==> BlockEnd(numFiles, p, i) - BlockStart(numFiles, p, i) == numFiles / p + numFiles % p
  {
    var q := numFiles / p;
    assert (i + 1) * q == i * q + q;
    assert numFiles == q * p + numFiles % p;
    if i == p - 1 {
      assert p * q == (p - 1) * q + q;
    }
  }

  /** The cut points of the blocks: block i runs from cut i to cut i + 1. */
  function BlockCuts(numFiles: nat, p: nat): (cuts: seq<nat>)
    requires 1 <= p
    ensures |cuts| == p + 1
  {
    seq(p + 1, i requires 0 <= i <= p => if i < p then BlockStart(numFiles, p, i) else numFiles)
  }

  lemma BlockCutsSpec(numFiles: nat, p: nat)
    requires 1 <= p <= numFiles
    ensures var cuts := BlockCuts(numFiles, p);
      cuts[0] == 0 && cuts[p] == numFiles &&
      (forall i, j :: 0 <= i <= j <= p ==> cuts[i] <= cuts[j]) &&
      (forall i :: 0 <= i < p ==>
        cuts[i] == BlockStart(numFiles, p, i) && cuts[i + 1] == BlockEnd(numFiles, p, i))
  {
    var cuts := BlockCuts(numFiles, p);
    var q := numFiles / p;
    assert numFiles == q * p + numFiles % p;
    forall i, j | 0 <= i <= j <= p
      ensures cuts[i] <= cuts[j]
    {
      if j < p {
        MulMonotone(i, j, q);
      } else {
        MulMonotone(i, p, q);
      }
    }
  }

  /** Pieces that each flatten the stretch of `xs` between two consecutive
      cut points flatten, together and in order, to the whole of `xs`. */
  lemma {:induction false} FlattenCuts<T>(xs: seq<seq<T>>, parts: seq<seq<T>>, cuts: seq<nat>)
    requires |cuts| == |parts| + 1 && cuts[0] == 0 && cuts[|parts|] == |xs|
    requires forall i, j :: 0 <= i <= j < |cuts| ==> cuts[i] <= cuts[j]
    requires forall i :: 0 <= i < |parts| ==> parts[i] == Flatten(xs[cuts[i]..cuts[i + 1]])
    ensures Flatten(parts) == Flatten(xs)
    decreases |parts|
  {
    var n := |parts|;
    if n == 0 {
      assert xs == [];
    } else {
      var mid := cuts[n - 1];
      var xs' := xs[..mid];
      var parts' := parts[..n - 1];
      var cuts' := cuts[..n];
      forall i | 0 <= i < n - 1
        ensures parts'[i] == Flatten(xs'[cuts'[i]..cuts'[i + 1]])
      {
        var lo, hi := cuts[i], cuts[i + 1];
        assert lo <= hi && hi <= mid by {
          assert 0 <= i <= i + 1 < |cuts| && 0 <= i + 1 <= n - 1 < |cuts|;
        }
        assert xs'[lo..hi] == xs[lo..hi];
      }
      assert forall i, j :: 0 <= i <= j < |cuts'| ==> cuts'[i] <= cuts'[j];
      FlattenCuts(xs', parts', cuts');
      assert Flatten(parts) == Flatten(parts') + parts[n - 1];
      assert parts[n - 1] == Flatten(xs[mid..]) by {
        assert cuts[n] == |xs|;
        assert xs[mid..cuts[n]] == xs[mid..];
      }
      assert xs == xs' + xs[mid..];
      FlattenConcat(xs', xs[mid..]);
    }
  }

  /** The blocks need not differ in size by at most one file: five files
      over three workers give blocks of 1, 1 and 3 files. */
  lemma UnevenBlocks()
    ensures BlockEnd(5, 3, 0) - BlockStart(5, 3, 0) == 1
    ensures BlockEnd(5, 3, 1) - BlockStart(5, 3, 1) == 1
    ensures BlockEnd(5, 3, 2) - BlockStart(5, 3, 2) == 3
  {
  }
}
