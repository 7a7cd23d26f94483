/** Bytes, little-endian integers and positional writes: the vocabulary of the on-disk format. */
module ByteString {
  type byte = x: int | 0 <= x < 256
  type Bytes = seq<byte>
  type u32 = x: int | 0 <= x < 0x1_0000_0000
  type u64 = x: int | 0 <= x < 0x1_0000_0000_0000_0000

  datatype Option<+T> = None | Some(value: T)

  // Sequence identities, kept apart so that the proofs that need them stay small.

  lemma ConsJoin<T>(x: T, a: seq<T>, b: seq<T>)
    ensures [x] + (a + b) == ([x] + a) + b
  {
  }

  lemma JoinAssoc<T>(a: seq<T>, b: seq<T>, d: seq<T>)
    ensures a + (b + d) == (a + b) + d
  {
  }

  lemma NilJoin<T>(a: seq<T>)
    ensures [] + a == a && a + [] == a
  {
  }

  lemma HeadTail<T>(a: seq<T>)
    requires a != []
    ensures [a[0]] + a[1..] == a
  {
  }

  lemma DropAppend<T>(a: seq<T>, b: seq<T>, n: nat)
    requires n <= |a|
    ensures (a + b)[n..] == a[n..] + b
  {
  }

  lemma DropDrop<T>(a: seq<T>, n: nat, m: nat)
    requires n + m <= |a|
    ensures a[n..][m..] == a[n + m..]
  {
  }

  function Zeros(n: nat): (z: Bytes)
    ensures |z| == n
    ensures forall i :: 0 <= i < n ==> z[i] == 0
  {
    seq(n, i => 0)
  }

  predicate AllZero(b: Bytes) {
    forall i :: 0 <= i < |b| ==> b[i] == 0
  }

  /** `b` reads as zero on `[lo, hi)`, as far as it extends. */
  predicate ZeroOn(b: Bytes, lo: nat, hi: nat) {
    forall i :: lo <= i < hi && i < |b| ==> b[i] == 0
  }

  /** The two byte strings hold the same bytes on `[lo, hi)`, and both reach `hi`. */
  predicate SameOn(a: Bytes, b: Bytes, lo: nat, hi: nat) {
    hi <= |a| && hi <= |b| && forall i :: lo <= i < hi ==> a[i] == b[i]
  }

  lemma SameWithin(a: Bytes, b: Bytes, lo: nat, hi: nat, i: nat, j: nat)
    requires SameOn(a, b, lo, hi) && lo <= i && j <= hi
    ensures SameOn(a, b, i, j)
  {
  }

  lemma SameSlice(a: Bytes, b: Bytes, lo: nat, hi: nat, i: nat, j: nat)
    requires SameOn(a, b, lo, hi)
    requires lo <= i <= j <= hi
    ensures a[i..j] == b[i..j]
  {
  }

  lemma SliceOfSlice(b: Bytes, lo: nat, hi: nat, i: nat, j: nat)
    requires lo <= hi <= |b| && i <= j <= hi - lo
    ensures b[lo..hi][i..j] == b[lo + i..lo + j]
  {
    var x, y := b[lo..hi][i..j], b[lo + i..lo + j];
    assert |x| == |y|;
    forall k | 0 <= k < |x| ensures x[k] == y[k] {
    }
  }

  lemma SplitSlice(b: Bytes, off: nat, x: Bytes, y: Bytes)
    requires off + |x| + |y| <= |b| && b[off..off + |x| + |y|] == x + y
    ensures b[off..off + |x|] == x && b[off + |x|..off + |x| + |y|] == y
  {
    SliceOfSlice(b, off, off + |x| + |y|, 0, |x|);
    SliceOfSlice(b, off, off + |x| + |y|, |x|, |x| + |y|);
    assert (x + y)[0..|x|] == x && (x + y)[|x|..|x| + |y|] == y;
  }

  /** What a positional write leaves behind. */
  function Overwrite(b: Bytes, off: nat, data: Bytes): (r: Bytes)
    requires off <= |b|
    ensures |r| == if off + |data| <= |b| then |b| else off + |data|
    ensures r[..off] == b[..off]
    ensures r[off..off + |data|] == data
    ensures forall i :: off + |data| <= i < |b| ==> r[i] == b[i]
    ensures forall i :: 0 <= i < off ==> r[i] == b[i]
  {
    b[..off] + data + (if off + |data| < |b| then b[off + |data|..] else [])
  }

  /** Two adjacent writes are one write. */
  lemma OverwriteJoin(b: Bytes, off: nat, x: Bytes, y: Bytes)
    requires off <= |b|
    ensures Overwrite(Overwrite(b, off, x), off + |x|, y) == Overwrite(b, off, x + y)
  {
    var l := Overwrite(Overwrite(b, off, x), off + |x|, y);
    var r := Overwrite(b, off, x + y);
    assert |l| == |r|;
    forall i | 0 <= i < |l| ensures l[i] == r[i] {
      if off <= i < off + |x| + |y| {
        assert r[i] == r[off..off + |x + y|][i - off];
        if i < off + |x| {
          var m := Overwrite(b, off, x);
          assert l[i] == l[..off + |x|][i] == m[i];
          assert m[i] == m[off..off + |x|][i - off];
        } else {
          assert l[i] == l[off + |x|..off + |x| + |y|][i - off - |x|];
        }
      }
    }
  }

  function Pow256(k: nat): (p: nat)
    ensures p > 0
  {
    if k == 0 then 1 else 256 * Pow256(k - 1)
  }

  /** `k` little-endian bytes of `n`. */
  function Le(n: nat, k: nat): (b: Bytes)
    ensures |b| == k
  {
    if k == 0 then [] else [n % 256] + Le(n / 256, k - 1)
  }

  function FromLe(b: Bytes): (n: nat)
    ensures n < Pow256(|b|)
  {
    if |b| == 0 then 0 else b[0] + 256 * FromLe(b[1..])
  }

  /** Dividing in two steps. */
  lemma DivDiv(n: nat, a: nat, b: nat)
    requires a > 0 && b > 0
    ensures a * b > 0 && n / a / b == n / (a * b)
  {
    var m := n / a;
    TwoRemainders(n, a, b, m, m / b, m % b, n % a);
    QuotientIs(n, a * b, m / b, a * (m % b) + n % a);
  }

  lemma TwoRemainders(n: nat, a: nat, b: nat, m: nat, q: nat, r: nat, t: nat)
    requires n == a * m + t && t < a && m == b * q + r && r < b
    ensures a * b > 0 && n == (a * b) * q + (a * r + t) && a * r + t < a * b
  {
    Spread(a, b * q, r);
    Regroup(a, b, q);
    Spread(a, r + 1, b - r - 1);
    Spread(a, r, 1);
  }

  lemma Spread(a: nat, x: nat, y: nat)
    ensures a * (x + y) == a * x + a * y && a * y >= 0
  {
  }

  lemma Regroup(a: nat, b: nat, q: nat)
    ensures a * (b * q) == (a * b) * q
  {
  }

  lemma QuotientIs(n: nat, d: nat, q: nat, r: nat)
    requires d > 0 && n == d * q + r && r < d
    ensures n / d == q
  {
    var k := n / d;
    assert d * (q - k) == n % d - r by {
      assert n == d * k + n % d;
      assert d * (q - k) == d * q - d * k;
    }
    Multiple(d, q - k);
  }

  lemma Multiple(d: nat, x: int)
    ensures x >= 1 ==> d * x >= d
    ensures x <= -1 ==> d * x + d <= 0
  {
    if x >= 1 {
      assert d * x == d * (x - 1) + d;
    } else if x <= -1 {
      assert d * x == d * (x + 1) - d;
    }
  }

  /** The encoding is little-endian: byte `i` is digit `i` in base 256. */
  lemma {:induction false} LeByte(n: nat, k: nat, i: nat)
    requires i < k
    ensures Le(n, k)[i] == n / Pow256(i) % 256
  {
    if i > 0 {
      LeByte(n / 256, k - 1, i - 1);
      DivDiv(n, 256, Pow256(i - 1));
    }
  }

  lemma {:induction false} LeRoundTrip(n: nat, k: nat)
    requires n < Pow256(k)
    ensures FromLe(Le(n, k)) == n
  {
    if k > 0 {
      LeRoundTrip(n / 256, k - 1);
      assert Le(n, k)[1..] == Le(n / 256, k - 1);
    }
  }

  lemma {:induction false} LeInverse(b: Bytes)
    ensures Le(FromLe(b), |b|) == b
  {
    if |b| > 0 {
      LeInverse(b[1..]);
      assert FromLe(b) % 256 == b[0] && FromLe(b) / 256 == FromLe(b[1..]);
      assert b == [b[0]] + b[1..];
    }
  }

  lemma Widths()
    ensures Pow256(2) == 0x1_0000
    ensures Pow256(4) == 0x1_0000_0000
    ensures Pow256(8) == 0x1_0000_0000_0000_0000
  {
    assert Pow256(2) == 256 * 256;
    assert Pow256(4) == 256 * 256 * Pow256(2);
    assert Pow256(6) == 256 * 256 * Pow256(4);
    assert Pow256(8) == 256 * 256 * Pow256(6);
  }

  lemma FromLe8(b: Bytes)
    requires |b| == 8
    ensures FromLe(b) < 0x1_0000_0000_0000_0000
  {
    Widths();
  }

  lemma LeRoundTrip4(n: u32)
    ensures FromLe(Le(n, 4)) == n
  {
    Widths();
    LeRoundTrip(n, 4);
  }

  lemma LeRoundTrip8(n: u64)
    ensures FromLe(Le(n, 8)) == n
  {
    Widths();
    LeRoundTrip(n, 8);
  }
}
