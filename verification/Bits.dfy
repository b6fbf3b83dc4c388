/** Machine words and the bitwise operators of C, defined on integers bit by bit. */
module Bits {
  type Byte = x: int | 0 <= x < 0x100
  type Half = x: int | 0 <= x < 0x1_0000
  type Word = x: int | 0 <= x < 0x1_0000_0000

  const ALL_ONES: Word := 0xFFFF_FFFF

  function Min(x: int, y: int): int {
    if x < y then x else y
  }

  /** The 16-bit word with the given bytes, most significant first. */
  function BigEndian(hi: Byte, lo: Byte): Half {
    0x100 * hi + lo
  }

  /** The two parts of a slice. */
  lemma SplitSlice<T>(b: seq<T>, i: nat, w: seq<T>, e: seq<T>, t: seq<T>, next: nat, end: nat)
    requires w == e + t && next == i + |e| && end == i + |w| <= |b| && b[i..end] == w
    ensures b[i..next] == e && b[next..end] == t && end == next + |t|
  {
    assert b[i..next] == w[..|e|] && b[next..end] == w[|e|..];
  }

  function Pow2(k: nat): (r: nat)
    ensures r >= 1
  {
    if k == 0 then 1 else 2 * Pow2(k - 1)
  }

  function And(x: nat, y: nat): (r: nat)
    ensures r <= x && r <= y
  {
    if x == 0 || y == 0 then 0 else (if x % 2 + y % 2 == 2 then 1 else 0) + 2 * And(x / 2, y / 2)
  }

  function Or(x: nat, y: nat): (r: nat)
    ensures r >= x && r >= y
  {
    if x == 0 then y else if y == 0 then x else (if x % 2 + y % 2 > 0 then 1 else 0) + 2 * Or(x / 2, y / 2)
  }

  /** The complement of a 32-bit word. */
  function Not(x: Word): Word {
    ALL_ONES - x
  }

  /** `x` rounded down to a multiple of 2^k. */
  function Floor(x: nat, k: nat): (r: nat)
    ensures r <= x < r + Pow2(k)
  {
    if k == 0 then x else 2 * Floor(x / 2, k - 1)
  }

  /** `x` shifted left by `k` bits. */
  function Shl(x: nat, k: nat): nat {
    if k == 0 then x else 2 * Shl(x, k - 1)
  }

  lemma Pow2Table()
    ensures Pow2(8) == 0x100 && Pow2(16) == 0x1_0000 && Pow2(32) == 0x1_0000_0000
  {
    assert Pow2(8) == 0x100;
    assert Pow2(16) == 0x100 * Pow2(8);
    assert Pow2(24) == 0x100 * Pow2(16);
    assert Pow2(32) == 0x100 * Pow2(24);
  }

  lemma {:induction false} Pow2Mono(j: nat, k: nat)
    requires j <= k
    ensures Pow2(j) <= Pow2(k)
    decreases k
  {
    if j < k {
      Pow2Mono(j, k - 1);
    }
  }

  /** The contiguous subnet mask that leaves `k` host bits. */
  function Mask(k: nat): (m: Word)
    requires k <= 32
    ensures m == 0x1_0000_0000 - Pow2(k)
  {
    Pow2Table();
    Pow2Mono(k, 32);
    0x1_0000_0000 - Pow2(k)
  }

  lemma AndStep(x: nat, i: nat, y: nat, j: nat)
    requires i < 2 && j < 2
    ensures And(2 * x + i, 2 * y + j) == (if i + j == 2 then 1 else 0) + 2 * And(x, y)
  {
  }

  lemma {:induction false} AndOnes(x: nat, n: nat)
    requires x < Pow2(n)
    ensures And(x, Pow2(n) - 1) == x
    decreases n
  {
    if n > 0 {
      AndOnes(x / 2, n - 1);
      AndStep(x / 2, x % 2, Pow2(n - 1) - 1, 1);
    }
  }

  lemma {:induction false} AndHighBits(x: nat, n: nat, k: nat)
    requires k <= n && x < Pow2(n) && Pow2(k) <= Pow2(n)
    ensures And(x, Pow2(n) - Pow2(k)) == Floor(x, k)
    decreases n
  {
    if k == 0 {
      AndOnes(x, n);
    } else {
      var q, m := x / 2, Pow2(n - 1) - Pow2(k - 1);
      Pow2Mono(k - 1, n - 1);
      assert And(q, m) == Floor(q, k - 1) by { AndHighBits(q, n - 1, k - 1); }
      AndStep(q, x % 2, m, 0);
      assert x == 2 * q + x % 2 && Pow2(n) - Pow2(k) == 2 * m;
    }
  }

  /** Masking with a contiguous mask rounds down to a multiple of the block size. */
  lemma AndMask(x: Word, k: nat)
    requires k <= 32
    ensures And(x, Mask(k)) == Floor(x, k)
  {
    Pow2Table();
    Pow2Mono(k, 32);
    AndHighBits(x, 32, k);
  }

  lemma OrStep(x: nat, i: nat, y: nat, j: nat)
    requires i < 2 && j < 2
    ensures Or(2 * x + i, 2 * y + j) == (if i + j > 0 then 1 else 0) + 2 * Or(x, y)
  {
  }

  lemma {:induction false} OrLowBits(x: nat, k: nat)
    ensures Or(Floor(x, k), Pow2(k) - 1) == Floor(x, k) + Pow2(k) - 1
    decreases k
  {
    if k > 0 {
      var f, p := Floor(x / 2, k - 1), Pow2(k - 1) - 1;
      assert Or(f, p) == f + p by { OrLowBits(x / 2, k - 1); }
      assert Or(2 * f + 0, 2 * p + 1) == 1 + 2 * Or(f, p) by { OrStep(f, 0, p, 1); }
      assert Floor(x, k) == 2 * f && Pow2(k) - 1 == 2 * p + 1;
    }
  }

  lemma {:induction false} OrBound(x: nat, y: nat, n: nat)
    requires x < Pow2(n) && y < Pow2(n)
    ensures Or(x, y) < Pow2(n)
    decreases n
  {
    if n > 0 {
      OrBound(x / 2, y / 2, n - 1);
      OrStep(x / 2, x % 2, y / 2, y % 2);
    }
  }

  function OrWord(x: Word, y: Word): (r: Word)
    ensures r == Or(x, y)
  {
    Pow2Table();
    OrBound(x, y, 32);
    Or(x, y)
  }

  lemma {:induction false} FloorOfBlock(x: nat, y: nat, k: nat)
    requires Floor(y, k) <= x < Floor(y, k) + Pow2(k)
    ensures Floor(x, k) == Floor(y, k)
    decreases k
  {
    if k > 0 {
      FloorOfBlock(x / 2, y / 2, k - 1);
    }
  }

  lemma {:induction false} OrSelf(x: nat)
    ensures Or(x, x) == x
  {
    if x > 0 {
      OrSelf(x / 2);
    }
  }

  ghost predicate HighBits(m: nat, n: nat) {
    exists k :: 0 <= k < n && m == Pow2(n) - Pow2(k)
  }

  lemma {:induction false} ContiguousBits(m: nat, n: nat)
    requires 0 < m < Pow2(n)
    ensures Or(m - 1, m) == Pow2(n) - 1 <==> HighBits(m, n)
    decreases n
  {
    if m % 2 == 1 {
      OrSelf(m / 2);
      assert Or(m - 1, m) == m;
      if m == Pow2(n) - 1 {
        assert m == Pow2(n) - Pow2(0);
      }
      forall k | 0 <= k < n && m == Pow2(n) - Pow2(k)
        ensures k == 0
      {
        assert Pow2(n) % 2 == 0;
        assert Pow2(k) % 2 == 1;
      }
    } else {
      var q := m / 2;
      ContiguousBits(q, n - 1);
      assert Or(m - 1, m) == 1 + 2 * Or(q - 1, q);
      if HighBits(q, n - 1) {
        var k :| 0 <= k < n - 1 && q == Pow2(n - 1) - Pow2(k);
        assert m == Pow2(n) - Pow2(k + 1);
      }
      if HighBits(m, n) {
        var k :| 0 <= k < n && m == Pow2(n) - Pow2(k);
        assert k > 0 by { assert Pow2(0) == 1 && Pow2(n) == 2 * Pow2(n - 1); }
        assert q == Pow2(n - 1) - Pow2(k - 1);
      }
    }
  }

  ghost predicate Contiguous(m: Word) {
    exists k :: 0 <= k <= 32 && m == Mask(k)
  }

  lemma HighBitsAreMask(m: Word, n: nat)
    requires n == 32 && m > 0
    ensures HighBits(m, n) <==> Contiguous(m)
  {
    Pow2Table();
    if HighBits(m, n) {
      var k :| 0 <= k < n && m == Pow2(n) - Pow2(k);
      assert m == Mask(k);
    }
    if Contiguous(m) {
      var k :| 0 <= k <= 32 && m == Mask(k);
      assert m == Pow2(n) - Pow2(k);
    }
  }

  /** The test `((m - 1) | m) == 0xFFFFFFFF` on 32-bit words accepts exactly the contiguous masks. */
  lemma ContiguousMask(m: Word)
    ensures Or((m + ALL_ONES) % 0x1_0000_0000, m) == ALL_ONES <==> Contiguous(m)
  {
    if m == 0 {
      Pow2Table();
      assert m == Mask(32);
    } else {
      var n := 32;
      Pow2Table();
      assert (m + ALL_ONES) % 0x1_0000_0000 == m - 1;
      ContiguousBits(m, n);
      HighBitsAreMask(m, n);
    }
  }

  /** And works on the two parts of a word split at bit `k` separately. */
  lemma {:induction false} AndSplit(a: nat, b: nat, c: nat, d: nat, k: nat)
    requires b < Pow2(k) && d < Pow2(k)
    ensures And(Shl(a, k) + b, Shl(c, k) + d) == Shl(And(a, c), k) + And(b, d)
    decreases k
  {
    if k > 0 {
      var x, y, z := Shl(a, k - 1), Shl(c, k - 1), Shl(And(a, c), k - 1);
      AndSplit(a, b / 2, c, d / 2, k - 1);
      AndSplitStep(x, y, z, b, d, Shl(a, k), Shl(c, k));
    }
  }

  lemma AndSplitStep(x: nat, y: nat, z: nat, b: nat, d: nat, v: nat, w: nat)
    requires And(x + b / 2, y + d / 2) == z + And(b / 2, d / 2) && v == 2 * x && w == 2 * y
    ensures And(v + b, w + d) == 2 * z + And(b, d)
  {
    var q, r, i, j := b / 2, d / 2, b % 2, d % 2;
    AndStep(x + q, i, y + r, j);
    AndStep(q, i, r, j);
    assert v + b == 2 * (x + q) + i && w + d == 2 * (y + r) + j;
    assert b == 2 * q + i && d == 2 * r + j;
  }
}
