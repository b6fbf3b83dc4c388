/** The Internet checksum (RFC 1071) and its incremental update (RFC 1624), as a little-endian CPU computes
    them: 16-bit words are read with the first byte least significant. */
module Checksum {
  import opened Bits

  /** The sum of the words of a byte string; an odd last byte is padded with zero. */
  function Sum16(b: seq<Byte>): nat {
    if |b| == 0 then 0 else if |b| == 1 then b[0] else b[0] + 0x100 * b[1] + Sum16(b[2..])
  }

  /** What adding the carries above 16 bits back leaves of a sum: each carry takes 0x10000 away and adds one. */
  function Folded(sum: nat): Half {
    if sum < 0x1_0000 then sum else Folded(sum - 0xFFFF)
  }

  /** Folding keeps the value modulo 0xFFFF, and only a zero sum folds to zero. */
  lemma {:induction false} FoldedValue(sum: nat) returns (k: int)
    ensures sum == Folded(sum) + k * 0xFFFF
    ensures Folded(sum) == 0 <==> sum == 0
    decreases sum
  {
    if sum < 0x1_0000 {
      k := 0;
    } else {
      var j := FoldedValue(sum - 0xFFFF);
      k := j + 1;
    }
  }

  /** A receiver adds up everything including the checksum and expects all ones. */
  predicate Verifies(sum: nat) {
    Folded(sum) == 0xFFFF
  }

  lemma Congruent(x: int, y: int, k: int)
    requires x == y + k * 0xFFFF
    ensures x % 0xFFFF == 0 <==> y % 0xFFFF == 0
  {
  }

  lemma VerifiesMeans(sum: nat)
    ensures Verifies(sum) <==> sum > 0 && sum % 0xFFFF == 0
  {
    var k := FoldedValue(sum);
    Congruent(sum, Folded(sum), k);
  }

  lemma FoldedUnique(x: nat, y: nat, d: int)
    requires x == y + d * 0xFFFF && (x == 0 <==> y == 0)
    ensures Folded(x) == Folded(y)
  {
    var j := FoldedValue(x);
    var k := FoldedValue(y);
    assert Folded(x) - Folded(y) == (d + k - j) * 0xFFFF;
  }

  /** The loop that adds the carries back, all of them at once. */
  method Fold(sum: nat) returns (r: Half)
    ensures r == Folded(sum)
  {
    var s := sum;
    while s / 0x1_0000 != 0
      invariant Folded(s) == Folded(sum)
      decreases s
    {
      FoldCarries(s, s / 0x1_0000);
      s := s % 0x1_0000 + s / 0x1_0000;
    }
    r := s;
  }

  lemma {:induction false} FoldCarries(s: nat, q: nat)
    requires q * 0x1_0000 <= s
    ensures Folded(s - q * 0xFFFF) == Folded(s)
    decreases q
  {
    if q > 0 {
      FoldCarries(s - 0xFFFF, q - 1);
    }
  }

  /** The checksum of a byte string whose checksum field is zero. */
  function InetChksum(b: seq<Byte>): Half {
    0xFFFF - Folded(Sum16(b))
  }

  /** The checksum after a word `m` was replaced by `m'`. */
  function Updated(hc: Half, m: Half, m': Half): Half {
    0xFFFF - Folded((0xFFFF - hc) + (0xFFFF - m) + m')
  }

  method UpdateChecksum(hc: Half, m: Half, m': Half) returns (r: Half)
    ensures r == Updated(hc, m, m')
  {
    var sum: nat := 0xFFFF - hc;
    sum := sum + (0xFFFF - m);
    sum := sum + m';
    var f := Fold(sum);
    r := 0xFFFF - f;
  }

  /** The update is exact: if the checksum was the complement of the folded sum before, it is so afterwards.
      `rest` is the sum of all other words; it is not zero, so neither sum folds to the other zero. */
  lemma UpdateExact(rest: nat, m: Half, m': Half, hc: Half)
    requires rest > 0 && hc == 0xFFFF - Folded(rest + m)
    ensures Updated(hc, m, m') == 0xFFFF - Folded(rest + m')
  {
    var f := Folded(rest + m);
    var k := FoldedValue(rest + m);
    FoldedUnique(f + (0xFFFF - m) + m', rest + m', 1 - k);
  }

  /** For the receiver: when the words of a packet change its sum by `delta` while the checksum is updated for
      `m' - m`, a packet that verified goes on to verify exactly if the two agree modulo 0xFFFF. */
  lemma UpdateVerifies(rest: nat, delta: int, m: Half, m': Half, hc: Half)
    requires rest > 0 && rest + delta > 0 && Verifies(rest + hc)
    ensures Verifies(rest + delta + Updated(hc, m, m')) <==> (delta - (m' - m)) % 0xFFFF == 0
  {
    var s := (0xFFFF - hc) + (0xFFFF - m) + m';
    var j := FoldedValue(s);
    var i := (rest + hc) / 0xFFFF;
    assert rest + hc == i * 0xFFFF by { VerifiesMeans(rest + hc); }
    var after, d := rest + delta + Updated(hc, m, m'), delta - (m' - m);
    assert after == d + (i + j - 1) * 0xFFFF;
    Congruent(after, d, i + j - 1);
    VerifiesMeans(after);
  }

  /** When the change is the one the checksum was updated for, the packet verifies exactly if it did before. */
  lemma UpdateVerifiesBoth(rest: nat, m: Half, m': Half, hc: Half)
    requires rest > m && rest + m' - m > 0
    ensures Verifies(rest + m' - m + Updated(hc, m, m')) <==> Verifies(rest + hc)
  {
    var s := (0xFFFF - hc) + (0xFFFF - m) + m';
    var j := FoldedValue(s);
    var before, after := rest + hc, rest + m' - m + Updated(hc, m, m');
    assert after == before + (j - 1) * 0xFFFF;
    Congruent(after, before, j - 1);
    VerifiesMeans(before);
    VerifiesMeans(after);
  }

  function LittleEndian(lo: Byte, hi: Byte): Half {
    lo + 0x100 * hi
  }

  /** What a byte in place `k` adds to the sum. */
  function Place(k: nat, v: Byte): nat {
    if k % 2 == 0 then v else 0x100 * v
  }

  /** Changing one byte changes the sum by the weight of its place. */
  lemma {:induction false} SumUpdate(b: seq<Byte>, k: nat, v: Byte)
    requires k < |b|
    ensures Sum16(b[k := v]) == Sum16(b) + Place(k, v) - Place(k, b[k])
    decreases |b|
  {
    if |b| >= 2 {
      if k >= 2 {
        SumUpdate(b[2..], k - 2, v);
        assert b[k := v][2..] == b[2..][k - 2 := v];
      } else {
        assert b[k := v][2..] == b[2..];
      }
    }
  }

  lemma {:induction false} SumPositive(b: seq<Byte>, k: nat)
    requires k < |b| && b[k] > 0
    ensures Sum16(b) > 0
    decreases |b|
  {
    if k >= 2 {
      SumPositive(b[2..], k - 2);
    }
  }

  function WordAt(b: seq<Byte>, k: nat): Half
    requires k + 1 < |b|
  {
    LittleEndian(b[k], b[k + 1])
  }

  /** Two neighbouring bytes replaced by a word. */
  function WithWord(b: seq<Byte>, k: nat, w: Half): seq<Byte>
    requires k + 1 < |b|
  {
    b[k := w % 0x100][k + 1 := w / 0x100]
  }

  lemma SumWithWord(b: seq<Byte>, k: nat, w: Half)
    requires k + 1 < |b| && k % 2 == 0
    ensures Sum16(WithWord(b, k, w)) == Sum16(b) + w - WordAt(b, k)
    ensures WordAt(WithWord(b, k, w), k) == w
  {
    var lo, hi := w % 0x100, w / 0x100;
    var b1 := b[k := lo];
    var b2 := b1[k + 1 := hi];
    SumUpdate(b, k, lo);
    SumUpdate(b1, k + 1, hi);
    OddPlace(k, hi);
    OddPlace(k, b[k + 1]);
    calc {
      Sum16(WithWord(b, k, w));
      Sum16(b2);
      Sum16(b1) + Place(k + 1, hi) - Place(k + 1, b[k + 1]);
      Sum16(b) + w - WordAt(b, k);
    }
  }

  lemma OddPlace(k: nat, v: Byte)
    requires k % 2 == 0
    ensures Place(k + 1, v) == LittleEndian(0, v)
  {
  }

  /** Filling in the computed checksum makes a byte string verify; `base` is the sum of a pseudo header, if any. */
  lemma FilledInVerifies(base: nat, b: seq<Byte>, k: nat, c: Half)
    requires k + 1 < |b| && k % 2 == 0 && b[k] == b[k + 1] == 0 && base + Sum16(b) > 0
    requires c == 0xFFFF - Folded(base + Sum16(b))
    ensures Verifies(base + Sum16(WithWord(b, k, c)))
  {
    SumWithWord(b, k, c);
    var s := base + Sum16(b);
    var q := FoldedValue(s);
    Congruent(s + c, 0, q + 1);
    VerifiesMeans(s + c);
  }

  /** The checksum a full computation gives for the field at `k`; `base` is the sum of a pseudo header. */
  function Recomputed(base: nat, b: seq<Byte>, k: nat): Half
    requires k + 1 < |b|
  {
    0xFFFF - Folded(base + Sum16(WithWord(b, k, 0)))
  }

  /** The word at `j` replaced, and the checksum at `k` updated for it. */
  function Patched(b: seq<Byte>, j: nat, k: nat, m': Half): seq<Byte>
    requires j + 1 < |b| && k + 1 < |b|
  {
    WithWord(WithWord(b, j, m'), k, Updated(WordAt(b, k), WordAt(b, j), m'))
  }

  lemma OtherWord(b: seq<Byte>, j: nat, k: nat, w: Half)
    requires j % 2 == 0 && k % 2 == 0 && j + 1 < |b| && k + 1 < |b| && j != k
    ensures WordAt(WithWord(b, j, w), k) == WordAt(b, k)
  {
  }

  /** The sum without the replaced word and the checksum. */
  lemma SumParts(b: seq<Byte>, j: nat, k: nat, m': Half, c: Half)
    requires j % 2 == 0 && k % 2 == 0 && j + 1 < |b| && k + 1 < |b| && j != k
    ensures Sum16(WithWord(WithWord(b, j, m'), k, c)) == Sum16(b) - WordAt(b, j) - WordAt(b, k) + m' + c
  {
    var b1 := WithWord(b, j, m');
    calc {
      Sum16(WithWord(b1, k, c));
      { SumWithWord(b1, k, c); }
      Sum16(b1) + c - WordAt(b1, k);
      { OtherWord(b, j, k, m'); }
      Sum16(b1) + c - WordAt(b, k);
      { SumWithWord(b, j, m'); }
      Sum16(b) + m' - WordAt(b, j) + c - WordAt(b, k);
    }
  }

  lemma SumPartsPositive(b: seq<Byte>, j: nat, k: nat, p: nat)
    requires j % 2 == 0 && k % 2 == 0 && j + 1 < |b| && k + 1 < |b| && j != k
    requires p < |b| && p !in {j, j + 1, k, k + 1} && b[p] > 0
    ensures Sum16(b) > WordAt(b, j) + WordAt(b, k)
  {
    SumParts(b, j, k, 0, 0);
    SumPositive(WithWord(WithWord(b, j, 0), k, 0), p);
  }

  lemma PatchedSums(b: seq<Byte>, j: nat, k: nat, m': Half)
    requires j % 2 == 0 && k % 2 == 0 && j + 1 < |b| && k + 1 < |b| && j != k
    ensures var b', c := Patched(b, j, k, m'), Updated(WordAt(b, k), WordAt(b, j), m');
            && Sum16(b') == Sum16(b) - WordAt(b, j) - WordAt(b, k) + m' + c
            && WordAt(b', k) == c
            && WordAt(b', j) == m'
  {
    var c := Updated(WordAt(b, k), WordAt(b, j), m');
    SumParts(b, j, k, m', c);
    var b1 := WithWord(b, j, m');
    assert WordAt(b1, j) == m' by { SumWithWord(b, j, m'); }
    assert WordAt(WithWord(b1, k, c), k) == c by { SumWithWord(b1, k, c); }
    OtherWord(b1, k, j, c);
  }

  lemma PatchFromSums(base: nat, b: seq<Byte>, b': seq<Byte>, k: nat, m: Half, m': Half)
    requires k % 2 == 0 && k + 1 < |b| == |b'|
    requires Sum16(b) > m + WordAt(b, k)
    requires WordAt(b', k) == Updated(WordAt(b, k), m, m')
    requires Sum16(b') == Sum16(b) - m - WordAt(b, k) + m' + WordAt(b', k)
    ensures WordAt(b, k) == Recomputed(base, b, k) ==> WordAt(b', k) == Recomputed(base, b', k)
    ensures Verifies(base + Sum16(b')) <==> Verifies(base + Sum16(b))
  {
    var s, s' := Sum16(b), Sum16(b');
    SumWithoutField(b, k);
    SumWithoutField(b', k);
    PatchArithmetic(base + s - WordAt(b, k), base + s' - WordAt(b', k), base + s, base + s', m, m', WordAt(b, k));
  }

  lemma SumWithoutField(b: seq<Byte>, k: nat)
    requires k % 2 == 0 && k + 1 < |b|
    ensures Sum16(WithWord(b, k, 0)) == Sum16(b) - WordAt(b, k)
  {
    SumWithWord(b, k, 0);
  }

  /** Patching keeps a correct checksum correct. Some other byte, at `p`, is not zero. */
  lemma PatchExact(base: nat, b: seq<Byte>, j: nat, k: nat, p: nat, m': Half, b': seq<Byte>)
    requires j % 2 == 0 && k % 2 == 0 && j + 1 < |b| && k + 1 < |b| && j != k
    requires p < |b| && p !in {j, j + 1, k, k + 1} && b[p] > 0
    requires b' == Patched(b, j, k, m') && WordAt(b, k) == Recomputed(base, b, k)
    ensures WordAt(b', k) == Recomputed(base, b', k)
  {
    SumPartsPositive(b, j, k, p);
    PatchedSums(b, j, k, m');
    PatchFromSums(base, b, b', k, WordAt(b, j), m');
  }

  /** A patched packet verifies exactly if it did before. */
  lemma PatchVerifies(base: nat, b: seq<Byte>, j: nat, k: nat, p: nat, m': Half, b': seq<Byte>)
    requires j % 2 == 0 && k % 2 == 0 && j + 1 < |b| && k + 1 < |b| && j != k
    requires p < |b| && p !in {j, j + 1, k, k + 1} && b[p] > 0
    requires b' == Patched(b, j, k, m')
    ensures Verifies(base + Sum16(b')) <==> Verifies(base + Sum16(b))
  {
    SumPartsPositive(b, j, k, p);
    PatchedSums(b, j, k, m');
    PatchFromSums(base, b, b', k, WordAt(b, j), m');
  }

  /** `x` and `x'` are the sums without the checksum, `s` and `s'` those with it. */
  lemma PatchArithmetic(x: nat, x': nat, s: nat, s': nat, m: Half, m': Half, hc: Half)
    requires x > m && x' == x - m + m' && s == x + hc && s' == x' + Updated(hc, m, m')
    ensures hc == 0xFFFF - Folded(x) ==> Updated(hc, m, m') == 0xFFFF - Folded(x')
    ensures Verifies(s') <==> Verifies(s)
  {
    var others := x - m;
    UpdateVerifiesBoth(x, m, m', hc);
    assert s' == x + m' - m + Updated(hc, m, m');
    if hc == 0xFFFF - Folded(x) {
      assert x == others + m && x' == others + m';
      UpdateExact(others, m, m', hc);
    }
  }
}
