/** Percent encoding into a bounded buffer, and decoding in place. Strings are bytes without their final NUL. */
module PercentCodec {
  import opened Bits

  const PERCENT: Byte := 37
  const PLUS: Byte := 43
  const SPACE: Byte := 32

  predicate IsAlnum(c: Byte) {
    48 <= c <= 57 || 65 <= c <= 90 || 97 <= c <= 122
  }

  /** Letters, digits and the four marks that need no encoding. */
  predicate Unreserved(c: Byte) {
    IsAlnum(c) || c == 45 || c == 95 || c == 46 || c == 126
  }

  function HexDigit(d: nat): (c: Byte)
    requires d < 16
    ensures IsHexDigit(c) && IsAlnum(c)
  {
    if d < 10 then 48 + d else 55 + d
  }

  predicate IsHexDigit(c: Byte) {
    48 <= c <= 57 || 65 <= c <= 70 || 97 <= c <= 102
  }

  function ToUpper(c: Byte): Byte {
    if 97 <= c <= 122 then c - 32 else c
  }

  function HexDigitValue(c: Byte): (d: nat)
    requires IsHexDigit(c)
    ensures d < 16
  {
    if 48 <= c <= 57 then c - 48 else ToUpper(c) - 65 + 10
  }

  function EncodedByte(c: Byte): seq<Byte> {
    if Unreserved(c) then [c] else [PERCENT, HexDigit(c / 16), HexDigit(c % 16)]
  }

  function Encoded(s: seq<Byte>): seq<Byte> {
    if s == [] then [] else EncodedByte(s[0]) + Encoded(s[1..])
  }

  predicate Triple(s: seq<Byte>) {
    |s| >= 3 && s[0] == PERCENT && IsHexDigit(s[1]) && IsHexDigit(s[2])
  }

  function Byte16(hi: nat, lo: nat): nat {
    16 * hi + lo
  }

  /** A percent triple stands for its byte, a plus for a blank, and everything else for itself. */
  function Decoded(s: seq<Byte>): (r: seq<Byte>)
    ensures |r| <= |s|
  {
    if s == [] then []
    else if Triple(s) then [Byte16(HexDigitValue(s[1]), HexDigitValue(s[2]))] + Decoded(s[3..])
    else if s[0] == PLUS then [SPACE] + Decoded(s[1..])
    else [s[0]] + Decoded(s[1..])
  }

  /** How many bytes of `s` the encoder takes: it stops when fewer than five bytes of the buffer are left. */
  function Taken(s: seq<Byte>, outLen: nat): (k: nat)
    ensures k <= |s|
    ensures k < |s| ==> |Encoded(s[..k])| + 4 >= outLen
  {
    if s == [] then 0
    else
      var init := s[..|s| - 1];
      var k := Taken(init, outLen);
      if k < |init| then
        assert init[..k] == s[..k];
        k
      else if |Encoded(init)| + 4 < outLen then |s| else k
  }

  lemma {:induction false} EncodedConcat(a: seq<Byte>, b: seq<Byte>)
    ensures Encoded(a + b) == Encoded(a) + Encoded(b)
  {
    if a == [] {
      assert a + b == b;
    } else {
      var t := a[1..];
      EncodedConcat(t, b);
      EncodedFirst(a + b, a[0], t + b);
      EncodedFirst(a, a[0], t);
      Associative(EncodedByte(a[0]), Encoded(t), Encoded(b));
    }
  }

  lemma Associative(x: seq<Byte>, y: seq<Byte>, z: seq<Byte>)
    ensures x + (y + z) == (x + y) + z
  {
  }

  lemma EncodedFirst(s: seq<Byte>, c: Byte, rest: seq<Byte>)
    requires |s| == |rest| + 1 && s[0] == c && s[1..] == rest
    ensures Encoded(s) == EncodedByte(c) + Encoded(rest)
  {
  }

  /** One more byte of the input. */
  lemma EncodedNext(s: seq<Byte>, i: nat)
    requires i < |s|
    ensures Encoded(s[..i + 1]) == Encoded(s[..i]) + EncodedByte(s[i])
  {
    var c := s[i];
    assert Encoded([c]) == EncodedByte(c) + Encoded([]);
    assert s[..i + 1] == s[..i] + [c];
    EncodedConcat(s[..i], [c]);
  }

  /** Encoded text needs no further encoding but its percent signs, and has no NUL. */
  lemma {:induction false} EncodedCharacters(s: seq<Byte>, i: nat)
    requires i < |Encoded(s)|
    ensures Encoded(s)[i] == PERCENT || Unreserved(Encoded(s)[i])
    ensures Encoded(s)[i] != 0
  {
    var n := |EncodedByte(s[0])|;
    if i >= n {
      EncodedCharacters(s[1..], i - n);
    }
  }

  /** The encoding of one byte: letters, digits and - . _ ~ stay, every other byte becomes a percent sign and its two
      digits in upper-case hexadecimal notation. */
  lemma EncodedOne(c: Byte)
    ensures (48 <= c <= 57 || 65 <= c <= 90 || 97 <= c <= 122 || c in {45, 46, 95, 126}) ==> Encoded([c]) == [c]
    ensures !(48 <= c <= 57 || 65 <= c <= 90 || 97 <= c <= 122 || c in {45, 46, 95, 126}) ==>
              && |Encoded([c])| == 3 && Encoded([c])[0] == 37
              && (forall k :: 1 <= k <= 2 ==> 48 <= Encoded([c])[k] <= 57 || 65 <= Encoded([c])[k] <= 70)
              && UpperValue(Encoded([c])[1]) * 16 + UpperValue(Encoded([c])[2]) == c
  {
    assert Encoded([c]) == EncodedByte(c) + Encoded([]);
  }

  /** The value of an upper-case hexadecimal digit. */
  function UpperValue(d: Byte): int {
    if d <= 57 then d - 48 else d - 55
  }

  /** A percent sign with two digits of either case behind it is decoded to the byte they stand for. */
  lemma DecodedTriple(s: seq<Byte>)
    requires |s| >= 3 && s[0] == 37 && Digit(s[1]) >= 0 && Digit(s[2]) >= 0
    ensures Decoded(s) == [Digit(s[1]) * 16 + Digit(s[2])] + Decoded(s[3..])
  {
    assert HexDigitValue(s[1]) == Digit(s[1]) && HexDigitValue(s[2]) == Digit(s[2]);
  }

  /** A plus is decoded to a blank, and everything else stays, a percent sign without two digits behind it included. */
  lemma DecodedOther(s: seq<Byte>)
    requires s != [] && !(|s| >= 3 && s[0] == 37 && Digit(s[1]) >= 0 && Digit(s[2]) >= 0)
    ensures Decoded(s) == [if s[0] == 43 then 32 else s[0]] + Decoded(s[1..])
  {
  }

  /** The value of a hexadecimal digit, negative for other characters. */
  function Digit(c: Byte): (d: int)
    ensures d < 16
  {
    if 48 <= c <= 57 then c - 48 else if 65 <= c <= 70 then c - 55 else if 97 <= c <= 102 then c - 87 else -1
  }

  lemma HexRoundTrip(c: Byte)
    ensures Byte16(HexDigitValue(HexDigit(c / 16)), HexDigitValue(HexDigit(c % 16))) == c
  {
  }

  lemma DecodedByte(c: Byte, rest: seq<Byte>, s: seq<Byte>)
    requires s == EncodedByte(c) + rest
    ensures Decoded(s) == [c] + Decoded(rest)
  {
    HexRoundTrip(c);
    if Unreserved(c) {
      assert s[1..] == rest;
    } else {
      assert s[3..] == rest;
    }
  }

  /** Decoding gives back every string that was encoded. */
  lemma {:induction false} DecodeEncode(s: seq<Byte>)
    ensures Decoded(Encoded(s)) == s
  {
    if s != [] {
      DecodedByte(s[0], Encoded(s[1..]), Encoded(s));
      DecodeEncode(s[1..]);
    }
  }

  lemma EncodedGrows(s: seq<Byte>, k: nat)
    requires k <= |s|
    ensures |Encoded(s[..k])| <= |Encoded(s)|
  {
    assert s == s[..k] + s[k..];
    EncodedConcat(s[..k], s[k..]);
  }

  /** The encoder takes the whole string exactly if five bytes of the buffer are left before the last one. */
  lemma TakenAll(s: seq<Byte>, outLen: nat)
    ensures Taken(s, outLen) == |s| <==> s == [] || |Encoded(s[..|s| - 1])| + 4 < outLen
  {
    if s != [] {
      var init := s[..|s| - 1];
      var k := Taken(init, outLen);
      if k < |init| {
        EncodedGrows(init, k);
      }
    }
  }

  /** The final NUL is written inside the buffer if and only if the buffer is not empty. */
  lemma EndInside(s: seq<Byte>, outLen: nat)
    ensures |Encoded(s[..Taken(s, outLen)])| < outLen <==> outLen > 0
  {
    TakenBound(s, outLen);
  }

  lemma {:induction false} TakenBound(s: seq<Byte>, outLen: nat)
    ensures var k := Taken(s, outLen); k == 0 || |Encoded(s[..k])| < outLen
  {
    if s != [] {
      var init := s[..|s| - 1];
      TakenBound(init, outLen);
      var k := Taken(s, outLen);
      if k < |s| {
        assert s[..k] == init[..k];
      } else {
        EncodedNext(s, |init|);
        assert s[..k] == s;
      }
    }
  }

  /** Encoding into a buffer and decoding gives back a prefix, and all of the string exactly if it fits. */
  lemma RoundTrip(s: seq<Byte>, outLen: nat)
    ensures var r := Decoded(Encoded(s[..Taken(s, outLen)]));
            r <= s && (r == s <==> s == [] || |Encoded(s[..|s| - 1])| + 4 < outLen)
  {
    var k := Taken(s, outLen);
    DecodeEncode(s[..k]);
    TakenAll(s, outLen);
  }

  lemma {:induction false} TakenIs(s: seq<Byte>, outLen: nat, i: nat)
    requires i <= |s| && (i < |s| ==> |Encoded(s[..i])| + 4 >= outLen)
    requires forall m :: 0 <= m < i ==> |Encoded(s[..m])| + 4 < outLen
    ensures Taken(s, outLen) == i
  {
    if s != [] {
      var init := s[..|s| - 1];
      assert forall m :: 0 <= m <= |init| ==> init[..m] == s[..m];
      if i < |s| {
        TakenIs(init, outLen, i);
      } else {
        TakenIs(init, outLen, i - 1);
      }
    }
  }

  /** Writes a byte's encoding and, behind a triple, a NUL; nothing else. */
  method PutByte(c: Byte, out: array<Byte>, j: nat) returns (next: nat)
    requires j + 4 < out.Length
    modifies out
    ensures next == j + |EncodedByte(c)| && out[..next] == old(out[..j]) + EncodedByte(c)
    ensures forall i :: next < i < out.Length ==> out[i] == old(out[i])
  {
    if Unreserved(c) {
      out[j] := c;
      next := j + 1;
    } else {
      out[j], out[j + 1], out[j + 2], out[j + 3] := PERCENT, HexDigit(c / 16), HexDigit(c % 16), 0;
      next := j + 3;
    }
  }

  /** Encodes as much of a string as fits, ends it with a NUL and writes nothing behind that. */
  method UrlEncode(input: seq<Byte>, out: array<Byte>)
    requires out.Length > 0
    modifies out
    ensures var text := Encoded(input[..Taken(input, out.Length)]);
            && |text| < out.Length && out[..|text|] == text && out[|text|] == 0
            && forall i :: |text| < i < out.Length ==> out[i] == old(out[i])
  {
    var i, j := 0, 0;
    while i < |input| && j + 4 < out.Length
      invariant i <= |input| && j < out.Length && j == |Encoded(input[..i])|
      invariant out[..j] == Encoded(input[..i])
      invariant forall m :: 0 <= m < i ==> |Encoded(input[..m])| + 4 < out.Length
      invariant forall m :: j < m < out.Length ==> out[m] == old(out[m])
    {
      EncodedNext(input, i);
      j := PutByte(input[i], out, j);
      i := i + 1;
    }
    TakenIs(input, out.Length, i);
    out[j] := 0;
  }

  /** Decoding one step of a string from position `p`. */
  lemma DecodedAt(s: seq<Byte>, p: nat)
    requires p < |s|
    ensures if p + 2 < |s| && s[p] == PERCENT && IsHexDigit(s[p + 1]) && IsHexDigit(s[p + 2])
            then Decoded(s[p..]) == [Byte16(HexDigitValue(s[p + 1]), HexDigitValue(s[p + 2]))] + Decoded(s[p + 3..])
            else Decoded(s[p..]) == [if s[p] == PLUS then SPACE else s[p]] + Decoded(s[p + 1..])
  {
    var t := s[p..];
    assert Triple(t) ==> t[3..] == s[p + 3..];
    assert t[1..] == s[p + 1..];
  }

  /** Reads the byte that starts at `p`, which may be a triple. */
  method ReadOne(str: array<Byte>, p: nat, ghost s: seq<Byte>) returns (b: Byte, last: nat)
    requires p < |s| < str.Length && str[p..|s|] == s[p..] && str[|s|] == 0 && 0 !in s
    ensures p <= last < |s| && Decoded(s[p..]) == [b] + Decoded(s[last + 1..])
  {
    assert forall i :: p <= i < |s| ==> str[i] == s[p..][i - p];
    DecodedAt(s, p);
    last := p;
    if str[p] == PERCENT && str[p + 1] != 0 && str[p + 2] != 0 && IsHexDigit(str[p + 1]) && IsHexDigit(str[p + 2]) {
      last := last + 1;
      var hi := HexDigitValue(str[last]);
      last := last + 1;
      b := Byte16(hi, HexDigitValue(str[last]));
    } else if str[p] == PLUS {
      b := SPACE;
    } else {
      b := str[p];
    }
  }

  /** The write index is at or before the byte just read, so nothing unread is overwritten. */
  method WriteOne(str: array<Byte>, q: nat, b: Byte, ghost p: nat)
    requires q < p <= str.Length
    modifies str
    ensures str[..q + 1] == old(str[..q]) + [b] && str[p..] == old(str[p..])
  {
    str[q] := b;
  }

  /** The string `s` is decoded up to `p`; the result so far is in front of `q`, the rest is untouched. */
  ghost predicate Halfway(now: seq<Byte>, q: nat, p: nat, whole: seq<Byte>, s: seq<Byte>) {
    && |now| == |whole| && q <= p <= |s| < |whole| && whole[..|s|] == s && now[p..] == whole[p..]
    && now[..q] + Decoded(s[p..]) == Decoded(s)
  }

  method DecodeOne(str: array<Byte>, q: nat, p: nat, ghost whole: seq<Byte>, ghost s: seq<Byte>) returns (next: nat)
    requires Halfway(str[..], q, p, whole, s) && p < |s| && 0 !in s && whole[|s|] == 0
    modifies str
    ensures p < next && Halfway(str[..], q + 1, next, whole, s)
  {
    ghost var done := str[..q];
    UnreadPart(str[..], p, whole, s);
    var b, last := ReadOne(str, p, s);
    next := last + 1;
    Suffix(str[..], whole, p, next);
    WriteOne(str, q, b, next);
    Associative(done, [b], Decoded(s[next..]));
  }

  lemma UnreadPart(now: seq<Byte>, p: nat, whole: seq<Byte>, s: seq<Byte>)
    requires |now| == |whole| && p <= |s| < |whole| && whole[..|s|] == s && now[p..] == whole[p..]
    ensures now[|s|] == whole[|s|] && now[p..|s|] == s[p..]
  {
    assert now[p..][|s| - p] == whole[|s|];
    assert now[p..|s|] == now[p..][..|s| - p] && s[p..] == whole[p..][..|s| - p];
  }

  lemma Unread(now: seq<Byte>, q: nat, p: nat, whole: seq<Byte>, s: seq<Byte>)
    requires Halfway(now, q, p, whole, s) && 0 !in s && whole[|s|] == 0
    ensures now[p] == 0 <==> p == |s|
    ensures now[|s| + 1..] == whole[|s| + 1..]
  {
    assert now[p] == now[p..][0] == whole[p];
    if p < |s| {
      assert whole[p] == s[p];
    }
    Suffix(now, whole, p, |s| + 1);
  }

  /** The loop: decodes up to the NUL. */
  method DecodeAll(str: array<Byte>, ghost s: seq<Byte>) returns (q: nat)
    requires |s| < str.Length && str[..|s|] == s && str[|s|] == 0 && 0 !in s
    modifies str
    ensures Halfway(str[..], q, |s|, old(str[..]), s)
  {
    ghost var whole := str[..];
    var p := 0;
    q := 0;
    assert s[0..] == s;
    Unread(str[..], q, p, whole, s);
    while str[p] != 0
      invariant Halfway(str[..], q, p, whole, s) && (str[p] == 0 <==> p == |s|)
      decreases |s| - p
    {
      p := DecodeOne(str, q, p, whole, s);
      q := q + 1;
      Unread(str[..], q, p, whole, s);
    }
  }

  /** Decodes a NUL-terminated string in place; the write index never passes the read index. */
  method PreprocessString(str: array<Byte>, ghost n: nat)
    requires n < str.Length && str[n] == 0 && 0 !in str[..n]
    modifies str
    ensures var r := Decoded(old(str[..n])); str[..|r|] == r && str[|r|] == 0
    ensures str[n + 1..] == old(str[n + 1..])
  {
    ghost var whole, s := str[..], str[..n];
    var q := DecodeAll(str, s);
    Unread(str[..], q, n, whole, s);
    assert str[..q] == Decoded(s) by { assert s[n..] == []; }
    WriteOne(str, q, 0, n + 1);
    assert str[..q] == str[..q + 1][..q] && str[q] == str[..q + 1][q];
  }

  lemma Suffix(a: seq<Byte>, b: seq<Byte>, p: nat, q: nat)
    requires p <= q <= |a| == |b| && a[p..] == b[p..]
    ensures a[q..] == b[q..]
  {
    assert a[q..] == a[p..][q - p..];
  }
}
