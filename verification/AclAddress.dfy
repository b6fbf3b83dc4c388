/** Printing and parsing the addresses of filter rules: `any`, a dotted quad, or a quad with a prefix length. */
module AclAddress {
  import opened Bits
  import opened Addresses
  import opened Wrappers

  datatype Block = Block(ip: Word, mask: Word)

  predicate IsDigit(c: char) {
    '0' <= c <= '9'
  }

  function Digit(d: nat): char
    requires d < 10
  {
    ('0' as int + d) as char
  }

  /** Decimal notation. */
  function Dec(n: nat): (s: string)
    ensures |s| >= 1 && forall i :: 0 <= i < |s| ==> IsDigit(s[i])
  {
    if n < 10 then [Digit(n)] else Dec(n / 10) + [Digit(n % 10)]
  }

  function DigitValue(c: char): (d: nat)
    requires IsDigit(c)
    ensures d < 10 && c == Digit(d)
  {
    var d := c as int - '0' as int;
    d
  }

  function Value(s: string): nat
    requires forall i :: 0 <= i < |s| ==> IsDigit(s[i])
  {
    if s == "" then 0 else 10 * Value(s[..|s| - 1]) + DigitValue(s[|s| - 1])
  }

  /** How many digits the text begins with. */
  function DigitsLen(s: string): (n: nat)
    ensures n <= |s| && (forall i :: 0 <= i < n ==> IsDigit(s[i])) && (n < |s| ==> !IsDigit(s[n]))
  {
    if s == "" || !IsDigit(s[0]) then 0 else 1 + DigitsLen(s[1..])
  }

  predicate IsSpace(c: char) {
    c == ' ' || '\t' <= c <= '\r'
  }

  /** atoi: blanks, a sign and digits, as far as they go. */
  function Atoi(s: string): int {
    if s == "" then 0
    else if IsSpace(s[0]) then Atoi(s[1..])
    else if s[0] == '-' then 0 - Value(s[1..][..DigitsLen(s[1..])])
    else if s[0] == '+' then Value(s[1..][..DigitsLen(s[1..])])
    else Value(s[..DigitsLen(s)])
  }

  /** The first place of a character, or the length. */
  function IndexOf(s: string, c: char): (i: nat)
    ensures i <= |s| && (i < |s| ==> s[i] == c) && forall j :: 0 <= j < i ==> s[j] != c
  {
    if s == "" || s[0] == c then 0 else 1 + IndexOf(s[1..], c)
  }

  /** An octet without leading zeros. */
  function Octet(s: string): Option<Byte> {
    if 1 <= |s| <= 3 && DigitsLen(s) == |s| && (|s| == 1 || s[0] != '0') && Value(s) < 0x100 then Some(Value(s)) else None
  }

  /** The octet before the first dot and what follows the dot. */
  function NextOctet(s: string): Option<(Byte, string)> {
    var i := IndexOf(s, '.');
    if i == |s| then None
    else match Octet(s[..i]) case None => None case Some(b) => Some((b, s[i + 1..]))
  }

  /** A dotted quad. */
  function Aton(s: string): Option<Word> {
    match NextOctet(s) case None => None case Some((a, s1)) =>
    match NextOctet(s1) case None => None case Some((b, s2)) =>
    match NextOctet(s2) case None => None case Some((c, s3)) =>
    match Octet(s3) case None => None case Some(d) => Some(Join(a, b, c, d))
  }

  predicate IsAny(s: string) {
    |s| == 3 && (s[0] == 'a' || s[0] == 'A') && (s[1] == 'n' || s[1] == 'N') && (s[2] == 'y' || s[2] == 'Y')
  }

  /** The mask of a prefix length in network order. */
  ghost function PrefixMask(cidr: nat): Word
    requires cidr <= 32
  {
    Swap(Mask(32 - cidr))
  }

  /** The text up to a slash, and the prefix length behind it; only 31 characters are looked at. */
  function SplitSlash(str: string): (string, int) {
    var s := if |str| > 31 then str[..31] else str;
    var i := IndexOf(s, '/');
    (s[..i], if i < |s| then Atoi(s[i + 1..]) else 32)
  }

  ghost function Parsed(str: string): Option<Block> {
    if IsAny(str) then Some(Block(0, 0))
    else
      var (quad, cidr) := SplitSlash(str);
      if cidr < 0 || cidr > 32 then None
      else match Aton(quad)
        case None => None
        case Some(ip) => Some(Block(And(ip, PrefixMask(cidr)), PrefixMask(cidr)))
  }

  lemma {:induction false} ShlOnes(k: nat)
    requires k <= 32
    ensures Shl(ALL_ONES, k) == 0x1_0000_0000 * (Pow2(k) - 1) + (0x1_0000_0000 - Pow2(k))
  {
    if k > 0 {
      ShlOnes(k - 1);
    }
  }

  lemma ModOfMultiple(q: nat, r: nat)
    requires r < 0x1_0000_0000
    ensures (0x1_0000_0000 * q + r) % 0x1_0000_0000 == r
  {
  }

  lemma ShiftedOnes(k: nat)
    requires k <= 32
    ensures Shl(ALL_ONES, k) % 0x1_0000_0000 == Mask(k)
  {
    ShlOnes(k);
    ModOfMultiple(Pow2(k) - 1, Mask(k));
  }

  lemma SwapZero()
    ensures Swap(0) == 0
  {
    SwapJoin(0, 0, 0, 0);
  }

  /** The mask of a prefix length, built by shifting and byte swapping. */
  method BuildMask(cidr: nat) returns (mask: Word)
    requires cidr <= 32
    ensures mask == PrefixMask(cidr)
  {
    if cidr == 0 {
      SwapZero();
      assert Mask(32) == 0 by { Pow2Table(); }
      mask := 0;
    } else {
      var k := 32 - cidr;
      ShiftedOnes(k);
      mask := Htonl(Shl(ALL_ONES, k) % 0x1_0000_0000);
    }
  }

  method ParseIp(str: string) returns (r: Option<Block>)
    ensures r == Parsed(str)
  {
    if IsAny(str) {
      return Some(Block(0, 0));
    }
    var (quad, cidr) := SplitSlash(str);
    if cidr < 0 || cidr > 32 {
      return None;
    }
    var ip := Aton(quad);
    if ip.None? {
      return None;
    }
    var mask := BuildMask(cidr);
    r := Some(Block(And(ip.value, mask), mask));
  }

  /** The number of one bits. */
  function Ones(n: nat): nat {
    if n == 0 then 0 else n % 2 + Ones(n / 2)
  }

  method CountBits(mask: Word) returns (count: nat)
    ensures count == Ones(Swap(mask))
  {
    var m := Htonl(mask);
    count := 0;
    while m > 0
      invariant count + Ones(m) == Ones(Swap(mask))
    {
      count := count + m % 2;
      m := m / 2;
    }
  }

  /** The four octets of an address in decimal, with dots between them. */
  function Quad(a: Byte, b: Byte, c: Byte, d: Byte): string {
    Dec(a) + "." + Dec(b) + "." + Dec(c) + "." + Dec(d)
  }

  function QuadOf(ip: Word): string {
    var q1: nat := ip / 0x100;
    var q2: nat := q1 / 0x100;
    Quad(ip % 0x100, q1 % 0x100, q2 % 0x100, q2 / 0x100)
  }

  ghost function Text(ip: Word, mask: Word): string {
    if ip == 0 && mask == 0 then "any"
    else if mask == ALL_ONES then QuadOf(ip)
    else QuadOf(ip) + "/" + Dec(Ones(Swap(mask)))
  }

  /** Prints into a buffer of `bufLen` bytes, the last of which ends the string; an empty buffer stays untouched. */
  method FormatIp(ip: Word, mask: Word, bufLen: nat) returns (text: string)
    ensures var t := Text(ip, mask); text == if bufLen == 0 then "" else if |t| < bufLen then t else t[..bufLen - 1]
  {
    if bufLen == 0 {
      return "";
    }
    var t;
    if ip == 0 && mask == 0 {
      t := "any";
    } else if mask == ALL_ONES {
      t := QuadOf(ip);
    } else {
      var cidr := CountBits(mask);
      t := QuadOf(ip) + "/" + Dec(cidr);
    }
    text := if |t| < bufLen then t else t[..bufLen - 1];
  }

  /** A contiguous mask of k host bits has 32 - k ones. */
  lemma OnesDouble(m: nat, i: nat)
    requires i < 2
    ensures Ones(2 * m + i) == Ones(m) + i
  {
  }

  lemma {:induction false} OnesOfHighBits(n: nat, k: nat)
    requires k <= n && Pow2(k) <= Pow2(n)
    ensures Ones(Pow2(n) - Pow2(k)) == n - k
    decreases n
  {
    if k == n {
      assert Ones(0) == 0;
    } else if k == 0 {
      var m := Pow2(n - 1) - 1;
      assert Ones(m) == n - 1 by { OnesOfHighBits(n - 1, 0); }
      OnesDouble(m, 1);
      assert Pow2(n) - Pow2(k) == 2 * m + 1;
    } else {
      Pow2Mono(k - 1, n - 1);
      var m := Pow2(n - 1) - Pow2(k - 1);
      assert Ones(m) == n - k by { OnesOfHighBits(n - 1, k - 1); }
      OnesDouble(m, 0);
      assert Pow2(n) - Pow2(k) == 2 * m + 0;
    }
  }

  lemma OnesOfMask(k: nat)
    requires k <= 32
    ensures Ones(Mask(k)) == 32 - k
  {
    Pow2Table();
    Pow2Mono(k, 32);
    OnesOfHighBits(32, k);
  }

  lemma {:induction false} OnesBound(m: nat, n: nat)
    requires m < Pow2(n)
    ensures Ones(m) <= n
    decreases n
  {
    if n > 0 {
      OnesBound(m / 2, n - 1);
    } else {
      assert m == 0;
    }
  }

  lemma {:induction false} AllDigits(s: string, rest: string)
    requires forall i :: 0 <= i < |s| ==> IsDigit(s[i])
    requires rest == "" || !IsDigit(rest[0])
    ensures DigitsLen(s + rest) == |s|
  {
    if s == "" {
      assert s + rest == rest;
    } else {
      AllDigits(s[1..], rest);
      assert (s + rest)[1..] == s[1..] + rest;
    }
  }

  lemma {:induction false} ValueOfDec(n: nat)
    ensures Value(Dec(n)) == n && (n > 0 ==> Dec(n)[0] != '0')
    ensures (n < 10 ==> |Dec(n)| == 1) && (n < 100 ==> |Dec(n)| <= 2) && (n < 1000 ==> |Dec(n)| <= 3)
  {
    if n < 10 {
      assert Value([Digit(n)]) == 10 * Value([]) + n;
    } else {
      ValueOfDec(n / 10);
      var s, t := Dec(n), Dec(n / 10);
      assert s[..|s| - 1] == t;
    }
  }

  lemma OctetOfDec(b: Byte)
    ensures Octet(Dec(b)) == Some(b)
  {
    ValueOfDec(b);
    AllDigits(Dec(b), "");
    assert Dec(b) + "" == Dec(b);
  }

  lemma AtoiOfDec(n: nat)
    ensures Atoi(Dec(n)) == n
  {
    ValueOfDec(n);
    AllDigits(Dec(n), "");
    assert Dec(n) + "" == Dec(n);
    assert Dec(n)[..|Dec(n)|] == Dec(n);
  }

  lemma {:induction false} IndexAfter(s: string, c: char, rest: string)
    requires c !in s
    ensures IndexOf(s + [c] + rest, c) == |s|
  {
    if s == "" {
      assert (s + [c] + rest)[0] == c;
    } else {
      IndexAfter(s[1..], c, rest);
      assert (s + [c] + rest)[1..] == s[1..] + [c] + rest;
    }
  }

  lemma NextOctetOfDec(b: Byte, s: string, rest: string)
    requires s == Dec(b) + "." + rest
    ensures NextOctet(s) == Some((b, rest))
  {
    IndexAfter(Dec(b), '.', rest);
    OctetOfDec(b);
    var i := IndexOf(s, '.');
    assert s[..i] == Dec(b) && s[i + 1..] == rest;
  }

  /** Reading a printed quad gives the address back. */
  lemma AtonOfQuad(a: Byte, b: Byte, c: Byte, d: Byte)
    ensures Aton(Quad(a, b, c, d)) == Some(Join(a, b, c, d))
  {
    var s3 := Dec(d);
    var s2 := Dec(c) + "." + s3;
    var s1 := Dec(b) + "." + s2;
    var s := Dec(a) + "." + s1;
    assert Quad(a, b, c, d) == s;
    NextOctetOfDec(a, s, s1);
    NextOctetOfDec(b, s1, s2);
    NextOctetOfDec(c, s2, s3);
    OctetOfDec(d);
  }

  lemma QuadOfWord(ip: Word)
    ensures Aton(QuadOf(ip)) == Some(ip)
  {
    var q1: nat := ip / 0x100;
    var q2: nat := q1 / 0x100;
    var a: Byte, b: Byte, c: Byte, d: Byte := ip % 0x100, q1 % 0x100, q2 % 0x100, q2 / 0x100;
    AtonOfQuad(a, b, c, d);
    assert ip == Join(a, b, c, d);
  }

  lemma QuadShape(ip: Word)
    ensures 7 <= |QuadOf(ip)| <= 15 && '/' !in QuadOf(ip) && IsDigit(QuadOf(ip)[0])
  {
    var q1: nat := ip / 0x100;
    var q2: nat := q1 / 0x100;
    ValueOfDec(ip % 0x100);
    ValueOfDec(q1 % 0x100);
    ValueOfDec(q2 % 0x100);
    ValueOfDec(q2 / 0x100);
  }

  lemma SplitPlain(s: string)
    requires |s| <= 31 && '/' !in s
    ensures SplitSlash(s) == (s, 32)
  {
    assert s[..|s|] == s;
  }

  lemma SplitCidr(quad: string, cidr: nat)
    requires |quad| <= 15 && '/' !in quad && |Dec(cidr)| <= 15
    ensures SplitSlash(quad + "/" + Dec(cidr)) == (quad, cidr)
  {
    var s := quad + "/" + Dec(cidr);
    IndexAfter(quad, '/', Dec(cidr));
    AtoiOfDec(cidr);
    var i := IndexOf(s, '/');
    assert s[..i] == quad && s[i + 1..] == Dec(cidr);
  }

  lemma ParsedQuad(ip: Word)
    ensures Parsed(QuadOf(ip)) == Some(Block(And(ip, PrefixMask(32)), PrefixMask(32)))
  {
    QuadShape(ip);
    QuadOfWord(ip);
    SplitPlain(QuadOf(ip));
  }

  lemma ParsedCidr(ip: Word, cidr: nat)
    requires cidr <= 32
    ensures Parsed(QuadOf(ip) + "/" + Dec(cidr)) == Some(Block(And(ip, PrefixMask(cidr)), PrefixMask(cidr)))
  {
    QuadShape(ip);
    QuadOfWord(ip);
    ValueOfDec(cidr);
    SplitCidr(QuadOf(ip), cidr);
  }

  lemma TextLength(ip: Word, mask: Word)
    requires Ones(Swap(mask)) <= 32
    ensures |Text(ip, mask)| <= 18
  {
    QuadShape(ip);
    ValueOfDec(Ones(Swap(mask)));
  }

  /** What parsing a printed address gives: the prefix mask with as many ones, and the address masked with it. */
  lemma ParsedText(ip: Word, mask: Word, cidr: nat)
    requires cidr == Ones(Swap(mask)) <= 32
    ensures Parsed(Text(ip, mask)) == Some(Block(And(ip, PrefixMask(cidr)), PrefixMask(cidr)))
  {
    if ip == 0 && mask == 0 {
      ParsedAny(cidr);
    } else if mask == ALL_ONES {
      FullMask();
      ParsedQuad(ip);
    } else {
      ParsedCidr(ip, cidr);
    }
  }

  lemma ParsedAny(cidr: nat)
    requires cidr == Ones(Swap(0))
    ensures cidr == 0 && Parsed("any") == Some(Block(0, 0)) && PrefixMask(0) == 0
  {
    SwapZero();
    ZeroMask();
  }

  lemma ZeroMask()
    ensures PrefixMask(0) == 0
  {
    SwapZero();
    Pow2Table();
  }

  lemma FullMask()
    ensures Ones(Swap(ALL_ONES)) == 32
  {
    SwapOnes();
    OnesOfMask(0);
  }

  lemma SwapOnes()
    ensures Swap(ALL_ONES) == ALL_ONES && ALL_ONES == Mask(0)
  {
    assert Join(255, 255, 255, 255) == ALL_ONES;
    SwapJoin(255, 255, 255, 255);
  }

  lemma PrefixMaskExactly(mask: Word, cidr: nat)
    requires cidr == Ones(Swap(mask)) <= 32
    ensures PrefixMask(cidr) == mask <==> Contiguous(Swap(mask))
  {
    SwapTwice(mask);
    SwapTwice(Mask(32 - cidr));
    if Contiguous(Swap(mask)) {
      var k :| 0 <= k <= 32 && Swap(mask) == Mask(k);
      OnesOfMask(k);
    }
  }

  /** How an address is printed: `any`, the four octets in decimal, or those and the prefix length. */
  lemma TextForms(ip: Word, cidr: nat)
    requires cidr <= 32
    ensures Text(ip, PrefixMask(cidr)) ==
              if cidr == 0 && ip == 0 then "any" else if cidr == 32 then QuadOf(ip) else QuadOf(ip) + "/" + Dec(cidr)
  {
    PrefixEnds(cidr);
    PrefixOnes(cidr);
  }

  lemma PrefixOnes(cidr: nat)
    requires cidr <= 32
    ensures Ones(Swap(PrefixMask(cidr))) == cidr
  {
    SwapTwice(Mask(32 - cidr));
    OnesOfMask(32 - cidr);
  }

  /** The octets are printed in their order on the wire. */
  lemma QuadOfJoin(a: Byte, b: Byte, c: Byte, d: Byte)
    ensures QuadOf(Join(a, b, c, d)) == Dec(a) + "." + Dec(b) + "." + Dec(c) + "." + Dec(d)
  {
    var ip := Join(a, b, c, d);
    var q1: nat := ip / 0x100;
    var q2: nat := q1 / 0x100;
    assert ip % 0x100 == a && q1 == b + 0x100 * (c + 0x100 * d);
    assert q1 % 0x100 == b && q2 == c + 0x100 * d;
    assert q2 % 0x100 == c && q2 / 0x100 == d;
  }

  /** Only the prefix length 0 has the mask 0, and only 32 the mask of all ones. */
  lemma PrefixEnds(cidr: nat)
    requires cidr <= 32
    ensures PrefixMask(cidr) == 0 <==> cidr == 0
    ensures PrefixMask(cidr) == ALL_ONES <==> cidr == 32
  {
    ZeroMask();
    SwapOnes();
    SwapTwice(Mask(32 - cidr));
    OnesOfMask(32 - cidr);
    OnesOfMask(0);
    OnesOfMask(32);
    if PrefixMask(cidr) == 0 {
      SwapZero();
      assert Mask(32 - cidr) == 0 && Ones(0) == 0;
    }
    if PrefixMask(cidr) == ALL_ONES {
      assert Mask(32 - cidr) == Mask(0);
    }
  }

  /** The word `any` is read in any case. */
  lemma ParsedAnyCase(s: string)
    requires |s| == 3 && s[0] in "aA" && s[1] in "nN" && s[2] in "yY"
    ensures Parsed(s) == Some(Block(0, 0))
  {
  }

  /** A quad with a prefix length is a block of that length, which must not exceed 32. */
  lemma ParsedPrefix(ip: Word, n: nat)
    requires |Dec(n)| <= 15
    ensures Parsed(QuadOf(ip) + "/" + Dec(n)) ==
              if n <= 32 then Some(Block(And(ip, PrefixMask(n)), PrefixMask(n))) else None
  {
    if n <= 32 {
      ParsedCidr(ip, n);
    } else {
      ParsedTooLong(ip, n);
    }
  }

  lemma ParsedTooLong(ip: Word, n: nat)
    requires n > 32 && |Dec(n)| <= 15
    ensures Parsed(QuadOf(ip) + "/" + Dec(n)) == None
  {
    QuadShape(ip);
    SplitCidr(QuadOf(ip), n);
  }

  /** Printing and parsing gives an address and mask back exactly if the mask is a prefix mask and the address masked. */
  lemma RoundTrip(ip: Word, mask: Word)
    ensures Parsed(Text(ip, mask)) == Some(Block(ip, mask)) <==> Contiguous(Swap(mask)) && And(ip, mask) == ip
    ensures |Text(ip, mask)| <= 18
  {
    var cidr := Ones(Swap(mask));
    assert cidr <= 32 by {
      Pow2Table();
      OnesBound(Swap(mask), 32);
    }
    ParsedText(ip, mask, cidr);
    TextLength(ip, mask);
    PrefixMaskExactly(mask, cidr);
  }

  lemma ContiguousZero()
    ensures Contiguous(Swap(0)) && And(0, 0) == 0
  {
    SwapZero();
    assert Mask(32) == 0 by { Pow2Table(); }
  }

  lemma ParsedShape(ip: Word, cidr: nat)
    requires cidr <= 32
    ensures var m := PrefixMask(cidr); Contiguous(Swap(m)) && And(And(ip, m), m) == And(ip, m)
  {
    var k := 32 - cidr;
    SwapTwice(Mask(k));
    MaskedTwice(ip, PrefixMask(cidr), k);
  }

  /** Whatever parsing accepts survives being printed into a buffer of 19 bytes and parsed again. */
  lemma ParsedSurvives(str: string)
    requires Parsed(str).Some?
    ensures var b := Parsed(str).value; Parsed(Text(b.ip, b.mask)) == Parsed(str)
  {
    var b := Parsed(str).value;
    if IsAny(str) {
      ContiguousZero();
    } else {
      var (quad, cidr) := SplitSlash(str);
      ParsedShape(Aton(quad).value, cidr);
    }
    RoundTrip(b.ip, b.mask);
  }

  lemma MaskedTwice(ip: Word, mask: Word, k: nat)
    requires k <= 32 && Swap(mask) == Mask(k)
    ensures And(And(ip, mask), mask) == And(ip, mask)
  {
    var x := And(ip, mask);
    AndSwap(ip, mask);
    AndSwap(x, mask);
    AndMask(Swap(ip), k);
    AndMask(Swap(x), k);
    FloorOfBlock(Swap(x), Swap(ip), k);
    SwapTwice(x);
    SwapTwice(And(x, mask));
  }
}
