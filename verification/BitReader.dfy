/** Reading an H.264 RBSP bit by bit, and the Exp-Golomb code (ITU-T H.264, section 9.1). */
module BitReader {
  import opened Bytes

  datatype BitError = OutOfBounds | TooManyBits

  /** A value read off the front of a bit string, with the bits that are left. */
  type Take<T> = Result<(T, seq<bool>), BitError>

  const TWO_32 := 0x1_0000_0000

  function Pow2(n: nat): (p: nat)
    ensures p > 0
  {
    if n == 0 then 1 else 2 * Pow2(n - 1)
  }

  // ----- Bits of bytes -----

  /** Bit `k` of a byte string, the most significant bit of each byte first. */
  function BitAt(data: seq<byte>, k: nat): bool
    requires k < 8 * |data|
  {
    data[k / 8] / Pow2(7 - k % 8) % 2 != 0
  }

  function BitsOf(data: seq<byte>): (b: seq<bool>)
    ensures |b| == 8 * |data|
  {
    seq(8 * |data|, k requires 0 <= k < 8 * |data| => BitAt(data, k))
  }

  /** An unsigned number, most significant bit first. */
  function BitsValue(b: seq<bool>): (v: nat)
    ensures v < Pow2(|b|)
  {
    if |b| == 0 then 0 else 2 * BitsValue(b[..|b| - 1]) + if b[|b| - 1] then 1 else 0
  }

  // ----- What each read takes -----

  function TakeBit(s: seq<bool>): Take<bool> {
    if |s| == 0 then Err(OutOfBounds) else Ok((s[0], s[1..]))
  }

  function TakeBits(s: seq<bool>, n: nat): (r: Take<u32>)
  {
    if n > 32 then Err(TooManyBits)
    else if n > |s| then Err(OutOfBounds)
    else Pow2Monotone(n, 32); assert Pow2(32) == TWO_32 by { Pow2Of32(); } Ok((BitsValue(s[..n]), s[n..]))
  }

  function LeadingZeros(s: seq<bool>): (n: nat)
    ensures n <= |s| && (forall i | 0 <= i < n :: !s[i]) && (n < |s| ==> s[n])
  {
    if |s| == 0 || s[0] then 0 else 1 + LeadingZeros(s[1..])
  }

  function TakeZeros(s: seq<bool>): (r: Take<nat>)
    ensures r.Ok? ==> r.value.0 == LeadingZeros(s) < |s| && r.value.1 == s[LeadingZeros(s) + 1..]
  {
    if LeadingZeros(s) == |s| then Err(OutOfBounds) else Ok((LeadingZeros(s), s[LeadingZeros(s) + 1..]))
  }

  /** `(1 << zeros) - 1 + suffix` on 32-bit integers: the shift uses the low five bits of `zeros`, the sum wraps. */
  function UeValue(zeros: nat, suffix: u32): u32 {
    (Pow2(zeros % 32) - 1 + suffix as int) % TWO_32
  }

  /** The zero count cast to a byte. */
  function SuffixWidth(zeros: nat): (n: byte)
    ensures zeros < 256 ==> n == zeros
  {
    zeros % 256
  }

  /** An unsigned code as the program reads it. */
  function TakeUe(s: seq<bool>): Take<u32> {
    var (zeros, tail) :- TakeZeros(s);
    if zeros == 0 then Ok((0, tail)) else
    var (suffix, rest) :- TakeBits(tail, SuffixWidth(zeros));
    Ok((UeValue(zeros, suffix), rest))
  }

  /** A signed code as the program reads it; the signs are the opposite of section 9.1.1. */
  function TakeSe(s: seq<bool>): Take<int> {
    var (ue, rest) :- TakeUe(s);
    Ok((SeValue(ue), rest))
  }

  function SeValue(ue: u32): int {
    var value := (ue as int + 1) % TWO_32 / 2;
    if ue % 2 == 0 then value else -value
  }

  lemma Pow2Monotone(m: nat, n: nat)
    requires m <= n
    ensures Pow2(m) <= Pow2(n)
    decreases n
  {
    if m < n { Pow2Monotone(m, n - 1); }
  }

  lemma Pow2Sum(m: nat, n: nat)
    ensures Pow2(m + n) == Pow2(m) * Pow2(n)
    decreases n
  {
    if n > 0 {
      Pow2Sum(m, n - 1);
      assert Pow2(m + n) == 2 * Pow2(m + (n - 1));
    }
  }

  lemma Pow2Of32()
    ensures Pow2(32) == TWO_32
  {
    assert Pow2(8) == 256;
    Pow2Sum(8, 8);
    Pow2Sum(16, 16);
  }

  // ----- The reader -----

  /** The program's reader did on its data what the bit string says. */
  ghost predicate Agrees<T(!new)>(r: Result<T, BitError>, unread: seq<bool>, take: Take<T>) {
    match take
    case Ok((value, rest)) => r == Ok(value) && unread == rest
    case Err(e) => r == Err(e)
  }

  class BitIter {
    const data: seq<byte>
    var bytePos: nat
    var bitPos: nat

    constructor (data: seq<byte>)
      ensures Valid() && this.data == data && Unread() == BitsOf(data)
    {
      this.data := data;
      bytePos, bitPos := 0, 0;
    }

    ghost predicate Valid()
      reads this
    {
      bitPos < 8 && 8 * bytePos + bitPos <= 8 * |data|
    }

    ghost function Unread(): seq<bool>
      requires Valid()
      reads this
    {
      BitsOf(data)[8 * bytePos + bitPos..]
    }

    method ReadBit() returns (r: Result<bool, BitError>)
      requires Valid()
      modifies this
      ensures Valid() && Agrees(r, Unread(), TakeBit(old(Unread())))
    {
      if bytePos >= |data| { return Err(OutOfBounds); }
      ghost var k := 8 * bytePos + bitPos;
      assert k / 8 == bytePos && k % 8 == bitPos;
      var bit := data[bytePos] / Pow2(7 - bitPos) % 2;
      assert Unread()[0] == (bit != 0);
      bitPos := bitPos + 1;
      if bitPos >= 8 {
        bitPos := 0;
        bytePos := bytePos + 1;
      }
      assert 8 * bytePos + bitPos == k + 1;
      r := Ok(bit != 0);
    }

    method ReadBits(n: nat) returns (r: Result<u32, BitError>)
      requires Valid()
      modifies this
      ensures Valid() && Agrees(r, Unread(), TakeBits(old(Unread()), n))
    {
      if n > 32 { return Err(TooManyBits); }
      ghost var bits := Unread();
      var result: u32 := 0;
      for i := 0 to n
        invariant Valid()
        invariant i <= |bits| && Unread() == bits[i..] && result == BitsValue(bits[..i])
      {
        var bit :- ReadBit();
        assert bits[..i + 1][..i] == bits[..i];
        BitsValueFits(bits[..i + 1]);
        result := result * 2 + if bit then 1 else 0;
      }
      r := Ok(result);
    }

    method ReadLeadingZeros() returns (r: Result<nat, BitError>)
      requires Valid()
      modifies this
      ensures Valid() && Agrees(r, Unread(), TakeZeros(old(Unread())))
    {
      ghost var bits := Unread();
      var leadingZeroes := 0;
      var bit :- ReadBit();
      while !bit
        invariant Valid()
        invariant leadingZeroes < |bits| && Unread() == bits[leadingZeroes + 1..] && bit == bits[leadingZeroes]
        invariant LeadingZeros(bits) == leadingZeroes + LeadingZeros(bits[leadingZeroes..])
        decreases |Unread()|
      {
        assert bits[leadingZeroes..][1..] == bits[leadingZeroes + 1..];
        bit :- ReadBit();
        leadingZeroes := leadingZeroes + 1;
      }
      r := Ok(leadingZeroes);
    }

    method ReadExpGolomb() returns (r: Result<u32, BitError>)
      requires Valid()
      modifies this
      ensures Valid() && Agrees(r, Unread(), TakeUe(old(Unread())))
    {
      hide UeValue, TakeBits, TakeZeros, BitsOf;
      var leadingZeroes :- ReadLeadingZeros();
      if leadingZeroes == 0 { return Ok(0); }
      var value :- ReadBits(SuffixWidth(leadingZeroes));
      r := Ok(UeValue(leadingZeroes, value));
    }

    method ReadSignedExpGolomb() returns (r: Result<int, BitError>)
      requires Valid()
      modifies this
      ensures Valid() && Agrees(r, Unread(), TakeSe(old(Unread())))
    {
      hide TakeUe, BitsOf, SeValue;
      var ue :- ReadExpGolomb();
      r := Ok(SeValue(ue));
    }
  }

  lemma BitsValueFits(b: seq<bool>)
    requires |b| <= 32
    ensures BitsValue(b) < TWO_32
  {
    Pow2Monotone(|b|, 32);
    Pow2Of32();
  }

  // ----- The Exp-Golomb code -----

  function Log2(n: nat): (k: nat)
    requires n > 0
    ensures Pow2(k) <= n < 2 * Pow2(k)
  {
    if n == 1 then 0 else 1 + Log2(n / 2)
  }

  /** `v` in `n` bits, most significant bit first. */
  function Binary(v: nat, n: nat): (b: seq<bool>)
    ensures |b| == n
  {
    if n == 0 then [] else Binary(v / 2, n - 1) + [v % 2 == 1]
  }

  /** The code of `k` in section 9.1: as many zeros as `k + 1` has bits after its leading one, then `k + 1`. */
  function UeCode(k: nat): (b: seq<bool>)
    ensures |b| == 2 * Log2(k + 1) + 1
  {
    var m := Log2(k + 1);
    seq(m, _ => false) + ([true] + Binary(k + 1 - Pow2(m), m))
  }

  lemma {:induction false} BinaryValue(v: nat, n: nat)
    requires v < Pow2(n)
    ensures BitsValue(Binary(v, n)) == v
  {
    if n > 0 {
      BinaryValue(v / 2, n - 1);
      var b := Binary(v, n);
      assert b[..n - 1] == Binary(v / 2, n - 1);
    }
  }

  lemma {:induction false} BinaryOfValue(b: seq<bool>)
    ensures Binary(BitsValue(b), |b|) == b
  {
    if |b| > 0 {
      BinaryOfValue(b[..|b| - 1]);
    }
  }

  lemma {:induction false} ZerosLead(m: nat, tail: seq<bool>)
    ensures LeadingZeros(seq(m, _ => false) + ([true] + tail)) == m
  {
    var s := seq(m, _ => false) + ([true] + tail);
    if m > 0 {
      ZerosLead(m - 1, tail);
      assert s[1..] == seq(m - 1, _ => false) + ([true] + tail);
    }
  }

  lemma Log2Unique(n: nat, k: nat)
    requires n > 0 && Pow2(k) <= n < 2 * Pow2(k)
    ensures Log2(n) == k
  {
  }

  lemma ZerosOfCode(k: nat, rest: seq<bool>)
    ensures var m := Log2(k + 1);
            TakeZeros(UeCode(k) + rest) == Ok((m, Binary(k + 1 - Pow2(m), m) + rest))
  {
    var m, s := Log2(k + 1), UeCode(k) + rest;
    var suffix := Binary(k + 1 - Pow2(m), m);
    hide Binary;
    assert s == seq(m, _ => false) + ([true] + (suffix + rest));
    ZerosLead(m, suffix + rest);
    assert s[m + 1..] == suffix + rest;
  }

  lemma TakeBinary(v: nat, n: nat, rest: seq<bool>)
    requires v < Pow2(n) && n <= 32
    ensures TakeBits(Binary(v, n) + rest, n) == Ok((v, rest))
  {
    var s := Binary(v, n) + rest;
    assert s[..n] == Binary(v, n) && s[n..] == rest;
    BinaryValue(v, n);
  }

  lemma UeValueExact(m: nat, suffix: nat)
    requires m < 32 && suffix < Pow2(m)
    ensures suffix < TWO_32 && UeValue(m, suffix) == Pow2(m) - 1 + suffix
  {
    Pow2Monotone(m, 31);
    Pow2Of32();
    assert Pow2(32) == 2 * Pow2(31);
    assert m % 32 == m;
  }

  lemma SmallCodeZeros(k: nat)
    requires k <= TWO_32 - 2
    ensures Log2(k + 1) < 32
  {
    Pow2Of32();
    if Log2(k + 1) >= 32 { Pow2Monotone(32, Log2(k + 1)); }
  }

  lemma ReadSmallCode(k: nat, rest: seq<bool>)
    requires k <= TWO_32 - 2
    ensures TakeUe(UeCode(k) + rest) == Ok((k, rest))
  {
    var m := Log2(k + 1);
    SmallCodeZeros(k);
    ZerosOfCode(k, rest);
    if m == 0 {
      assert k == 0 && Binary(0, 0) + rest == rest;
    } else {
      hide TakeZeros, TakeBits, Binary, UeCode, UeValue, LeadingZeros, SuffixWidth;
      TakeBinary(k + 1 - Pow2(m), m, rest);
      UeValueExact(m, k + 1 - Pow2(m));
    }
  }

  lemma ReadOverflowingCode(rest: seq<bool>)
    ensures TakeUe(UeCode(TWO_32 - 1) + rest) == Ok((0, rest))
  {
    Pow2Of32();
    Log2Unique(TWO_32, 32);
    ZerosOfCode(TWO_32 - 1, rest);
    TakeBinary(0, 32, rest);
    hide TakeZeros, TakeBits, Binary, UeCode;
  }

  /** Reading what was written: the program takes `k` and exactly its code off the bits, wherever they continue,
      if and only if `k` is one of the values 0 to 2^32 - 2 that its 32-bit result can stand for. */
  lemma ReadUeOfCode(k: nat, rest: seq<bool>)
    ensures TakeUe(UeCode(k) + rest) == Ok((k, rest)) <==> k <= TWO_32 - 2
  {
    hide TakeUe, UeCode;
    if k <= TWO_32 - 2 {
      ReadSmallCode(k, rest);
    } else if k == TWO_32 - 1 {
      ReadOverflowingCode(rest);
    }
  }

  lemma ReadUeParts(s: seq<bool>)
    requires TakeUe(s).Ok? && LeadingZeros(s) < 32
    ensures var m := LeadingZeros(s);
            && 2 * m + 1 <= |s|
            && var tail := s[m + 1..];
               TakeUe(s).value.0 == Pow2(m) - 1 + BitsValue(tail[..m]) && TakeUe(s).value.1 == tail[m..]
  {
    var m := LeadingZeros(s);
    var tail := s[m + 1..];
    hide UeValue, BitsValue, LeadingZeros, SuffixWidth;
    if m == 0 {
      assert tail[0..] == tail;
      BitsValueOfNone(tail[..0]);
    } else {
      UeValueExact(m, BitsValue(tail[..m]));
    }
  }

  lemma BitsValueOfNone(b: seq<bool>)
    requires |b| == 0
    ensures BitsValue(b) == 0 && Pow2(|b|) == 1
  {
  }

  lemma CodeShape(s: seq<bool>, m: nat)
    requires 2 * m + 1 <= |s| && (forall i | 0 <= i < m :: !s[i]) && s[m]
    ensures var tail := s[m + 1..]; s == seq(m, _ => false) + ([true] + tail[..m]) + tail[m..]
  {
    var zeros, tail := s[..m], s[m + 1..];
    assert zeros == seq(m, _ => false);
    assert s == zeros + ([true] + tail);
    assert tail == tail[..m] + tail[m..];
    ConcatAssoc([true], tail[..m], tail[m..]);
    ConcatAssoc(zeros, [true] + tail[..m], tail[m..]);
  }

  /** Every code the program reads with fewer than 32 leading zeros is the code of the value it returns. */
  lemma CodeOfReadUe(s: seq<bool>)
    requires TakeUe(s).Ok? && LeadingZeros(s) < 32
    ensures var (k, rest) := TakeUe(s).value; s == UeCode(k) + rest
  {
    hide TakeUe, UeCode, BitsValue, Pow2, LeadingZeros;
    var m := LeadingZeros(s);
    ReadUeParts(s);
    CodeShape(s, m);
    CodeFrom(m, s[m + 1..][..m]);
  }

  /** The code made of `m` zeros, a one and a suffix. */
  lemma CodeFrom(m: nat, suffix: seq<bool>)
    requires |suffix| == m
    ensures UeCode(Pow2(m) - 1 + BitsValue(suffix)) == seq(m, _ => false) + ([true] + suffix)
  {
    hide Log2, Binary, Pow2, BitsValue, UeCode;
    var n := Pow2(m) + BitsValue(suffix);
    Log2Unique(n, m);
    BinaryOfValue(suffix);
    CodeParts(n - 1, m);
    var c := UeCode(n - 1);
    assert c[..m] == seq(m, _ => false);
    assert c == c[..m] + ([true] + c[m + 1..]);
  }

  lemma CodeParts(k: nat, m: nat)
    requires Log2(k + 1) == m
    ensures var c := UeCode(k);
            && |c| == 2 * m + 1 && (forall i | 0 <= i < m :: !c[i]) && c[m]
            && c[m + 1..] == Binary(k + 1 - Pow2(m), m)
  {
    hide Log2, Binary, Pow2;
  }

  // ----- Bits to bytes -----

  lemma HalveBoth(a: int, l: int, d: int)
    requires 0 <= l < 2 && d > 0
    ensures (2 * a + l) / (2 * d) == a / d
  {
    var q, r := a / d, a % d;
    var x, y := 2 * a + l, 2 * d;
    assert x == y * q + (2 * r + l) by { assert a == d * q + r; assert y * q == 2 * (d * q); }
    QuotientIs(x, y, q, 2 * r + l);
  }

  lemma QuotientIs(x: int, d: int, q: int, r: int)
    requires d > 0 && 0 <= r < d && x == d * q + r
    ensures x / d == q
  {
    var k := x / d - q;
    assert d * k == r - x % d by { assert x == d * (x / d) + x % d; }
    assert k >= 1 ==> d * k >= d;
    assert k <= -1 ==> d * k <= -d;
  }

  lemma {:induction false} BitOfValue(b: seq<bool>, i: nat)
    requires i < |b|
    ensures BitsValue(b) / Pow2(|b| - 1 - i) % 2 != 0 <==> b[i]
  {
    var init, l := b[..|b| - 1], if b[|b| - 1] then 1 else 0;
    if i < |b| - 1 {
      HalveBoth(BitsValue(init), l, Pow2(|b| - 2 - i));
      BitOfValue(init, i);
    }
  }

  lemma BitInByte(data: seq<byte>, i: nat, j: nat)
    requires i < |data| && j < 8
    ensures BitsOf(data)[8 * i..8 * i + 8][j] <==> data[i] / Pow2(7 - j) % 2 != 0
  {
    assert (8 * i + j) / 8 == i && (8 * i + j) % 8 == j;
  }

  lemma PowersTo7()
    ensures Pow2(0) == 1 && Pow2(1) == 2 && Pow2(2) == 4 && Pow2(3) == 8
    ensures Pow2(4) == 16 && Pow2(5) == 32 && Pow2(6) == 64 && Pow2(7) == 128
  {
    assert Pow2(3) == 8;
  }

  /** A byte's bits are its value in binary, the greatest first. */
  lemma BitsOfByte(data: seq<byte>, i: nat)
    requires i < |data|
    ensures var b, x: int := BitsOf(data)[8 * i..8 * i + 8], data[i];
            && (b[0] <==> x / 128 % 2 != 0) && (b[1] <==> x / 64 % 2 != 0) && (b[2] <==> x / 32 % 2 != 0)
            && (b[3] <==> x / 16 % 2 != 0) && (b[4] <==> x / 8 % 2 != 0) && (b[5] <==> x / 4 % 2 != 0)
            && (b[6] <==> x / 2 % 2 != 0) && (b[7] <==> x / 1 % 2 != 0)
  {
    hide Pow2, BitsOf;
    PowersTo7();
    BitInByte(data, i, 0);
    BitInByte(data, i, 1);
    BitInByte(data, i, 2);
    BitInByte(data, i, 3);
    BitInByte(data, i, 4);
    BitInByte(data, i, 5);
    BitInByte(data, i, 6);
    BitInByte(data, i, 7);
  }

  /** Groups a bit string of whole bytes. */
  function Pack(b: seq<bool>): (data: seq<byte>)
    requires |b| % 8 == 0
    ensures |data| == |b| / 8
  {
    if |b| == 0 then [] else
    assert Pow2(8) == 256;
    [BitsValue(b[..8])] + Pack(b[8..])
  }

  lemma {:induction false} BitOfPack(b: seq<bool>, k: nat)
    requires |b| % 8 == 0 && k < |b|
    ensures BitAt(Pack(b), k) == b[k]
  {
    if k < 8 {
      BitOfValue(b[..8], k);
      assert k / 8 == 0 && k % 8 == k;
    } else {
      BitOfPack(b[8..], k - 8);
      assert k / 8 == 1 + (k - 8) / 8 && k % 8 == (k - 8) % 8;
    }
  }

  lemma BitsOfPack(b: seq<bool>)
    requires |b| % 8 == 0
    ensures BitsOf(Pack(b)) == b
  {
    forall k | 0 <= k < |b| ensures BitAt(Pack(b), k) == b[k] {
      BitOfPack(b, k);
    }
  }
}
