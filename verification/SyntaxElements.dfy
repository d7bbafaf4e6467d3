/** Syntax elements as ITU-T H.264, sections 7.2, 9.1 and 9.1.1, writes them, read back with the program's bit reader.
    Every writer puts its bits in front of `rest`. */
module SyntaxElements {
  import opened Bytes
  import opened BitReader
  import opened Sps

  function Ue(k: nat, rest: seq<bool>): seq<bool> { UeCode(k) + rest }

  function SeCodeNum(v: int): nat { if v > 0 then 2 * v - 1 else -2 * v }

  function Se(v: int, rest: seq<bool>): seq<bool> { Ue(SeCodeNum(v), rest) }

  function Flag(b: bool, rest: seq<bool>): seq<bool> { [b] + rest }

  function U8(v: byte, rest: seq<bool>): seq<bool> { Binary(v, 8) + rest }

  function Ses(vs: seq<int>, rest: seq<bool>): seq<bool> {
    if |vs| == 0 then rest else Se(vs[0], Ses(vs[1..], rest))
  }

  // ----- What may be written -----

  predicate IsUe(k: nat) { k <= TWO_32 - 2 }
  predicate IsSe(v: int) { -0x7FFF_FFFF <= v <= 0x7FFF_FFFF }

  // ----- Reading back -----

  lemma ReadUe(k: nat, rest: seq<bool>)
    requires IsUe(k)
    ensures TakeUe(Ue(k, rest)) == Ok((k, rest))
  {
    hide TakeUe;
    ReadUeOfCode(k, rest);
  }

  lemma SeCodeNumReadsBack(v: int)
    requires IsSe(v)
    ensures IsUe(SeCodeNum(v)) && SeValue(SeCodeNum(v)) == -v
  {
    var n: int := SeCodeNum(v);
    assert (n + 1) % TWO_32 == n + 1;
    assert v > 0 ==> n % 2 == 1 && (n + 1) / 2 == v;
    assert v <= 0 ==> n % 2 == 0 && (n + 1) / 2 == -v;
  }

  /** Every signed code is consumed whole, and read with its sign turned round. */
  lemma ReadSe(v: int, rest: seq<bool>)
    requires IsSe(v)
    ensures TakeSe(Se(v, rest)) == Ok((-v, rest))
  {
    SeCodeNumReadsBack(v);
    hide SeCodeNum, SeValue, TakeUe, Ue;
    ReadUe(SeCodeNum(v), rest);
  }

  lemma ReadFlag(b: bool, rest: seq<bool>)
    ensures TakeBit(Flag(b, rest)) == Ok((b, rest))
  {
  }

  lemma ReadU8(v: byte, rest: seq<bool>)
    ensures TakeBits(U8(v, rest), 8) == Ok((v, rest))
  {
    assert Pow2(8) == 256;
    TakeBinary(v, 8, rest);
  }

  lemma {:induction false} ReadSes(vs: seq<int>, rest: seq<bool>)
    requires forall i | 0 <= i < |vs| :: IsSe(vs[i])
    ensures TakeSes(Ses(vs, rest), |vs|) == Ok(((), rest))
  {
    hide TakeSe, Se;
    if |vs| > 0 {
      ReadSe(vs[0], Ses(vs[1..], rest));
      ReadSes(vs[1..], rest);
    }
  }
}
