/** Fixed-width integers, their big-endian byte forms, and the failure types the other modules share. */
module Bytes {

  type byte = x: int | 0 <= x < 0x100
  type u16 = x: int | 0 <= x < 0x1_0000
  type u32 = x: int | 0 <= x < 0x1_0000_0000

  datatype Option<+T> = None | Some(value: T)

  datatype Result<+T, +E> = Ok(value: T) | Err(error: E) {
    predicate IsFailure() { Err? }

    function PropagateFailure<U>(): Result<U, E>
      requires Err?
    {
      Err(error)
    }

    function Extract(): T
      requires Ok?
    {
      value
    }
  }

  function U16Be(x: u16): (b: seq<byte>)
    ensures |b| == 2
  {
    [x / 0x100, x % 0x100]
  }

  function FromU16Be(b: seq<byte>): u16
    requires |b| == 2
  {
    b[0] as int * 0x100 + b[1] as int
  }

  function U32Be(x: u32): (b: seq<byte>)
    ensures |b| == 4
  {
    [x / 0x100_0000, x / 0x1_0000 % 0x100, x / 0x100 % 0x100, x % 0x100]
  }

  function FromU32Be(b: seq<byte>): u32
    requires |b| == 4
  {
    b[0] as int * 0x100_0000 + b[1] as int * 0x1_0000 + b[2] as int * 0x100 + b[3] as int
  }

  /** Reading and writing a 16-bit field undo each other, whichever comes first. */
  lemma U16Inverse(x: u16, b: seq<byte>)
    requires |b| == 2
    ensures FromU16Be(U16Be(x)) == x
    ensures U16Be(FromU16Be(b)) == b
  {
    assert FromU16Be(b) / 0x100 == b[0];
  }

  /** Reading and writing a 32-bit field undo each other, whichever comes first. */
  lemma U32Inverse(x: u32, b: seq<byte>)
    requires |b| == 4
    ensures FromU32Be(U32Be(x)) == x
    ensures U32Be(FromU32Be(b)) == b
  {
    assert x == x / 0x100 * 0x100 + x % 0x100;
    assert x / 0x100 == x / 0x1_0000 * 0x100 + x / 0x100 % 0x100;
    assert x / 0x1_0000 == x / 0x100_0000 * 0x100 + x / 0x1_0000 % 0x100;
    var y, b0: int, b1: int, b2: int := FromU32Be(b), b[0], b[1], b[2];
    assert y / 0x100 == b0 * 0x1_0000 + b1 * 0x100 + b2;
    assert y / 0x1_0000 == b0 * 0x100 + b1;
    assert y / 0x100_0000 == b0;
  }

  /** Most significant byte first. */
  lemma BigEndian(x: u16, y: u32)
    ensures var b := U16Be(x);
            x == 0x100 * b[0] as int + b[1] as int
    ensures var b := U32Be(y);
            y == 0x100_0000 * b[0] as int + 0x1_0000 * b[1] as int + 0x100 * b[2] as int + b[3] as int
  {
    U32Inverse(y, U32Be(y));
  }

  lemma ConcatAssoc<T>(a: seq<T>, b: seq<T>, c: seq<T>)
    ensures a + (b + c) == (a + b) + c
  {
  }

  lemma SliceOfSlice<T>(s: seq<T>, lo: nat, hi: nat, i: nat, j: nat)
    requires lo <= hi <= |s| && i <= j <= hi - lo
    ensures s[lo..hi][i..j] == s[lo + i..lo + j]
  {
    var t, u := s[lo..hi], s[lo + i..lo + j];
    forall k | 0 <= k < j - i ensures t[i..j][k] == u[k] {}
  }

  /** The 32-bit words held in a byte string of whole words. */
  function Words(b: seq<byte>): (ws: seq<u32>)
    ensures |ws| == |b| / 4
  {
    if |b| < 4 then [] else Words(b[..|b| - 4]) + [FromU32Be(b[|b| - 4..])]
  }

  function WordBytes(ws: seq<u32>): (b: seq<byte>)
    ensures |b| == 4 * |ws|
  {
    if |ws| == 0 then [] else WordBytes(ws[..|ws| - 1]) + U32Be(ws[|ws| - 1])
  }

  lemma {:induction false} WordsOfWordBytes(ws: seq<u32>)
    ensures Words(WordBytes(ws)) == ws
  {
    if |ws| > 0 {
      var init, last := ws[..|ws| - 1], ws[|ws| - 1];
      WordsOfWordBytes(init);
      U32Inverse(last, U32Be(last));
      var b := WordBytes(ws);
      assert b[..|b| - 4] == WordBytes(init) && b[|b| - 4..] == U32Be(last);
    }
  }

  lemma {:induction false} WordBytesOfWords(b: seq<byte>)
    requires |b| % 4 == 0
    ensures WordBytes(Words(b)) == b
  {
    if |b| >= 4 {
      WordBytesOfWords(b[..|b| - 4]);
      U32Inverse(0, b[|b| - 4..]);
      var ws := Words(b);
      assert ws[..|ws| - 1] == Words(b[..|b| - 4]);
    }
  }
}
