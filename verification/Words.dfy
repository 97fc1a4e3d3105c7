/**
 * 64-bit machine words with wrap-around, and the little-endian byte strings
 * that object representations have on x86-64.
 */
module Words {
  const TWO31: int := 0x8000_0000
  const TWO32: int := 0x1_0000_0000
  const TWO63: int := 0x8000_0000_0000_0000
  const TWO64: int := 0x1_0000_0000_0000_0000

  type Byte = b: int | 0 <= b < 256
  type Word = w: int | 0 <= w < 0x1_0000_0000_0000_0000
  type Int32 = v: int | -0x8000_0000 <= v < 0x8000_0000

  /** `a + k` as `uintptr_t` arithmetic does it. */
  function Plus(a: Word, k: int): Word
    requires -TWO64 <= k <= TWO64
  {
    if a + k < 0 then a + k + TWO64 else if a + k >= TWO64 then a + k - TWO64 else a + k
  }

  /** `a - b` as `uintptr_t` arithmetic does it: the distance from `b` up to `a`. */
  function Minus(a: Word, b: Word): Word {
    if a >= b then a - b else a - b + TWO64
  }

  lemma MinusOfPlus(at: Word, i: nat)
    requires i < TWO64
    ensures Minus(Plus(at, i), at) == i
  {}

  lemma PlusOfPlus(at: Word, i: nat, j: nat)
    requires i + j < TWO64
    ensures Plus(Plus(at, i), j) == Plus(at, i + j)
  {}

  /** The value of a word read as `int64_t`. */
  function Signed(w: Word): int {
    if w < TWO63 then w else w - TWO64
  }

  predicate FitsInt32(v: int) {
    -TWO31 <= v < TWO31
  }

  function LittleEndian(v: nat, n: nat): (bs: seq<Byte>)
    ensures |bs| == n
  {
    if n == 0 then [] else [v % 256] + LittleEndian(v / 256, n - 1)
  }

  function FromLittleEndian(bs: seq<Byte>): nat {
    if bs == [] then 0 else bs[0] + 256 * FromLittleEndian(bs[1..])
  }

  function Pow256(n: nat): nat {
    if n == 0 then 1 else 256 * Pow256(n - 1)
  }

  lemma {:induction false} ReadsBackWhatWasWritten(v: nat, n: nat)
    requires v < Pow256(n)
    ensures FromLittleEndian(LittleEndian(v, n)) == v
  {
    if n > 0 {
      ReadsBackWhatWasWritten(v / 256, n - 1);
    }
  }

  /** Small values stand in the first byte, and the others are zero. */
  lemma {:induction false} LowestByteFirst(v: Byte, n: nat)
    requires n > 0
    ensures LittleEndian(v, n) == [v] + seq(n - 1, _ => 0)
  {
    if n > 1 {
      LowestByteFirst(0, n - 1);
      assert [0] + seq(n - 2, _ => 0) == seq(n - 1, _ => 0);
    }
  }

  lemma {:induction false} WritesBackWhatWasRead(bs: seq<Byte>)
    ensures FromLittleEndian(bs) < Pow256(|bs|)
    ensures LittleEndian(FromLittleEndian(bs), |bs|) == bs
  {
    if bs != [] {
      WritesBackWhatWasRead(bs[1..]);
      assert FromLittleEndian(bs) / 256 == FromLittleEndian(bs[1..]);
    }
  }

  lemma WordSizes()
    ensures Pow256(4) == TWO32 && Pow256(8) == TWO64
  {
    assert Pow256(2) == 0x1_0000;
    assert Pow256(4) == TWO32;
    assert Pow256(6) == 0x1_0000_0000_0000;
  }

  /** The eight bytes of a word. */
  function WordBytes(w: Word): (bs: seq<Byte>)
    ensures |bs| == 8
  {
    LittleEndian(w, 8)
  }

  function WordFrom(bs: seq<Byte>): Word
    requires |bs| == 8
  {
    WordSizes();
    WritesBackWhatWasRead(bs);
    FromLittleEndian(bs)
  }

  lemma WordRoundTrip(w: Word)
    ensures WordFrom(WordBytes(w)) == w
  {
    WordSizes();
    ReadsBackWhatWasWritten(w, 8);
  }

  /** The four bytes of an `int32_t`, in two's complement. */
  function Int32Bytes(v: Int32): (bs: seq<Byte>)
    ensures |bs| == 4
  {
    LittleEndian(if v < 0 then v + TWO32 else v, 4)
  }

  function Int32From(bs: seq<Byte>): Int32
    requires |bs| == 4
  {
    WordSizes();
    WritesBackWhatWasRead(bs);
    var u := FromLittleEndian(bs);
    if u < TWO31 then u else u - TWO32
  }

  lemma Int32RoundTrip(v: Int32)
    ensures Int32From(Int32Bytes(v)) == v
  {
    WordSizes();
    ReadsBackWhatWasWritten(if v < 0 then v + TWO32 else v, 4);
  }

  lemma Int32Rewrite(bs: seq<Byte>)
    requires |bs| == 4
    ensures Int32Bytes(Int32From(bs)) == bs
  {
    WordSizes();
    WritesBackWhatWasRead(bs);
  }
}
