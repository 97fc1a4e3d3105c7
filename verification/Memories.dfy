/** The address space: one byte at every 64-bit address. */
module Memories {
  import opened Words

  type Memory = Word -> Byte

  /** The addresses `base`, ..., `base + n - 1`, wrapping around at 2^64. */
  ghost function Range(base: Word, n: nat): iset<Word> {
    iset a: Word | Minus(a, base) < n
  }

  /** `bs` stands at `at` in `m`. */
  ghost predicate Holds(m: Memory, at: Word, bs: seq<Byte>) {
    && |bs| < TWO64
    && forall a: Word {:trigger m(a)} | Minus(a, at) < |bs| :: m(a) == bs[Minus(a, at)]
  }

  ghost predicate AgreeOutside(m: Memory, m': Memory, r: iset<Word>) {
    forall a: Word {:trigger m(a)} {:trigger m'(a)} | a !in r :: m(a) == m'(a)
  }

  ghost predicate AgreeOn(m: Memory, m': Memory, r: iset<Word>) {
    forall a: Word {:trigger m(a)} {:trigger m'(a)} | a in r :: m(a) == m'(a)
  }

  /** The `n` bytes at `at`. */
  function Read(m: Memory, at: Word, n: nat): (bs: seq<Byte>)
    requires n < TWO64
    ensures |bs| == n
  {
    seq<Byte>(n, i requires 0 <= i < n => m(Plus(at, i)))
  }

  /** The memory after `bs` has been copied to `at`. */
  function Write(m: Memory, at: Word, bs: seq<Byte>): (r: Memory)
    requires |bs| < TWO64
    ensures Holds(r, at, bs)
    ensures AgreeOutside(m, r, Range(at, |bs|))
  {
    (a: Word) => if Minus(a, at) < |bs| then bs[Minus(a, at)] else m(a)
  }

  function LoadWord(m: Memory, at: Word): Word {
    WordFrom(Read(m, at, 8))
  }

  function StoreWord(m: Memory, at: Word, w: Word): (r: Memory)
    ensures AgreeOutside(m, r, Range(at, 8))
  {
    Write(m, at, WordBytes(w))
  }

  lemma HeldBytesAreRead(m: Memory, at: Word, bs: seq<Byte>)
    requires Holds(m, at, bs)
    ensures Read(m, at, |bs|) == bs
  {
    var x := Read(m, at, |bs|);
    forall i: nat {:trigger x[i]} | i < |bs| ensures x[i] == bs[i] {
      MinusOfPlus(at, i);
    }
  }

  lemma ReadBytesAreHeld(m: Memory, at: Word, n: nat)
    requires n < TWO64
    ensures Holds(m, at, Read(m, at, n))
  {
    var x := Read(m, at, n);
    forall a: Word {:trigger m(a)} | Minus(a, at) < |x| ensures m(a) == x[Minus(a, at)] {
      assert Plus(at, Minus(a, at)) == a;
    }
  }

  lemma HoldsFrame(m: Memory, m': Memory, at: Word, bs: seq<Byte>)
    requires Holds(m, at, bs)
    requires AgreeOn(m, m', Range(at, |bs|))
    ensures Holds(m', at, bs)
  {
    forall a: Word {:trigger m'(a)} | Minus(a, at) < |bs| ensures m'(a) == bs[Minus(a, at)] {
      assert a in Range(at, |bs|);
      assert m(a) == m'(a);
    }
  }

  /** Reading a range sees nothing of what happened outside it. */
  lemma ReadFrame(m: Memory, m': Memory, at: Word, n: nat)
    requires n < TWO64
    requires AgreeOn(m, m', Range(at, n))
    ensures Read(m, at, n) == Read(m', at, n)
  {
    ReadBytesAreHeld(m, at, n);
    HoldsFrame(m, m', at, Read(m, at, n));
    HeldBytesAreRead(m', at, Read(m, at, n));
  }

  lemma HoldsConcat(m: Memory, at: Word, xs: seq<Byte>, ys: seq<Byte>)
    requires |xs| + |ys| < TWO64
    ensures Holds(m, at, xs + ys) <==> Holds(m, at, xs) && Holds(m, Plus(at, |xs|), ys)
  {
    forall a: Word
      ensures Minus(a, at) >= |xs| ==> Minus(a, Plus(at, |xs|)) == Minus(a, at) - |xs|
      ensures Minus(a, Plus(at, |xs|)) < |ys| ==> Minus(a, at) == |xs| + Minus(a, Plus(at, |xs|))
    {}
  }

  /** A part of a held byte string is held at its own address. */
  lemma HoldsSlice(m: Memory, at: Word, bs: seq<Byte>, lo: nat, hi: nat)
    requires lo <= hi <= |bs| && Holds(m, at, bs)
    ensures Holds(m, Plus(at, lo), bs[lo..hi])
  {
    assert bs == bs[..lo] + bs[lo..];
    assert bs[lo..] == bs[lo..hi] + bs[hi..];
    HoldsConcat(m, at, bs[..lo], bs[lo..]);
    HoldsConcat(m, Plus(at, lo), bs[lo..hi], bs[hi..]);
  }

  lemma HeldWordIsLoaded(m: Memory, at: Word, w: Word)
    requires Holds(m, at, WordBytes(w))
    ensures LoadWord(m, at) == w
  {
    HeldBytesAreRead(m, at, WordBytes(w));
    WordRoundTrip(w);
  }

  lemma LoadFrame(m: Memory, m': Memory, at: Word)
    requires AgreeOn(m, m', Range(at, 8))
    ensures LoadWord(m, at) == LoadWord(m', at)
  {
    ReadFrame(m, m', at, 8);
  }

  /** Storing the same word keeps agreement outside `r`, and leaves `r` alone. */
  lemma StoreFrame(m: Memory, m': Memory, at: Word, w: Word, r: iset<Word>)
    requires AgreeOutside(m, m', r) && Range(at, 8) !! r
    ensures AgreeOutside(StoreWord(m, at, w), StoreWord(m', at, w), r)
    ensures AgreeOn(m, StoreWord(m, at, w), r)
  {
    var n, n' := StoreWord(m, at, w), StoreWord(m', at, w);
    forall a: Word {:trigger n(a)} | a !in r ensures n(a) == n'(a) {
      if a in Range(at, 8) {
      } else {
        assert n(a) == m(a) && n'(a) == m'(a);
      }
    }
    forall a: Word {:trigger m(a)} | a in r ensures m(a) == n(a) {
      assert a !in Range(at, 8);
    }
  }
}
