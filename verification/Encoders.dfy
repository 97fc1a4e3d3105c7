/** `Encoder`: emitting the jumps and the counter stub, and what they do when executed. */
module Encoders {
  import opened Words
  import opened Memories
  import opened Wrappers
  import opened X86

  const REL_JMP_SIZE: nat := 5

  /** `jmp [rip + 0]` followed by the address it loads. */
  function PureJmp(to: Word): (bs: seq<Byte>)
    ensures |bs| == 14
  {
    [0xFF, 0x25, 0x00, 0x00, 0x00, 0x00] + WordBytes(to)
  }

  /** `jmp rel32` from `from` to `to`; `None` when they are too far apart. */
  function RelJmp(from: Word, to: Word): (bs: Option<seq<Byte>>)
    ensures bs.Some? ==> |bs.value| == REL_JMP_SIZE
  {
    var offset := Signed(Minus(to, Plus(from, REL_JMP_SIZE)));
    if FitsInt32(offset) then Some([0xE9] + Int32Bytes(offset)) else None
  }

  /** pushfq; push rax; mov rax, counter; lock inc/dec qword [rax]; pop rax; popfq */
  function CounterStub(inc: bool, counter: Word): (bs: seq<Byte>)
    ensures |bs| == 18
  {
    [0x9C] + [0x50] + ([0x48, 0xB8] + WordBytes(counter))
    + [0xF0, 0x48, 0xFF, if inc then 0x00 else 0x08] + [0x58] + [0x9D]
  }

  lemma StubInParts(inc: bool, counter: Word)
    ensures CounterStub(inc, counter)
         == [0x9C, 0x50, 0x48, 0xB8] + WordBytes(counter) + [0xF0, 0x48, 0xFF, if inc then 0x00 else 0x08]
            + [0x58] + [0x9D]
  {}

  class Encoder {
    var bytes: seq<Byte>

    constructor ()
      ensures bytes == []
    {
      bytes := [];
    }

    method AddByte(b: Byte)
      modifies this
      ensures bytes == old(bytes) + [b]
    {
      bytes := bytes + [b];
    }

    method AddBytes(bs: seq<Byte>)
      modifies this
      ensures bytes == old(bytes) + bs
    {
      for i := 0 to |bs|
        invariant bytes == old(bytes) + bs[..i]
      {
        AddByte(bs[i]);
      }
    }

    /** The `size` bytes of the object representation of `val`, lowest address first. */
    method AddRaw(val: nat, size: nat)
      modifies this
      ensures bytes == old(bytes) + LittleEndian(val, size)
    {
      var high := val;
      for i := 0 to size
        invariant bytes + LittleEndian(high, size - i) == old(bytes) + LittleEndian(val, size)
      {
        AddByte(high % 256);
        high := high / 256;
      }
      assert bytes + [] == bytes;
    }

    method AddPtr(ptr: Word)
      modifies this
      ensures bytes == old(bytes) + WordBytes(ptr)
    {
      AddRaw(ptr, 8);
    }

    method EncodePureJmp(to: Word)
      modifies this
      ensures bytes == old(bytes) + PureJmp(to)
    {
      AddBytes([0xFF, 0x25, 0x00, 0x00, 0x00, 0x00]);
      AddPtr(to);
    }

    /** Throws, leaving the bytes alone, when the distance does not fit an `int32_t`. */
    method EncodeRelJmp(from: Word, to: Word) returns (thrown: bool)
      modifies this
      ensures thrown <==> RelJmp(from, to).None?
      ensures bytes == old(bytes) + if thrown then [] else RelJmp(from, to).value
    {
      var realFrom := Plus(from, REL_JMP_SIZE);
      var offset := Signed(Minus(to, realFrom));
      if offset < -TWO31 || offset > TWO31 - 1 {
        return true;
      }
      hide LittleEndian;
      AddByte(0xE9);
      AddRaw(if offset < 0 then offset + TWO32 else offset, 4);
      return false;
    }

    /** Throws on a null counter. */
    method EncodeIncDecAtomicCounter(inc: bool, counter: Word) returns (thrown: bool)
      modifies this
      ensures thrown <==> counter == 0
      ensures bytes == old(bytes) + if thrown then [] else CounterStub(inc, counter)
    {
      if counter == 0 {
        return true;
      }
      hide WordBytes, CounterStub;
      AddByte(0x9C);
      AddByte(0x50);
      assert bytes == old(bytes) + [0x9C, 0x50];
      AddBytes([0x48, 0xB8]);
      AddPtr(counter);
      assert bytes == old(bytes) + ([0x9C, 0x50, 0x48, 0xB8] + WordBytes(counter));
      AddBytes([0xF0, 0x48, 0xFF]);
      AddByte(if inc then 0x00 else 0x08);
      ghost var tail := [0xF0, 0x48, 0xFF, if inc then 0x00 else 0x08];
      assert bytes == old(bytes) + ([0x9C, 0x50, 0x48, 0xB8] + WordBytes(counter) + tail);
      AddByte(0x58);
      AddByte(0x9D);
      StubInParts(inc, counter);
      return false;
    }
  }

  // ----- the jumps, executed

  /** A pure jump goes anywhere, and changes nothing but RIP. */
  lemma PureJmpJumps(fu: FlagUnit, s: Cpu, to: Word)
    requires Holds(s.mem, s.rip, PureJmp(to))
    ensures Step(fu, s) == Some(s.(rip := to))
  {
    var code := PureJmp(to);
    Int32RoundTrip(0);
    assert code[2..6] == Int32Bytes(0);
    assert Decode(code) == Some(JmpMem(0));
    StepExecutes(fu, s, code);
    HoldsSlice(s.mem, s.rip, code, 6, 14);
    assert code[6..14] == WordBytes(to);
    HeldWordIsLoaded(s.mem, Plus(s.rip, 6), to);
  }

  /** A relative jump can be encoded exactly when some 32-bit distance leads to its target. */
  lemma RelJmpExactlyWhen(from: Word, to: Word)
    ensures RelJmp(from, to).Some? <==> exists d: Int32 :: Plus(Plus(from, 5), d) == to
  {
    var offset := Signed(Minus(to, Plus(from, REL_JMP_SIZE)));
    if RelJmp(from, to).Some? {
      var d: Int32 := offset;
      assert Plus(Plus(from, 5), d) == to;
    }
  }

  lemma RelJmpDecodes(from: Word, to: Word, code: seq<Byte>)
    requires RelJmp(from, to).Some? && RelJmp(from, to).value <= code
    ensures Decode(code) == Some(JmpRel(32, Signed(Minus(to, Plus(from, REL_JMP_SIZE)))))
  {
    var offset := Signed(Minus(to, Plus(from, REL_JMP_SIZE)));
    assert code[1..5] == Int32Bytes(offset);
    Int32RoundTrip(offset);
  }

  /** A relative jump that could be encoded goes where it was asked to go. */
  lemma RelJmpJumps(fu: FlagUnit, s: Cpu, to: Word, code: seq<Byte>)
    requires RelJmp(s.rip, to).Some? && RelJmp(s.rip, to).value <= code
    requires Holds(s.mem, s.rip, code)
    ensures Step(fu, s) == Some(s.(rip := to))
  {
    hide Decode, Step, Int32Bytes;
    RelJmpDecodes(s.rip, to, code);
    StepExecutes(fu, s, code);
  }

  // ----- `memory::resolve_func_ptr`

  /** Where a function pointer leads: a function that starts with `jmp rel32` is followed once. */
  function ResolveFuncPtr(m: Memory, p: Word): Word {
    if p == 0 then 0
    else if m(p) == 0xE9 then
      Plus(Plus(p, Int32From(Read(m, Plus(p, 1), 4))), REL_JMP_SIZE)
    else p
  }

  /** Resolving inverts encoding. */
  lemma ResolvesEncodedJump(m: Memory, from: Word, to: Word, code: seq<Byte>)
    requires from != 0 && RelJmp(from, to).Some? && RelJmp(from, to).value <= code
    requires Holds(m, from, code)
    ensures ResolveFuncPtr(m, from) == to
  {
    var offset := Signed(Minus(to, Plus(from, REL_JMP_SIZE)));
    HoldsSlice(m, from, code, 1, 5);
    assert code[1..5] == Int32Bytes(offset);
    HeldBytesAreRead(m, Plus(from, 1), code[1..5]);
    Int32RoundTrip(offset);
    assert Minus(from, from) == 0;
  }
}
