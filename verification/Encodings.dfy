/** How the instructions of the machine are encoded: what `Decode` accepts, read the other way. */
module Encodings {
  import opened Words
  import opened Memories
  import opened Wrappers
  import opened X86

  predicate FitsInt8(v: int) {
    -128 <= v < 128
  }

  /** The operands that the encodings below have room for. */
  predicate Encodable(op: Op) {
    match op
    case SubRsp(imm) => FitsInt8(imm)
    case MovAbs(r, _) => r < 8
    case JmpRel(width, rel) => width == 32 || (width == 8 && FitsInt8(rel))
    case _ => true
  }

  function Int8Byte(v: int): Byte
    requires FitsInt8(v)
  {
    if v < 0 then v + 256 else v
  }

  /** REX.W, with REX.R for the registers from R8 on, the opcode, and a RIP-relative operand. */
  function RipInstruction(opcode: Byte, r: Reg, disp: Int32): seq<Byte> {
    [if r < 8 then 0x48 else 0x4C, opcode, 8 * (r % 8) + 5] + Int32Bytes(disp)
  }

  function Encoding(op: Op): seq<Byte>
    requires Encodable(op)
  {
    match op
    case Nop => [0x90]
    case Push(r) => if r < 8 then [0x50 + r] else [0x41, 0x50 + r - 8]
    case Pop(r) => if r < 8 then [0x58 + r] else [0x41, 0x58 + r - 8]
    case PushFlags => [0x9C]
    case PopFlags => [0x9D]
    case SubRsp(imm) => [0x48, 0x83, 0xEC, Int8Byte(imm)]
    case MovAbs(r, word) => [0x48, 0xB8 + r] + WordBytes(word)
    case LockAdd(inc) => [0xF0, 0x48, 0xFF, if inc then 0x00 else 0x08]
    case Load(r, disp) => RipInstruction(0x8B, r, disp)
    case Store(r, disp) => RipInstruction(0x89, r, disp)
    case Lea(r, disp) => RipInstruction(0x8D, r, disp)
    case StoreImm(disp, imm) => [0x48, 0xC7, 0x05] + Int32Bytes(disp) + Int32Bytes(imm)
    case JmpMem(disp) => [0xFF, 0x25] + Int32Bytes(disp)
    case JmpRel(width, rel) => if width == 8 then [0xEB, Int8Byte(rel)] else [0xE9] + Int32Bytes(rel)
  }

  lemma LengthOfEncoding(op: Op)
    requires Encodable(op)
    ensures |Encoding(op)| == op.Length()
  {}

  lemma RipDecodes(opcode: Byte, r: Reg, disp: Int32)
    requires opcode in {0x89, 0x8B, 0x8D}
    ensures Decode(RipInstruction(opcode, r, disp))
         == Some(if opcode == 0x89 then Store(r, disp) else if opcode == 0x8B then Load(r, disp) else Lea(r, disp))
  {
    var c := RipInstruction(opcode, r, disp);
    assert c[3..7] == Int32Bytes(disp);
    Int32RoundTrip(disp);
    assert c[2] / 8 == r % 8 && c[2] % 8 == 5;
  }

  lemma LongDecodes(op: Op)
    requires Encodable(op) && (op.MovAbs? || op.StoreImm? || op.JmpMem? || (op.JmpRel? && op.width == 32))
    ensures Decode(Encoding(op)) == Some(op)
  {
    var c := Encoding(op);
    match op {
      case MovAbs(_, word) =>
        assert c[2..10] == WordBytes(word);
        WordRoundTrip(word);
      case StoreImm(disp, imm) =>
        assert c[3..7] == Int32Bytes(disp) && c[7..11] == Int32Bytes(imm);
        Int32RoundTrip(disp);
        Int32RoundTrip(imm);
      case JmpMem(disp) =>
        assert c[2..6] == Int32Bytes(disp);
        Int32RoundTrip(disp);
      case JmpRel(_, rel) =>
        assert c[1..5] == Int32Bytes(rel);
        Int32RoundTrip(rel);
    }
  }

  lemma EncodingDecodes(op: Op)
    requires Encodable(op)
    ensures Decode(Encoding(op)) == Some(op)
  {
    match op {
      case Load(r, disp) => RipDecodes(0x8B, r, disp);
      case Store(r, disp) => RipDecodes(0x89, r, disp);
      case Lea(r, disp) => RipDecodes(0x8D, r, disp);
      case MovAbs(_, _) => LongDecodes(op);
      case StoreImm(_, _) => LongDecodes(op);
      case JmpMem(_) => LongDecodes(op);
      case JmpRel(width, _) => if width == 32 { LongDecodes(op); }
      case _ =>
    }
  }

  ghost predicate IsEncoded(c: seq<Byte>)
    requires Decode(c).Some?
  {
    Encodable(Decode(c).value) && c[..Decode(c).value.Length()] == Encoding(Decode(c).value)
  }

  lemma RipIsEncoded(c: seq<Byte>)
    requires Decode(c).Some? && (Decode(c).value.Load? || Decode(c).value.Store? || Decode(c).value.Lea?)
    ensures IsEncoded(c)
  {
    Int32Rewrite(c[3..7]);
    hide Int32Bytes, Int32From;
    assert c[..7] == c[..3] + c[3..7];
    assert c[..3] == [c[0], c[1], c[2]];
  }

  lemma LongIsEncoded(c: seq<Byte>)
    requires Decode(c).Some?
    requires Decode(c).value.MovAbs? || Decode(c).value.StoreImm?
    ensures IsEncoded(c)
  {
    if Decode(c).value.MovAbs? {
      WritesBackWhatWasRead(c[2..10]);
      assert c[..10] == c[..2] + c[2..10] && c[..2] == [c[0], c[1]];
    } else {
      Int32Rewrite(c[3..7]);
      Int32Rewrite(c[7..11]);
      hide Int32Bytes, Int32From;
      assert c[..11] == c[..3] + c[3..7] + c[7..11] && c[..3] == [c[0], c[1], c[2]];
    }
  }

  lemma JumpIsEncoded(c: seq<Byte>)
    requires Decode(c).Some? && (Decode(c).value.JmpMem? || Decode(c).value.JmpRel?)
    ensures IsEncoded(c)
  {
    if Decode(c).value.JmpMem? {
      Int32Rewrite(c[2..6]);
      hide Int32Bytes, Int32From;
      assert c[..6] == c[..2] + c[2..6] && c[..2] == [c[0], c[1]];
    } else if Decode(c).value.width == 32 {
      Int32Rewrite(c[1..5]);
      hide Int32Bytes, Int32From;
      assert c[..5] == c[..1] + c[1..5] && c[..1] == [c[0]];
    } else {
      assert c[..2] == [c[0], c[1]];
    }
  }

  lemma ShortIsEncoded(c: seq<Byte>)
    requires Decode(c).Some?
    requires var op := Decode(c).value;
             op.Nop? || op.Push? || op.Pop? || op.PushFlags? || op.PopFlags? || op.SubRsp? || op.LockAdd?
    ensures IsEncoded(c)
  {
    hide Int32Bytes, Int32From;
    var n := Decode(c).value.Length();
    if n == 1 {
      assert c[..1] == [c[0]];
    } else if n == 2 {
      assert c[..2] == [c[0], c[1]];
    } else {
      assert c[..4] == [c[0], c[1], c[2], c[3]];
    }
  }

  /** Nothing else decodes: the bytes of a decoded instruction are its encoding. */
  lemma DecodedIsEncoding(c: seq<Byte>)
    requires Decode(c).Some?
    ensures IsEncoded(c)
  {
    hide Decode, IsEncoded;
    match Decode(c).value {
      case Load(_, _) => RipIsEncoded(c);
      case Store(_, _) => RipIsEncoded(c);
      case Lea(_, _) => RipIsEncoded(c);
      case MovAbs(_, _) => LongIsEncoded(c);
      case StoreImm(_, _) => LongIsEncoded(c);
      case JmpMem(_) => JumpIsEncoded(c);
      case JmpRel(_, _) => JumpIsEncoded(c);
      case _ => ShortIsEncoded(c);
    }
  }

  /** Code starts with an instruction exactly when it starts with the instruction's encoding. */
  lemma DecodesExactlyWhen(c: seq<Byte>, op: Op)
    ensures Decode(c) == Some(op) <==> Encodable(op) && Encoding(op) <= c
  {
    hide Decode, Encoding;
    if Decode(c) == Some(op) {
      DecodedIsEncoding(c);
    }
    if Encodable(op) && Encoding(op) <= c {
      EncodingDecodes(op);
      LengthOfEncoding(op);
      DecodeLooksNoFurther(Encoding(op), c);
    }
  }

  // ----- what the operands mean

  /**
   * A RIP-relative operand is the word at the address of the next instruction plus the
   * displacement: it is loaded, stored to, or jumped through, and `lea` takes its address.
   */
  lemma RipOperandMeans(fu: FlagUnit, op: Op, next: Word, s: Cpu)
    requires op.RipRelative()
    ensures var t, at := Exec(fu, op, next, s), Plus(next, op.disp);
            && (op.Load? ==> t == s.(rip := next, regs := s.regs[op.r := LoadWord(s.mem, at)]))
            && (op.Lea? ==> t == s.(rip := next, regs := s.regs[op.r := at]))
            && (op.JmpMem? ==> t == s.(rip := LoadWord(s.mem, at)))
            && (op.Store? ==> LoadWord(t.mem, at) == s.regs[op.r] && t == s.(rip := next, mem := t.mem))
            && (op.StoreImm? ==> Signed(LoadWord(t.mem, at)) == op.imm && t == s.(rip := next, mem := t.mem))
            && (op.Store? || op.StoreImm? ==> AgreeOutside(s.mem, t.mem, Range(at, 8)))
  {
    hide LoadWord;
    if op.Store? {
      HeldWordIsLoaded(StoreWord(s.mem, Plus(next, op.disp), s.regs[op.r]), Plus(next, op.disp), s.regs[op.r]);
    }
    if op.StoreImm? {
      HeldWordIsLoaded(StoreWord(s.mem, Plus(next, op.disp), Plus(0, op.imm)), Plus(next, op.disp), Plus(0, op.imm));
    }
  }

  /** `sub rsp` makes room for as many bytes as it says, and changes flags only besides. */
  lemma SubRspMeans(fu: FlagUnit, imm: Int32, next: Word, s: Cpu)
    ensures var t := Exec(fu, SubRsp(imm), next, s);
            && Plus(t.regs[RSP], imm) == s.regs[RSP]
            && t == s.(rip := next, regs := s.regs[RSP := t.regs[RSP]], flags := t.flags)
  {}
}
