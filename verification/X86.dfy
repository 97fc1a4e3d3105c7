/**
 * A small x86-64 machine: the instructions that function heads, trampolines and
 * the counter stub are made of, their encoding, and what they do. RIP-relative
 * operands follow section 2.2.1.6 of the Intel 64 and IA-32 manual, volume 2: the
 * 32-bit displacement is added to the address of the next instruction.
 */
module X86 {
  import opened Words
  import opened Memories
  import opened Wrappers

  type Reg = r: nat | r < 16
  type Regs = rs: seq<Word> | |rs| == 16 witness seq(16, _ => 0)

  const RAX: Reg := 0
  const RSP: Reg := 4

  /** No instruction is longer than this. */
  const MAX_LENGTH: nat := 15

  /** An explicit operand, as far as relocation tells operands apart. */
  datatype Operand =
    | RipMemory(disp: Int32)                  // [rip + disp]
    | RelImmediate(width: nat, disp: Int32)   // the distance of a relative branch
    | Plain                                   // a register, another memory operand, a constant

  datatype Op =
    | Nop
    | Push(r: Reg)
    | Pop(r: Reg)
    | PushFlags
    | PopFlags
    | SubRsp(imm: Int32)
    | MovAbs(r: Reg, word: Word)
    | LockAdd(inc: bool)
    | Load(r: Reg, disp: Int32)
    | Store(r: Reg, disp: Int32)
    | Lea(r: Reg, disp: Int32)
    | StoreImm(disp: Int32, imm: Int32)
    | JmpMem(disp: Int32)
    | JmpRel(width: nat, rel: Int32)
  {
    function Length(): nat {
      match this
      case Nop | PushFlags | PopFlags => 1
      case Push(r) => if r < 8 then 1 else 2
      case Pop(r) => if r < 8 then 1 else 2
      case SubRsp(_) => 4
      case MovAbs(_, _) => 10
      case LockAdd(_) => 4
      case Load(_, _) | Store(_, _) | Lea(_, _) => 7
      case StoreImm(_, _) => 11
      case JmpMem(_) => 6
      case JmpRel(width, _) => if width == 8 then 2 else 5
    }

    function Operands(): seq<Operand> {
      match this
      case Nop | PushFlags | PopFlags => []
      case Push(_) | Pop(_) | LockAdd(_) => [Plain]
      case SubRsp(_) | MovAbs(_, _) => [Plain, Plain]
      case Load(_, d) => [Plain, RipMemory(d)]
      case Lea(_, d) => [Plain, RipMemory(d)]
      case Store(_, d) => [RipMemory(d), Plain]
      case StoreImm(d, _) => [RipMemory(d), Plain]
      case JmpMem(d) => [RipMemory(d)]
      case JmpRel(width, rel) => [RelImmediate(width, rel)]
    }

    /** Has a memory operand whose base register is RIP. */
    predicate RipRelative() {
      Load? || Store? || Lea? || StoreImm? || JmpMem?
    }

    /** Where its 32-bit displacement stands among the instruction's bytes. */
    function DispOffset(): nat
      requires RipRelative()
    {
      if JmpMem? then 2 else 3
    }

    function WithDisp(d: Int32): Op
      requires RipRelative()
    {
      match this
      case Load(r, _) => Load(r, d)
      case Store(r, _) => Store(r, d)
      case Lea(r, _) => Lea(r, d)
      case StoreImm(_, imm) => StoreImm(d, imm)
      case JmpMem(_) => JmpMem(d)
    }

    /** The absolute address of the RIP-relative operand. */
    function Target(next: Word): Word
      requires RipRelative()
    {
      Plus(next, disp)
    }
  }

  function Signed8(b: Byte): int {
    if b < 128 then b else b - 256
  }

  function DecodeRexB(c: seq<Byte>): Option<Op>
    requires |c| > 0
  {
    if |c| < 2 then None
    else if 0x50 <= c[1] < 0x58 then Some(Push(c[1] - 0x48))
    else if 0x58 <= c[1] < 0x60 then Some(Pop(c[1] - 0x50))
    else None
  }

  function DecodeRexW(c: seq<Byte>): Option<Op>
    requires |c| > 0
  {
    if |c| < 2 then None
    else if c[1] in {0x89, 0x8B, 0x8D} then
      // mod = 00, r/m = 101: a RIP-relative operand
      if |c| < 7 || c[2] >= 64 || c[2] % 8 != 5 then None
      else
        var r: Reg := c[2] / 8 + if c[0] == 0x4C then 8 else 0;
        var d := Int32From(c[3..7]);
        Some(if c[1] == 0x89 then Store(r, d) else if c[1] == 0x8B then Load(r, d) else Lea(r, d))
    else if c[0] == 0x4C then None
    else if 0xB8 <= c[1] < 0xC0 then
      if |c| < 10 then None else Some(MovAbs(c[1] - 0xB8, WordFrom(c[2..10])))
    else if c[1] == 0x83 then
      if |c| < 4 || c[2] != 0xEC then None else Some(SubRsp(Signed8(c[3])))
    else if c[1] == 0xC7 then
      if |c| < 11 || c[2] != 0x05 then None
      else Some(StoreImm(Int32From(c[3..7]), Int32From(c[7..11])))
    else None
  }

  /** The instruction that `c` starts with. */
  function Decode(c: seq<Byte>): (op: Option<Op>)
    ensures op.Some? ==> 1 <= op.value.Length() <= |c| && op.value.Length() <= MAX_LENGTH
    ensures op.Some? && op.value.JmpRel? ==> op.value.width in {8, 32}
  {
    if |c| == 0 then None
    else if c[0] == 0x90 then Some(Nop)
    else if 0x50 <= c[0] < 0x58 then Some(Push(c[0] - 0x50))
    else if 0x58 <= c[0] < 0x60 then Some(Pop(c[0] - 0x58))
    else if c[0] == 0x9C then Some(PushFlags)
    else if c[0] == 0x9D then Some(PopFlags)
    else if c[0] == 0x41 then DecodeRexB(c)
    else if c[0] == 0x48 || c[0] == 0x4C then DecodeRexW(c)
    else if c[0] == 0xEB then if |c| < 2 then None else Some(JmpRel(8, Signed8(c[1])))
    else if c[0] == 0xE9 then if |c| < 5 then None else Some(JmpRel(32, Int32From(c[1..5])))
    else if c[0] == 0xF0 then
      if |c| < 4 || c[1] != 0x48 || c[2] != 0xFF || c[3] !in {0x00, 0x08} then None
      else Some(LockAdd(c[3] == 0x00))
    else if c[0] == 0xFF then
      if |c| < 6 || c[1] != 0x25 then None else Some(JmpMem(Int32From(c[2..6])))
    else None
  }

  /** Decoding looks at the bytes of the instruction and no further. */
  lemma DecodeLooksNoFurther(c: seq<Byte>, c': seq<Byte>)
    requires Decode(c).Some?
    requires |c'| >= Decode(c).value.Length()
    requires forall i: nat | i < Decode(c).value.Length() :: c'[i] == c[i]
    ensures Decode(c') == Decode(c)
  {
    var n := Decode(c).value.Length();
    if n >= 5 { assert c'[1..5] == c[1..5]; }
    if n >= 6 { assert c'[2..6] == c[2..6]; }
    if n >= 7 { assert c'[3..7] == c[3..7]; }
    if n >= 10 { assert c'[2..10] == c[2..10]; }
    if n >= 11 { assert c'[7..11] == c[7..11]; }
  }

  /** `bs` with the four bytes at `k` overwritten by `v`. */
  function OverwriteInt32(bs: seq<Byte>, k: nat, v: Int32): (r: seq<Byte>)
    requires k + 4 <= |bs|
    ensures |r| == |bs|
    ensures forall i: nat | i < |bs| && !(k <= i < k + 4) :: r[i] == bs[i]
    ensures Int32From(r[k..k + 4]) == v
  {
    Int32RoundTrip(v);
    var r := bs[..k] + Int32Bytes(v) + bs[k + 4..];
    assert r[k..k + 4] == Int32Bytes(v);
    r
  }

  /** Overwriting the displacement changes the displacement and nothing else. */
  lemma OverwrittenDispDecodes(bs: seq<Byte>, d: Int32)
    requires Decode(bs).Some? && Decode(bs).value.RipRelative()
    ensures var op := Decode(bs).value;
            Decode(OverwriteInt32(bs, op.DispOffset(), d)) == Some(op.WithDisp(d))
  {
    var op := Decode(bs).value;
    var r := OverwriteInt32(bs, op.DispOffset(), d);
    assert r[0] == bs[0] && r[1] == bs[1];
    if op.StoreImm? {
      assert r[7..11] == bs[7..11];
    }
  }

  /** What an ALU instruction leaves in RFLAGS: operation, operands, old flags. */
  datatype AluOp = AluSub | AluInc | AluDec
  type FlagUnit = (AluOp, Word, Word, Word) -> Word

  datatype Cpu = Cpu(regs: Regs, rip: Word, flags: Word, mem: Memory)

  function SetReg(s: Cpu, r: Reg, w: Word): Cpu {
    s.(regs := s.regs[r := w])
  }

  function PushWord(s: Cpu, w: Word): Cpu {
    var sp := Plus(s.regs[RSP], -8);
    SetReg(s, RSP, sp).(mem := StoreWord(s.mem, sp, w))
  }

  /** The state after `op`, where `next` is the address of the next instruction. */
  function Exec(fu: FlagUnit, op: Op, next: Word, s: Cpu): Cpu {
    var t := s.(rip := next);
    match op
    case Nop => t
    case Push(r) => PushWord(t, s.regs[r])
    case Pop(r) => SetReg(SetReg(t, RSP, Plus(s.regs[RSP], 8)), r, LoadWord(s.mem, s.regs[RSP]))
    case PushFlags => PushWord(t, s.flags)
    case PopFlags => SetReg(t, RSP, Plus(s.regs[RSP], 8)).(flags := LoadWord(s.mem, s.regs[RSP]))
    case SubRsp(imm) =>
      var sp := s.regs[RSP];
      SetReg(t, RSP, Minus(sp, Plus(0, imm))).(flags := fu(AluSub, sp, Plus(0, imm), s.flags))
    case MovAbs(r, w) => SetReg(t, r, w)
    case LockAdd(inc) =>
      var count := LoadWord(s.mem, s.regs[RAX]);
      t.(mem := StoreWord(s.mem, s.regs[RAX], Plus(count, if inc then 1 else -1)),
         flags := fu(if inc then AluInc else AluDec, count, 1, s.flags))
    case Load(r, d) => SetReg(t, r, LoadWord(s.mem, Plus(next, d)))
    case Store(r, d) => t.(mem := StoreWord(s.mem, Plus(next, d), s.regs[r]))
    case Lea(r, d) => SetReg(t, r, Plus(next, d))
    case StoreImm(d, imm) => t.(mem := StoreWord(s.mem, Plus(next, d), Plus(0, imm)))
    case JmpMem(d) => t.(rip := LoadWord(s.mem, Plus(next, d)))
    case JmpRel(_, d) => t.(rip := Plus(next, d))
  }

  /** The data memory that `op` reads or writes. */
  ghost function Touches(op: Op, next: Word, s: Cpu): iset<Word> {
    match op
    case Push(_) => Range(Plus(s.regs[RSP], -8), 8)
    case PushFlags => Range(Plus(s.regs[RSP], -8), 8)
    case Pop(_) => Range(s.regs[RSP], 8)
    case PopFlags => Range(s.regs[RSP], 8)
    case LockAdd(_) => Range(s.regs[RAX], 8)
    case Load(_, d) => Range(Plus(next, d), 8)
    case Store(_, d) => Range(Plus(next, d), 8)
    case StoreImm(d, _) => Range(Plus(next, d), 8)
    case JmpMem(d) => Range(Plus(next, d), 8)
    case _ => iset{}
  }

  /** One instruction; `None` when the bytes at RIP are none of the instructions above. */
  function Step(fu: FlagUnit, s: Cpu): Option<Cpu> {
    match Decode(Read(s.mem, s.rip, MAX_LENGTH))
    case None => None
    case Some(op) => Some(Exec(fu, op, Plus(s.rip, op.Length()), s))
  }

  function Steps(fu: FlagUnit, n: nat, s: Cpu): Option<Cpu> {
    if n == 0 then Some(s)
    else match Step(fu, s)
      case None => None
      case Some(s') => Steps(fu, n - 1, s')
  }

  lemma {:induction false} StepsAdd(fu: FlagUnit, m: nat, n: nat, s: Cpu)
    requires Steps(fu, m, s).Some?
    ensures Steps(fu, m + n, s) == Steps(fu, n, Steps(fu, m, s).value)
  {
    hide Step;
    if m > 0 {
      StepsAdd(fu, m - 1, n, Step(fu, s).value);
    }
  }

  /** Code that stands at RIP is what the machine executes. */
  lemma StepExecutes(fu: FlagUnit, s: Cpu, code: seq<Byte>)
    requires Holds(s.mem, s.rip, code) && Decode(code).Some?
    ensures var op := Decode(code).value;
            Step(fu, s) == Some(Exec(fu, op, Plus(s.rip, op.Length()), s))
  {
    var n := Decode(code).value.Length();
    var fetched := Read(s.mem, s.rip, MAX_LENGTH);
    forall i: nat {:trigger fetched[i]} | i < n ensures fetched[i] == code[i] {
      MinusOfPlus(s.rip, i);
    }
    DecodeLooksNoFurther(code, fetched);
  }
}
