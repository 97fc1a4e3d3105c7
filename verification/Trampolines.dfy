/**
 * The two trampolines of a hook: the relocated function head with its jump back, which
 * stands for the original function, and the jump to the detour.
 */
module Trampolines {
  import opened Words
  import opened Memories
  import opened Wrappers
  import opened X86
  import opened Relocation
  import opened Encoders

  /** Same registers, flags and memory, the addresses in `r` apart. */
  ghost predicate SameCpu(s: Cpu, t: Cpu, r: iset<Word>) {
    s.regs == t.regs && s.flags == t.flags && AgreeOutside(s.mem, t.mem, r)
  }

  /** How many instructions are executed before control leaves `ops`. */
  function Executed(ops: seq<Op>): nat {
    if ops == [] then 0 else if ops[0].JmpMem? then 1 else 1 + Executed(ops[1..])
  }

  /** Control leaves `ops` at the end, not by a jump. */
  predicate FallsThrough(ops: seq<Op>) {
    forall op | op in ops :: !op.JmpMem?
  }

  /** Running `ops` from `s` reads and writes nothing in `r`. */
  ghost predicate Avoids(fu: FlagUnit, s: Cpu, ops: seq<Op>, r: iset<Word>)
    decreases ops
  {
    ops == [] ||
    var next := Plus(s.rip, ops[0].Length());
    && Touches(ops[0], next, s) !! r
    && (ops[0].JmpMem? || Avoids(fu, Exec(fu, ops[0], next, s), ops[1..], r))
  }

  /** No instruction touches more than one word of memory. */
  lemma TouchesOneWord(op: Op, next: Word, s: Cpu)
    ensures Touches(op, next, s) == iset{} || exists at: Word :: Touches(op, next, s) == Range(at, 8)
  {
    match op {
      case Push(_) => assert Touches(op, next, s) == Range(Plus(s.regs[RSP], -8), 8);
      case PushFlags => assert Touches(op, next, s) == Range(Plus(s.regs[RSP], -8), 8);
      case Pop(_) => assert Touches(op, next, s) == Range(s.regs[RSP], 8);
      case PopFlags => assert Touches(op, next, s) == Range(s.regs[RSP], 8);
      case LockAdd(_) => assert Touches(op, next, s) == Range(s.regs[RAX], 8);
      case Load(_, d) => assert Touches(op, next, s) == Range(Plus(next, d), 8);
      case Store(_, d) => assert Touches(op, next, s) == Range(Plus(next, d), 8);
      case StoreImm(d, _) => assert Touches(op, next, s) == Range(Plus(next, d), 8);
      case JmpMem(d) => assert Touches(op, next, s) == Range(Plus(next, d), 8);
      case _ =>
    }
  }

  /** Only pushes and nops. */
  predicate IsPushHead(ops: seq<Op>) {
    forall op | op in ops :: op.Push? || op.Nop?
  }

  /** `n` stack slots below `sp`: the first one, and `n - 1` below it, or the last `n - 1`. */
  lemma SlotsBelow(sp: Word, n: nat)
    requires 0 < n && 8 * n < TWO64
    ensures Range(Plus(sp, -8), 8) <= Range(Plus(sp, -8 * n), 8 * n)
    ensures Range(Plus(Plus(sp, -8), -8 * (n - 1)), 8 * (n - 1)) <= Range(Plus(sp, -8 * n), 8 * n)
    ensures Range(Plus(sp, -8 * (n - 1)), 8 * (n - 1)) <= Range(Plus(sp, -8 * n), 8 * n)
  {
    forall a: Word
      ensures Minus(a, Plus(sp, -8)) < 8 ==> Minus(a, Plus(sp, -8 * n)) == 8 * (n - 1) + Minus(a, Plus(sp, -8))
      ensures Plus(Plus(sp, -8), -8 * (n - 1)) == Plus(sp, -8 * n)
      ensures Minus(a, Plus(sp, -8 * (n - 1))) < 8 * (n - 1) ==>
                Minus(a, Plus(sp, -8 * n)) == 8 + Minus(a, Plus(sp, -8 * (n - 1)))
    {}
  }

  /** A head of pushes and nops stays clear of everything but the stack slots it pushes to. */
  lemma {:induction false} PushHeadAvoids(fu: FlagUnit, s: Cpu, ops: seq<Op>, r: iset<Word>)
    requires IsPushHead(ops) && 8 * |ops| < TWO64
    requires Range(Plus(s.regs[RSP], -8 * |ops|), 8 * |ops|) !! r
    ensures Avoids(fu, s, ops, r) && FallsThrough(ops)
    decreases |ops|
  {
    hide StoreWord;
    if ops != [] {
      var sp, n := s.regs[RSP], |ops|;
      assert ops[0] in ops;
      var s' := Exec(fu, ops[0], Plus(s.rip, ops[0].Length()), s);
      SlotsBelow(sp, n);
      assert Touches(ops[0], Plus(s.rip, ops[0].Length()), s) !! r;
      assert s'.regs[RSP] == if ops[0].Push? then Plus(sp, -8) else sp;
      PushHeadAvoids(fu, s', ops[1..], r);
      assert forall op | op in ops :: op == ops[0] || op in ops[1..];
    }
  }

  // ----- one instruction

  lemma LoadsSame(s: Cpu, t: Cpu, at: Word, r: iset<Word>)
    requires AgreeOutside(s.mem, t.mem, r) && Range(at, 8) !! r
    ensures LoadWord(s.mem, at) == LoadWord(t.mem, at)
  {
    forall a: Word {:trigger s.mem(a)} | a in Range(at, 8) ensures s.mem(a) == t.mem(a) {
      assert a !in r;
    }
    LoadFrame(s.mem, t.mem, at);
  }

  lemma StoresSame(s: Cpu, t: Cpu, at: Word, w: Word, r: iset<Word>)
    requires AgreeOutside(s.mem, t.mem, r) && Range(at, 8) !! r
    ensures AgreeOutside(StoreWord(s.mem, at, w), StoreWord(t.mem, at, w), r)
    ensures AgreeOn(s.mem, StoreWord(s.mem, at, w), r) && AgreeOn(t.mem, StoreWord(t.mem, at, w), r)
  {
    StoreFrame(s.mem, t.mem, at, w, r);
    StoreFrame(t.mem, s.mem, at, w, r);
  }

  /** An instruction and its moved counterpart do the same, and leave `r` alone. */
  lemma MovedInstructionSimulates(fu: FlagUnit, op: Op, next: Word, s: Cpu, op': Op, next': Word, t: Cpu, r: iset<Word>)
    requires SameCpu(s, t, r) && Touches(op, next, s) !! r
    requires !op.JmpRel? && SameMeaning(op, next, op', next')
    ensures var s', t' := Exec(fu, op, next, s), Exec(fu, op', next', t);
            && SameCpu(s', t', r)
            && AgreeOn(s.mem, s'.mem, r) && AgreeOn(t.mem, t'.mem, r)
            && if op.JmpMem? then s'.rip == t'.rip else s'.rip == next && t'.rip == next'
  {
    hide LoadWord, StoreWord;
    var sp := s.regs[RSP];
    match op {
      case Push(reg) => StoresSame(s, t, Plus(sp, -8), s.regs[reg], r);
      case PushFlags => StoresSame(s, t, Plus(sp, -8), s.flags, r);
      case Pop(_) => LoadsSame(s, t, sp, r);
      case PopFlags => LoadsSame(s, t, sp, r);
      case LockAdd(inc) =>
        LoadsSame(s, t, s.regs[RAX], r);
        StoresSame(s, t, s.regs[RAX], Plus(LoadWord(s.mem, s.regs[RAX]), if inc then 1 else -1), r);
      case Load(_, d) => LoadsSame(s, t, Plus(next, d), r);
      case Store(reg, d) => StoresSame(s, t, Plus(next, d), s.regs[reg], r);
      case StoreImm(d, imm) => StoresSame(s, t, Plus(next, d), Plus(0, imm), r);
      case JmpMem(d) => LoadsSame(s, t, Plus(next, d), r);
      case _ =>
    }
  }

  // ----- the function head

  /** `code` stands at RIP in `s`, and its relocation `moved` at RIP in `t`, both inside `r`. */
  ghost predicate Corresponds(s: Cpu, t: Cpu, code: seq<Byte>, moved: seq<Byte>, r: iset<Word>) {
    && |code| < TWO64
    && RelocateAll(code, s.rip, t.rip) == Ok(moved)
    && Holds(s.mem, s.rip, code) && Range(s.rip, |code|) <= r
    && Holds(t.mem, t.rip, moved) && Range(t.rip, |moved|) <= r
    && SameCpu(s, t, r)
  }

  lemma HoldsRest(m: Memory, m': Memory, at: Word, bs: seq<Byte>, n: nat, r: iset<Word>)
    requires n <= |bs| && Holds(m, at, bs) && Range(at, |bs|) <= r && AgreeOn(m, m', r)
    ensures Holds(m', Plus(at, n), bs[n..]) && Range(Plus(at, n), |bs| - n) <= r
  {
    HoldsFrame(m, m', at, bs);
    HoldsSlice(m', at, bs, n, |bs|);
    assert bs[n..|bs|] == bs[n..];
    forall a: Word | a in Range(Plus(at, n), |bs| - n) ensures a in r {
      assert Minus(a, at) == n + Minus(a, Plus(at, n));
      assert a in Range(at, |bs|);
    }
  }

  lemma FirstStepSimulates(fu: FlagUnit, s: Cpu, t: Cpu, code: seq<Byte>, moved: seq<Byte>, r: iset<Word>)
    requires code != [] && Corresponds(s, t, code, moved, r) && Decode(code).Some?
    requires Touches(Decode(code).value, Plus(s.rip, Decode(code).value.Length()), s) !! r
    ensures Step(fu, s) == Some(Exec(fu, Decode(code).value, Plus(s.rip, Decode(code).value.Length()), s))
    ensures Step(fu, t).Some?
    ensures var s', t', op := Step(fu, s).value, Step(fu, t).value, Decode(code).value;
            && AgreeOn(t.mem, t'.mem, r)
            && if op.JmpMem? then SameCpu(s', t', r) && s'.rip == t'.rip
               else
                 && s'.rip == Plus(s.rip, op.Length()) && t'.rip == Plus(t.rip, op.Length())
                 && Corresponds(s', t', code[op.Length()..], moved[op.Length()..], r)
  {
    FirstIsMovable(code, s.rip, t.rip, moved);
    FirstKeepsMeaning(code, s.rip, t.rip, moved);
    AllMovedFirst(code, s.rip, t.rip, moved);
    StepExecutes(fu, s, code);
    StepExecutes(fu, t, moved);
    var op, op' := Decode(code).value, Decode(moved).value;
    var n := op.Length();
    MovedInstructionSimulates(fu, op, Plus(s.rip, n), s, op', Plus(t.rip, n), t, r);
    hide Step, Decode, Exec, RelocateAll;
    HoldsRest(s.mem, Step(fu, s).value.mem, s.rip, code, n, r);
    HoldsRest(t.mem, Step(fu, t).value.mem, t.rip, moved, n, r);
  }

  lemma {:induction false} HeadSimulates(fu: FlagUnit, s: Cpu, t: Cpu, code: seq<Byte>, moved: seq<Byte>, r: iset<Word>)
    requires Corresponds(s, t, code, moved, r) && Parse(code).Some?
    requires Avoids(fu, s, Parse(code).value, r)
    ensures var ops := Parse(code).value;
            && Steps(fu, Executed(ops), s).Some? && Steps(fu, Executed(ops), t).Some?
            && var s', t' := Steps(fu, Executed(ops), s).value, Steps(fu, Executed(ops), t).value;
               && SameCpu(s', t', r) && AgreeOn(t.mem, t'.mem, r)
               && if FallsThrough(ops) then s'.rip == Plus(s.rip, |code|) && t'.rip == Plus(t.rip, |code|)
                  else s'.rip == t'.rip
    decreases |code|
  {
    hide Step, Decode, Exec, RelocateAll;
    if code != [] {
      var ops := Parse(code).value;
      var n := Decode(code).value.Length();
      assert ops[1..] == Parse(code[n..]).value;
      FirstStepSimulates(fu, s, t, code, moved, r);
      if !ops[0].JmpMem? {
        var s', t' := Step(fu, s).value, Step(fu, t).value;
        HeadSimulates(fu, s', t', code[n..], moved[n..], r);
        PlusOfPlus(s.rip, n, |code| - n);
        PlusOfPlus(t.rip, n, |code| - n);
        assert FallsThrough(ops) <==> FallsThrough(ops[1..]);
      }
    }
  }

  /**
   * `s` runs the head `ops`, which ends at `end`, and `t` a copy of it with a jump back. Both
   * leave their head, at the same address, with the same registers, flags and memory outside
   * `r`, and `t` has changed nothing in `r`.
   */
  ghost predicate LeavesAlike(fu: FlagUnit, s: Cpu, t: Cpu, ops: seq<Op>, end: Word, r: iset<Word>) {
    var n, n' := Executed(ops), Executed(ops) + if FallsThrough(ops) then 1 else 0;
    && Steps(fu, n, s).Some? && Steps(fu, n', t).Some?
    && var s', t' := Steps(fu, n, s).value, Steps(fu, n', t).value;
       && s'.rip == t'.rip && SameCpu(s', t', r) && AgreeOn(t.mem, t'.mem, r)
       && (FallsThrough(ops) ==> s'.rip == end)
  }

  lemma HeldInside(at: Word, n: nat, k: nat, r: iset<Word>)
    requires n + k < TWO64 && Range(at, n + k) <= r
    ensures Range(at, n) <= r && Range(Plus(at, n), k) <= r
  {
    forall a: Word | a in Range(Plus(at, n), k) ensures a in r {
      assert Minus(a, at) == n + Minus(a, Plus(at, n));
      assert a in Range(at, n + k);
    }
    forall a: Word | a in Range(at, n) ensures a in r {
      assert a in Range(at, n + k);
    }
  }

  /**
   * Calling the relocated head behaves as the original head does. `s` is about to run the
   * function as it was; `t` is about to run `moved` and the jump behind it, in a memory that
   * agrees outside `r`. If the original head, as it runs, touches nothing in `r`, both leave
   * their head at the same address with the same registers, flags and memory outside `r`, and
   * `t` has changed nothing in `r`.
   */
  lemma CallOriginalSimulates(fu: FlagUnit, s: Cpu, t: Cpu, code: seq<Byte>, moved: seq<Byte>, r: iset<Word>)
    requires 0 < |code| < TWO64 - 14 && s.rip != t.rip && Relocate(code, s.rip, t.rip) == Ok(moved)
    requires Holds(s.mem, s.rip, code) && Range(s.rip, |code|) <= r
    requires Holds(t.mem, t.rip, moved + PureJmp(Plus(s.rip, |code|))) && Range(t.rip, |code| + 14) <= r
    requires SameCpu(s, t, r)
    requires Parse(code).Some? && Avoids(fu, s, Parse(code).value, r)
    ensures LeavesAlike(fu, s, t, Parse(code).value, Plus(s.rip, |code|), r)
  {
    hide Step, Decode, Exec, RelocateAll, Avoids;
    var back := PureJmp(Plus(s.rip, |code|));
    HoldsConcat(t.mem, t.rip, moved, back);
    HeldInside(t.rip, |code|, 14, r);
    HeadSimulates(fu, s, t, code, moved, r);
    var ops := Parse(code).value;
    if FallsThrough(ops) {
      var t1 := Steps(fu, Executed(ops), t).value;
      HoldsRest(t.mem, t1.mem, Plus(t.rip, |code|), back, 0, r);
      assert back[0..] == back;
      PureJmpJumps(fu, t1, Plus(s.rip, |code|));
      StepsAdd(fu, Executed(ops), 1, t);
      assert Steps(fu, 0, Step(fu, t1).value) == Some(Step(fu, t1).value);
    }
  }

  // ----- entering the detour

  /**
   * Where the patch stands at `target` and a pure jump at `enter`, every machine state that
   * arrives at `target` is at the detour two instructions later with nothing else changed.
   */
  lemma PatchedFunctionEntersDetour(fu: FlagUnit, s: Cpu, enter: Word, detour: Word, patch: seq<Byte>)
    requires RelJmp(s.rip, enter).Some? && RelJmp(s.rip, enter).value <= patch
    requires Holds(s.mem, s.rip, patch) && Holds(s.mem, enter, PureJmp(detour))
    ensures Steps(fu, 2, s) == Some(s.(rip := detour))
  {
    RelJmpJumps(fu, s, enter, patch);
    var s1 := s.(rip := enter);
    PureJmpJumps(fu, s1, detour);
    hide Step;
    assert Steps(fu, 1, s1) == Some(s.(rip := detour));
  }
}
