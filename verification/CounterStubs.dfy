/** The counter stub that `Encoder::encode_inc_dec_atomic_counter` emits, executed. */
module CounterStubs {
  import opened Words
  import opened Memories
  import opened Wrappers
  import opened X86
  import opened Encoders

  /** The two stack slots below RSP that the stub pushes to. */
  ghost function Slots(s: Cpu): iset<Word> {
    Range(Plus(s.regs[RSP], -16), 16)
  }

  /** What the stub uses is kept apart: its code, its stack slots and the counter. */
  ghost predicate Apart(s: Cpu, counter: Word) {
    && Range(s.rip, 18) !! Range(counter, 8)
    && Range(s.rip, 18) !! Slots(s)
    && Range(counter, 8) !! Slots(s)
  }

  ghost function Instructions(inc: bool, counter: Word): seq<Op> {
    [PushFlags, Push(RAX), MovAbs(RAX, counter), LockAdd(inc), Pop(RAX), PopFlags]
  }

  /** Offset of each of the six instructions. */
  ghost function StubOffset(i: nat): nat
    requires i <= 6
  {
    [0, 1, 2, 12, 16, 17, 18][i]
  }

  lemma MovDecodes(counter: Word, rest: seq<Byte>)
    ensures Decode([0x48, 0xB8] + WordBytes(counter) + rest) == Some(MovAbs(RAX, counter))
  {
    hide WordBytes, WordFrom;
    var c := [0x48, 0xB8] + WordBytes(counter) + rest;
    assert c[2..10] == WordBytes(counter);
    WordRoundTrip(counter);
  }

  lemma LockDecodes(inc: bool, rest: seq<Byte>)
    ensures Decode([0xF0, 0x48, 0xFF, if inc then 0x00 else 0x08] + rest) == Some(LockAdd(inc))
  {
    var c := [0xF0, 0x48, 0xFF, if inc then 0x00 else 0x08] + rest;
    assert c[0] == 0xF0 && c[1] == 0x48 && c[2] == 0xFF && c[3] == if inc then 0x00 else 0x08;
  }

  /** The stub from its third and from its fourth instruction on. */
  lemma StubTails(inc: bool, counter: Word)
    ensures var lock := [0xF0, 0x48, 0xFF, if inc then 0x00 else 0x08];
            && CounterStub(inc, counter)[2..] == [0x48, 0xB8] + WordBytes(counter) + (lock + [0x58] + [0x9D])
            && CounterStub(inc, counter)[12..] == lock + ([0x58] + [0x9D])
            && CounterStub(inc, counter)[0] == 0x9C && CounterStub(inc, counter)[1] == 0x50
            && CounterStub(inc, counter)[16] == 0x58 && CounterStub(inc, counter)[17] == 0x9D
  {
    hide WordBytes, Decode;
  }

  /** The emitted bytes decode to the six instructions that were meant. */
  lemma StubDecodes(inc: bool, counter: Word, i: nat)
    requires i < 6
    ensures Decode(CounterStub(inc, counter)[StubOffset(i)..]) == Some(Instructions(inc, counter)[i])
    ensures StubOffset(i) + Instructions(inc, counter)[i].Length() == StubOffset(i + 1)
  {
    hide CounterStub, WordBytes;
    StubTails(inc, counter);
    var c := CounterStub(inc, counter)[StubOffset(i)..];
    if i == 2 {
      MovDecodes(counter, [0xF0, 0x48, 0xFF, if inc then 0x00 else 0x08] + [0x58] + [0x9D]);
    } else if i == 3 {
      LockDecodes(inc, [0x58] + [0x9D]);
    } else {
      assert c[0] == [0x9C, 0x50, 0x48, 0xF0, 0x58, 0x9D][i];
    }
  }

  lemma StubSteps(fu: FlagUnit, s: Cpu, inc: bool, counter: Word, at: Word, i: nat)
    requires i < 6 && Holds(s.mem, at, CounterStub(inc, counter)) && s.rip == Plus(at, StubOffset(i))
    ensures Step(fu, s) == Some(Exec(fu, Instructions(inc, counter)[i], Plus(at, StubOffset(i + 1)), s))
  {
    StubDecodes(inc, counter, i);
    var stub := CounterStub(inc, counter);
    HoldsSlice(s.mem, at, stub, StubOffset(i), 18);
    assert stub[StubOffset(i)..18] == stub[StubOffset(i)..];
    StepExecutes(fu, s, stub[StubOffset(i)..]);
    PlusOfPlus(at, StubOffset(i), Instructions(inc, counter)[i].Length());
  }

  /** A stored word survives a store elsewhere. */
  lemma StoreElsewhere(m: Memory, at: Word, w: Word, at': Word)
    requires Range(at, 8) !! Range(at', 8)
    ensures LoadWord(StoreWord(m, at, w), at') == LoadWord(m, at')
  {
    LoadFrame(m, StoreWord(m, at, w), at');
  }

  lemma CodeSurvivesStore(m: Memory, at: Word, w: Word, code: Word, bs: seq<Byte>)
    requires Range(at, 8) !! Range(code, |bs|) && Holds(m, code, bs)
    ensures Holds(StoreWord(m, at, w), code, bs)
  {
    HoldsFrame(m, StoreWord(m, at, w), code, bs);
  }

  lemma SlotsSplit(sp: Word)
    ensures Range(Plus(sp, -16), 16) == Range(Plus(sp, -8), 8) + Range(Plus(sp, -16), 8)
    ensures Range(Plus(sp, -8), 8) !! Range(Plus(sp, -16), 8)
    ensures Plus(Plus(sp, -8), -8) == Plus(sp, -16)
    ensures Plus(Plus(sp, -16), 8) == Plus(sp, -8) && Plus(Plus(sp, -8), 8) == sp
  {
    forall a: Word
      ensures Minus(a, Plus(sp, -16)) < 16 <==> Minus(a, Plus(sp, -8)) < 8 || Minus(a, Plus(sp, -16)) < 8
      ensures !(Minus(a, Plus(sp, -8)) < 8 && Minus(a, Plus(sp, -16)) < 8)
    {}
  }

  lemma WordIsHeldAfterStore(m: Memory, at: Word, w: Word)
    ensures LoadWord(StoreWord(m, at, w), at) == w
  {
    HeldWordIsLoaded(StoreWord(m, at, w), at, w);
  }

  /** The memory after the stub's three stores. */
  ghost function MemAfter(s: Cpu, inc: bool, counter: Word): Memory {
    var m1 := StoreWord(s.mem, Plus(s.regs[RSP], -8), s.flags);
    var m2 := StoreWord(m1, Plus(s.regs[RSP], -16), s.regs[RAX]);
    StoreWord(m2, counter, Plus(LoadWord(s.mem, counter), if inc then 1 else -1))
  }

  lemma MemAfterStub(s: Cpu, inc: bool, counter: Word)
    requires Apart(s, counter)
    ensures var m := MemAfter(s, inc, counter);
            && LoadWord(m, counter) == Plus(LoadWord(s.mem, counter), if inc then 1 else -1)
            && LoadWord(m, Plus(s.regs[RSP], -16)) == s.regs[RAX]
            && LoadWord(m, Plus(s.regs[RSP], -8)) == s.flags
            && AgreeOutside(s.mem, m, Slots(s) + Range(counter, 8))
  {
    var hi, lo := Plus(s.regs[RSP], -8), Plus(s.regs[RSP], -16);
    SlotsSplit(s.regs[RSP]);
    var m1 := StoreWord(s.mem, hi, s.flags);
    var m2 := StoreWord(m1, lo, s.regs[RAX]);
    var w := Plus(LoadWord(s.mem, counter), if inc then 1 else -1);
    WordIsHeldAfterStore(s.mem, hi, s.flags);
    WordIsHeldAfterStore(m1, lo, s.regs[RAX]);
    WordIsHeldAfterStore(m2, counter, w);
    StoreElsewhere(m1, lo, s.regs[RAX], hi);
    StoreElsewhere(m2, counter, w, hi);
    StoreElsewhere(m2, counter, w, lo);
  }

  lemma StubPushes(fu: FlagUnit, s: Cpu, inc: bool, counter: Word) returns (s2: Cpu)
    requires Holds(s.mem, s.rip, CounterStub(inc, counter)) && Apart(s, counter)
    ensures Steps(fu, 2, s) == Some(s2)
    ensures s2.mem == StoreWord(StoreWord(s.mem, Plus(s.regs[RSP], -8), s.flags), Plus(s.regs[RSP], -16), s.regs[RAX])
    ensures s2.regs == s.regs[RSP := Plus(s.regs[RSP], -16)] && s2.flags == s.flags
    ensures s2.rip == Plus(s.rip, 2) && Holds(s2.mem, s.rip, CounterStub(inc, counter))
    ensures LoadWord(s2.mem, counter) == LoadWord(s.mem, counter)
  {
    var hi, lo := Plus(s.regs[RSP], -8), Plus(s.regs[RSP], -16);
    SlotsSplit(s.regs[RSP]);
    StubSteps(fu, s, inc, counter, s.rip, 0);
    var s1 := Step(fu, s).value;
    CodeSurvivesStore(s.mem, hi, s.flags, s.rip, CounterStub(inc, counter));
    StubSteps(fu, s1, inc, counter, s.rip, 1);
    s2 := Step(fu, s1).value;
    CodeSurvivesStore(s1.mem, lo, s.regs[RAX], s.rip, CounterStub(inc, counter));
    StoreElsewhere(s.mem, hi, s.flags, counter);
    StoreElsewhere(s1.mem, lo, s.regs[RAX], counter);
    assert Steps(fu, 1, s1) == Some(s2);
  }

  lemma StubAdds(fu: FlagUnit, s2: Cpu, inc: bool, counter: Word, at: Word) returns (s4: Cpu)
    requires Holds(s2.mem, at, CounterStub(inc, counter)) && s2.rip == Plus(at, 2)
    requires Range(counter, 8) !! Range(at, 18)
    ensures Steps(fu, 2, s2) == Some(s4)
    ensures s4.mem == StoreWord(s2.mem, counter, Plus(LoadWord(s2.mem, counter), if inc then 1 else -1))
    ensures s4.regs == s2.regs[RAX := counter] && s4.rip == Plus(at, 16)
    ensures Holds(s4.mem, at, CounterStub(inc, counter))
  {
    hide Decode, Step, CounterStub, LoadWord, StoreWord;
    StubSteps(fu, s2, inc, counter, at, 2);
    var s3 := Step(fu, s2).value;
    StubSteps(fu, s3, inc, counter, at, 3);
    s4 := Step(fu, s3).value;
    CodeSurvivesStore(s3.mem, counter, Plus(LoadWord(s2.mem, counter), if inc then 1 else -1), at,
                      CounterStub(inc, counter));
    assert Steps(fu, 1, s3) == Some(s4);
  }

  lemma StubPops(fu: FlagUnit, s4: Cpu, inc: bool, counter: Word, at: Word) returns (s6: Cpu)
    requires Holds(s4.mem, at, CounterStub(inc, counter)) && s4.rip == Plus(at, 16)
    ensures Steps(fu, 2, s4) == Some(s6)
    ensures var sp := s4.regs[RSP];
            && s6.mem == s4.mem && s6.rip == Plus(at, 18)
            && s6.regs == s4.regs[RAX := LoadWord(s4.mem, sp)][RSP := Plus(Plus(sp, 8), 8)]
            && s6.flags == LoadWord(s4.mem, Plus(sp, 8))
  {
    StubSteps(fu, s4, inc, counter, at, 4);
    var s5 := Step(fu, s4).value;
    StubSteps(fu, s5, inc, counter, at, 5);
    s6 := Step(fu, s5).value;
    assert Steps(fu, 1, s5) == Some(s6);
  }

  /**
   * The stub adds one to the counter, or takes one away, modulo 2^64, and leaves every
   * register, the flags and all memory but the counter and two dead stack slots as they were.
   */
  lemma StubCounts(fu: FlagUnit, s: Cpu, inc: bool, counter: Word)
    requires Holds(s.mem, s.rip, CounterStub(inc, counter)) && Apart(s, counter)
    ensures Steps(fu, 6, s).Some?
    ensures var t := Steps(fu, 6, s).value;
            && t == s.(rip := Plus(s.rip, 18), mem := t.mem)
            && LoadWord(t.mem, counter) == Plus(LoadWord(s.mem, counter), if inc then 1 else -1)
            && AgreeOutside(s.mem, t.mem, Slots(s) + Range(counter, 8))
  {
    hide Step, Steps, Exec, Decode, LoadWord, StoreWord, CounterStub;
    SlotsSplit(s.regs[RSP]);
    MemAfterStub(s, inc, counter);
    var s2 := StubPushes(fu, s, inc, counter);
    var s4 := StubAdds(fu, s2, inc, counter, s.rip);
    var s6 := StubPops(fu, s4, inc, counter, s.rip);
    assert s4.mem == MemAfter(s, inc, counter);
    assert s6.regs == s.regs;
    StepsAdd(fu, 2, 4, s);
    StepsAdd(fu, 2, 2, s2);
  }
}
