/** What hooks do to the running program: calls reach the detour, and the original survives. */
module HookBehaviour {
  import opened Words
  import opened Memories
  import opened Wrappers
  import opened X86
  import opened Relocation
  import opened Encoders
  import opened Trampolines
  import opened Pages
  import opened HookModel
  import opened HookRuns

  /** No installed hook patches a byte of `r`. */
  ghost predicate Unpatched(w: World, r: iset<Word>) {
    forall a: Word {:trigger w.mem(a)} | a in r :: !Patched(w.hooks, a)
  }

  /** The entrance jump as the constructor wrote it, before any hook was put on it. */
  lemma EntranceInBase(base: Memory, h: Hook)
    requires WellBuilt(base, h) && h.target != 0
    ensures Holds(base, h.enter, PureJmp(h.detour))
  {
    var moved := Relocate(h.saved, h.target, h.original).value;
    var code := TrampolineCode(h, moved);
    assert code[|moved| + 14..|moved| + 28] == PureJmp(h.detour);
    hide TrampolineCode, PureJmp, Relocate;
    HoldsSlice(base, h.original, code, |moved| + 14, |moved| + 28);
  }

  // ----- calling a hooked function

  /** The patch of an installed hook leads to its entrance jump. */
  lemma PatchJumps(fu: FlagUnit, w: World, p: PageSize, base: Memory, i: nat, s: Cpu)
    requires Inv(w, p, base) && i < |w.hooks| && w.hooks[i].installed
    requires s.mem == w.mem && s.rip == w.hooks[i].target
    ensures Step(fu, s) == Some(s.(rip := w.hooks[i].enter))
  {
    var h := w.hooks[i];
    assert WellBuilt(base, h);
    hide Step, WellBuilt;
    RelJmpJumps(fu, s, h.enter, PatchBytes(h));
  }

  /** Resolving the target of an installed hook gives its jump to the detour. */
  lemma HookedTargetResolves(w: World, p: PageSize, base: Memory, i: nat)
    requires Inv(w, p, base) && i < |w.hooks| && w.hooks[i].installed
    ensures ResolveFuncPtr(w.mem, w.hooks[i].target) == w.hooks[i].enter
  {
    var h := w.hooks[i];
    assert WellBuilt(base, h);
    ResolvesEncodedJump(w.mem, h.target, h.enter, PatchBytes(h));
  }

  /** No installed hook's patch changes a byte of the entrance jump of `h`. */
  ghost predicate EntranceIntact(w: World, h: Hook) {
    forall j: nat, a: Word
      | j < |w.hooks| && w.hooks[j].installed && a in PatchRange(w.hooks[j]) && a in Range(h.enter, 14) ::
        PatchBytes(w.hooks[j])[Minus(a, w.hooks[j].target)] == PureJmp(h.detour)[Minus(a, h.enter)]
  }

  lemma IntactExactlyWhenHeld(w: World, p: PageSize, base: Memory, h: Hook)
    requires Inv(w, p, base) && WellBuilt(base, h) && h.target != 0
    ensures EntranceIntact(w, h) <==> Holds(w.mem, h.enter, PureJmp(h.detour))
  {
    EntranceInBase(base, h);
    hide PureJmp, PatchBytes, WellBuilt, Standing, Homed;
    if EntranceIntact(w, h) {
      forall a: Word {:trigger w.mem(a)} | Minus(a, h.enter) < 14
        ensures w.mem(a) == PureJmp(h.detour)[Minus(a, h.enter)]
      {
        assert a in Range(h.enter, 14);
        if j: nat :| j < |w.hooks| && w.hooks[j].installed && a in PatchRange(w.hooks[j]) {
          assert Holds(w.mem, w.hooks[j].target, PatchBytes(w.hooks[j]));
        } else {
          assert !Patched(w.hooks, a);
          assert w.mem(a) == base(a);
        }
      }
      assert Holds(w.mem, h.enter, PureJmp(h.detour));
    }
    if Holds(w.mem, h.enter, PureJmp(h.detour)) {
      forall j: nat, a: Word
        | j < |w.hooks| && w.hooks[j].installed && a in PatchRange(w.hooks[j]) && a in Range(h.enter, 14)
        ensures PatchBytes(w.hooks[j])[Minus(a, w.hooks[j].target)] == PureJmp(h.detour)[Minus(a, h.enter)]
      {
        assert Holds(w.mem, w.hooks[j].target, PatchBytes(w.hooks[j]));
        assert w.mem(a) == PureJmp(h.detour)[Minus(a, h.enter)];
      }
    }
  }

  /** An intact entrance jump leads to the detour. */
  lemma EntranceJumps(fu: FlagUnit, w: World, p: PageSize, base: Memory, i: nat, s: Cpu)
    requires Inv(w, p, base) && i < |w.hooks| && w.hooks[i].installed && EntranceIntact(w, w.hooks[i])
    requires s.mem == w.mem && s.rip == w.hooks[i].enter
    ensures Step(fu, s) == Some(s.(rip := w.hooks[i].detour))
  {
    assert WellBuilt(base, w.hooks[i]);
    hide WellBuilt, EntranceIntact, Step, PureJmp;
    IntactExactlyWhenHeld(w, p, base, w.hooks[i]);
    PureJmpJumps(fu, s, w.hooks[i].detour);
  }

  /**
   * A thread that calls an installed hook's target is at the detour two instructions later, with
   * nothing but RIP changed, wherever the page lies.
   */
  lemma HookedCallEntersDetour(fu: FlagUnit, w: World, p: PageSize, base: Memory, i: nat, s: Cpu)
    requires Inv(w, p, base) && i < |w.hooks| && w.hooks[i].installed && EntranceIntact(w, w.hooks[i])
    requires s.mem == w.mem && s.rip == w.hooks[i].target
    ensures Steps(fu, 2, s) == Some(s.(rip := w.hooks[i].detour))
  {
    var h := w.hooks[i];
    assert WellBuilt(base, h);
    IntactExactlyWhenHeld(w, p, base, h);
    hide Steps, TrampolineCode, PureJmp, EntranceIntact;
    PatchedFunctionEntersDetour(fu, s, h.enter, h.detour, PatchBytes(h));
  }

  // ----- hooks on hooks

  /** Hook `j` is installed on the entrance jump of `h`. */
  predicate StackedOn(w: World, j: nat, h: Hook) {
    j < |w.hooks| && w.hooks[j].installed && w.hooks[j].target == h.enter
  }

  /** A patch that covers the first byte of the entrance jump of `h` starts there. */
  ghost predicate NotRunInto(w: World, h: Hook) {
    forall j: nat {:trigger w.hooks[j]} | j < |w.hooks| && w.hooks[j].installed && h.enter in PatchRange(w.hooks[j]) ::
      w.hooks[j].target == h.enter
  }

  lemma NothingDecodes(code: seq<Byte>)
    ensures code != [] && code[0] in {0x00, 0x25} ==> Decode(code).None?
  {}

  /** No hook can start inside the six bytes of a `jmp [rip + 0]`: nothing decodes there. */
  lemma NothingStartsInside(base: Memory, h: Hook, g: Hook)
    requires WellBuilt(base, h) && h.target != 0 && WellBuilt(base, g) && g.target != 0
    ensures !(1 <= Minus(g.target, h.enter) < 6)
  {
    hide Decode, RelocateAll, TrampolineCode, WordBytes;
    EntranceInBase(base, h);
    FirstIsMovable(g.saved, g.target, g.original, Relocate(g.saved, g.target, g.original).value);
    assert Minus(g.target, g.target) == 0;
    assert g.saved[0] == base(g.target);
    NothingDecodes(g.saved);
  }

  /** A short range that covers `a`, a little after `at`, covers `at` or starts between them. */
  lemma StartsBefore(start: Word, n: nat, at: Word, a: Word)
    requires n < 0x100 && a in Range(start, n) && Minus(a, at) < 6
    ensures at in Range(start, n) || 1 <= Minus(start, at) < 6
  {}

  /** A patch on the instruction of the entrance jump starts where it starts. */
  lemma OnOpcodeIsStacked(w: World, p: PageSize, base: Memory, h: Hook, j: nat, a: Word)
    requires Inv(w, p, base) && WellBuilt(base, h) && h.target != 0 && NotRunInto(w, h)
    requires j < |w.hooks| && w.hooks[j].installed && a in PatchRange(w.hooks[j]) && Minus(a, h.enter) < 6
    ensures StackedOn(w, j, h)
  {
    var g := w.hooks[j];
    assert WellBuilt(base, g);
    assert g.target != 0 && |g.saved| < 0x100;
    NothingStartsInside(base, h, g);
    hide WellBuilt, Inv;
    StartsBefore(g.target, |g.saved|, h.enter, a);
  }

  lemma OpcodeUnpatched(w: World, p: PageSize, base: Memory, h: Hook, a: Word)
    requires Inv(w, p, base) && WellBuilt(base, h) && h.target != 0 && NotRunInto(w, h)
    requires forall j: nat :: !StackedOn(w, j, h)
    requires Minus(a, h.enter) < 6
    ensures !Patched(w.hooks, a)
  {
    hide Inv, WellBuilt, NotRunInto, StackedOn, PatchRange;
    if j: nat :| j < |w.hooks| && w.hooks[j].installed && a in PatchRange(w.hooks[j]) {
      OnOpcodeIsStacked(w, p, base, h, j, a);
    }
  }

  /** Unless a hook is stacked on it, the instruction of an entrance jump is as it was. */
  lemma UnstackedKeepsOpcode(w: World, p: PageSize, base: Memory, h: Hook)
    requires Inv(w, p, base) && WellBuilt(base, h) && h.target != 0 && NotRunInto(w, h)
    requires forall j: nat :: !StackedOn(w, j, h)
    ensures Holds(w.mem, h.enter, PureJmp(h.detour)[..6])
  {
    var code := PureJmp(h.detour)[..6];
    EntranceInBase(base, h);
    HoldsSlice(base, h.enter, PureJmp(h.detour), 0, 6);
    assert Plus(h.enter, 0) == h.enter && PureJmp(h.detour)[0..6] == code;
    forall a: Word {:trigger w.mem(a)} | a in Range(h.enter, |code|) ensures !Patched(w.hooks, a) {
      OpcodeUnpatched(w, p, base, h, a);
    }
    hide WellBuilt, PureJmp, Standing, Homed, NotRunInto, StackedOn, Patched;
    HoldsFrame(base, w.mem, h.enter, code);
  }

  lemma StoredWordIsHeld(m: Memory, at: Word, w: Word)
    requires LoadWord(m, at) == w
    ensures Holds(m, at, WordBytes(w))
  {
    ReadBytesAreHeld(m, at, 8);
    WritesBackWhatWasRead(Read(m, at, 8));
  }

  /** A `jmp [rip + 0]` goes where the word behind it says. */
  lemma JumpsThroughWord(fu: FlagUnit, s: Cpu, to: Word)
    requires Holds(s.mem, s.rip, PureJmp(to)[..6])
    ensures Step(fu, s) == Some(s.(rip := LoadWord(s.mem, Plus(s.rip, 6))))
  {
    var code := PureJmp(to)[..6];
    assert code[2..6] == Int32Bytes(0);
    Int32RoundTrip(0);
    assert Decode(code) == Some(JmpMem(0));
    StepExecutes(fu, s, code);
    hide Step, Decode;
    assert Plus(Plus(s.rip, 6), 0) == Plus(s.rip, 6);
  }

  lemma IntactIfItLeadsThere(w: World, p: PageSize, base: Memory, h: Hook)
    requires Inv(w, p, base) && WellBuilt(base, h) && h.target != 0
    requires Holds(w.mem, h.enter, PureJmp(h.detour)[..6]) && LoadWord(w.mem, Plus(h.enter, 6)) == h.detour
    ensures EntranceIntact(w, h)
  {
    StoredWordIsHeld(w.mem, Plus(h.enter, 6), h.detour);
    assert PureJmp(h.detour) == PureJmp(h.detour)[..6] + WordBytes(h.detour);
    HoldsConcat(w.mem, h.enter, PureJmp(h.detour)[..6], WordBytes(h.detour));
    IntactExactlyWhenHeld(w, p, base, h);
  }

  lemma OneStepMore(fu: FlagUnit, n: nat, s: Cpu, s1: Cpu)
    requires Step(fu, s) == Some(s1)
    ensures Steps(fu, n + 1, s) == Steps(fu, n, s1)
    ensures Steps(fu, 1, s) == Some(s1)
  {
    hide Step;
    assert Steps(fu, 0, s1) == Some(s1);
  }

  /** Without a hook on its entrance jump, a call enters the detour only if the jump is intact. */
  lemma UnstackedCall(fu: FlagUnit, w: World, p: PageSize, base: Memory, i: nat, s: Cpu)
    requires Inv(w, p, base) && i < |w.hooks| && w.hooks[i].installed && NotRunInto(w, w.hooks[i])
    requires forall j: nat :: !StackedOn(w, j, w.hooks[i])
    requires s.mem == w.mem && s.rip == w.hooks[i].target
    ensures Steps(fu, 2, s) == Some(s.(rip := w.hooks[i].detour)) ==> EntranceIntact(w, w.hooks[i])
  {
    var h := w.hooks[i];
    assert WellBuilt(base, h);
    PatchJumps(fu, w, p, base, i, s);
    UnstackedKeepsOpcode(w, p, base, h);
    var s1 := s.(rip := h.enter);
    JumpsThroughWord(fu, s1, h.detour);
    OneStepMore(fu, 1, s, s1);
    OneStepMore(fu, 0, s1, s1.(rip := LoadWord(w.mem, Plus(h.enter, 6))));
    hide WellBuilt, Inv, EntranceIntact, Step, Steps, LoadWord;
    if LoadWord(w.mem, Plus(h.enter, 6)) == h.detour {
      IntactIfItLeadsThere(w, p, base, h);
    }
  }

  lemma SameEntrance(w: World, p: PageSize, base: Memory, j: nat, k: nat)
    requires Inv(w, p, base) && j < |w.hooks| && k < |w.hooks|
    requires w.hooks[j].installed && w.hooks[k].installed && w.hooks[j].target == w.hooks[k].target
    ensures w.hooks[j].enter == w.hooks[k].enter
  {
    HookedTargetResolves(w, p, base, j);
    HookedTargetResolves(w, p, base, k);
  }

  /** Installed hooks, each on the entrance jump of the one before. */
  predicate IsStack(w: World, stack: seq<nat>) {
    && stack != []
    && (forall k: nat | k < |stack| :: stack[k] < |w.hooks| && w.hooks[stack[k]].installed)
    && (forall k: nat, l: nat {:trigger stack[k], stack[l]} | l == k + 1 && l < |stack| ::
          w.hooks[stack[l]].target == w.hooks[stack[k]].enter)
  }

  lemma RestIsStack(w: World, stack: seq<nat>)
    requires IsStack(w, stack) && |stack| > 1
    ensures IsStack(w, stack[1..]) && w.hooks[stack[1]].target == w.hooks[stack[0]].enter
  {}

  /** A call of the lowest hook's target climbs the stack one instruction for each hook. */
  lemma {:induction false} StackReachesTop(fu: FlagUnit, w: World, p: PageSize, base: Memory, stack: seq<nat>, s: Cpu)
    requires Inv(w, p, base) && IsStack(w, stack)
    requires s.mem == w.mem && s.rip == w.hooks[stack[0]].target
    ensures Steps(fu, |stack|, s) == Some(s.(rip := w.hooks[stack[|stack| - 1]].enter))
  {
    hide Inv, Step, Steps;
    PatchJumps(fu, w, p, base, stack[0], s);
    var s1 := s.(rip := w.hooks[stack[0]].enter);
    OneStepMore(fu, |stack| - 1, s, s1);
    if |stack| > 1 {
      RestIsStack(w, stack);
      var rest := stack[1..];
      assert rest[|rest| - 1] == stack[|stack| - 1];
      StackReachesTop(fu, w, p, base, rest, s1);
    }
  }

  lemma StackOfTwoReaches(fu: FlagUnit, w: World, p: PageSize, base: Memory, i: nat, j: nat, s: Cpu)
    requires Inv(w, p, base) && i < |w.hooks| && w.hooks[i].installed && StackedOn(w, j, w.hooks[i])
    requires s.mem == w.mem && s.rip == w.hooks[i].target
    ensures Steps(fu, 2, s) == Some(s.(rip := w.hooks[j].enter))
  {
    hide Inv, Steps;
    var stack: seq<nat> := [i, j];
    StackReachesTop(fu, w, p, base, stack, s);
  }

  /**
   * Exactly when a call of an installed hook's target enters the detour in two steps: when no
   * installed hook's patch changes the entrance jump, or the hook that is stacked on it happens
   * to have its own entrance where the detour is.
   */
  lemma CallEntersDetourExactlyWhen(fu: FlagUnit, w: World, p: PageSize, base: Memory, i: nat, s: Cpu)
    requires Inv(w, p, base) && i < |w.hooks| && w.hooks[i].installed && NotRunInto(w, w.hooks[i])
    requires s.mem == w.mem && s.rip == w.hooks[i].target
    ensures Steps(fu, 2, s) == Some(s.(rip := w.hooks[i].detour))
       <==> EntranceIntact(w, w.hooks[i])
            || exists j: nat :: StackedOn(w, j, w.hooks[i]) && w.hooks[j].enter == w.hooks[i].detour
  {
    var h := w.hooks[i];
    hide Inv, EntranceIntact, NotRunInto, Step, Steps;
    if EntranceIntact(w, h) {
      HookedCallEntersDetour(fu, w, p, base, i, s);
    } else if j: nat :| StackedOn(w, j, h) {
      StackOfTwoReaches(fu, w, p, base, i, j, s);
      forall k: nat | StackedOn(w, k, h) ensures w.hooks[k].enter == w.hooks[j].enter {
        SameEntrance(w, p, base, j, k);
      }
    } else {
      UnstackedCall(fu, w, p, base, i, s);
    }
  }

  /**
   * Hooks stack to any height: a call of the lowest target enters the detour of the topmost hook,
   * one instruction later for every hook that is stacked, with nothing but RIP changed.
   */
  lemma StackedCallEntersTopDetour(fu: FlagUnit, w: World, p: PageSize, base: Memory, stack: seq<nat>, s: Cpu)
    requires Inv(w, p, base) && IsStack(w, stack) && EntranceIntact(w, w.hooks[stack[|stack| - 1]])
    requires s.mem == w.mem && s.rip == w.hooks[stack[0]].target
    ensures Steps(fu, |stack| + 1, s) == Some(s.(rip := w.hooks[stack[|stack| - 1]].detour))
  {
    hide Inv, Step, Steps, EntranceIntact;
    var top := w.hooks[stack[|stack| - 1]];
    StackReachesTop(fu, w, p, base, stack, s);
    var s1 := s.(rip := top.enter);
    EntranceJumps(fu, w, p, base, stack[|stack| - 1], s1);
    OneStepMore(fu, 0, s1, s1.(rip := top.detour));
    StepsAdd(fu, |stack|, 1, s);
  }

  // ----- calling the original

  lemma OriginalIsHeld(w: World, p: PageSize, base: Memory, i: nat)
    requires Inv(w, p, base) && i < |w.hooks| && w.hooks[i].target != 0
    requires Unpatched(w, Range(w.hooks[i].original, |w.hooks[i].saved| + 14))
    ensures var h := w.hooks[i];
            && WellBuilt(base, h)
            && Holds(w.mem, h.original,
                     Relocate(h.saved, h.target, h.original).value + PureJmp(Plus(h.target, |h.saved|)))
  {
    var h := w.hooks[i];
    assert WellBuilt(base, h);
    var moved := Relocate(h.saved, h.target, h.original).value;
    var code := moved + PureJmp(Plus(h.target, |h.saved|));
    assert TrampolineCode(h, moved) == code + PureJmp(h.detour);
    hide Relocate, TrampolineCode, PureJmp, Standing, Homed, PatchBytes;
    HoldsConcat(base, h.original, code, PureJmp(h.detour));
    HoldsFrame(base, w.mem, h.original, code);
  }

  /** What a hooked program changes in the program without patches, as far as hook `h` goes. */
  ghost function HookedArea(w: World, h: Hook): iset<Word> {
    (iset a: Word | Patched(w.hooks, a)) + PatchRange(h) + Range(h.original, |h.saved| + 14)
  }

  /**
   * `call_original`. `s` is about to run the target in the program without any patch, `t` is at
   * the hook's copy of the head in the hooked program, with the same registers and flags. If the
   * head of the target, as it runs in `s`, touches no patched byte and nothing of the copy, `t`
   * leaves the copy at the address where `s` leaves the head, with the same registers, flags and
   * memory outside those bytes, and those bytes are as they were. Other hooks may be stacked on
   * this one.
   */
  lemma CallOriginalIsTheOriginal(fu: FlagUnit, w: World, p: PageSize, base: Memory, i: nat, s: Cpu, t: Cpu)
    requires Inv(w, p, base) && i < |w.hooks| && w.hooks[i].target != 0
    requires Unpatched(w, Range(w.hooks[i].original, |w.hooks[i].saved| + 14))
    requires s.mem == base && s.rip == w.hooks[i].target
    requires t.mem == w.mem && t.rip == w.hooks[i].original && t.regs == s.regs && t.flags == s.flags
    requires Parse(w.hooks[i].saved).Some? ==>
               Avoids(fu, s, Parse(w.hooks[i].saved).value, HookedArea(w, w.hooks[i]))
    ensures Parse(w.hooks[i].saved).Some?
    ensures var h := w.hooks[i];
            LeavesAlike(fu, s, t, Parse(h.saved).value, Plus(h.target, |h.saved|), HookedArea(w, h))
  {
    var h := w.hooks[i];
    OriginalIsHeld(w, p, base, i);
    var moved := Relocate(h.saved, h.target, h.original).value;
    KeepsMeaning(h.saved, h.target, h.original, moved);
    hide LeavesAlike, Avoids, Relocate, PureJmp, Standing, Homed, PatchBytes, SameMeanings, OnlyDisplacementsDiffer;
    CallOriginalSimulates(fu, s, t, h.saved, moved, HookedArea(w, h));
  }

  /**
   * `call_original` of a function that starts with pushes, as long as the stack is apart from hooked
   * code: it runs the head and goes on behind the patch, with the state the original would have.
   */
  lemma CallOriginalOfPushes(fu: FlagUnit, w: World, p: PageSize, base: Memory, i: nat, ops: seq<Op>, s: Cpu, t: Cpu)
    requires Inv(w, p, base) && i < |w.hooks| && w.hooks[i].target != 0
    requires Unpatched(w, Range(w.hooks[i].original, |w.hooks[i].saved| + 14))
    requires Parse(w.hooks[i].saved) == Some(ops) && IsPushHead(ops) && 8 * |ops| < TWO64
    requires Range(Plus(s.regs[RSP], -8 * |ops|), 8 * |ops|) !! HookedArea(w, w.hooks[i])
    requires s.mem == base && s.rip == w.hooks[i].target
    requires t.mem == w.mem && t.rip == w.hooks[i].original && t.regs == s.regs && t.flags == s.flags
    ensures var h := w.hooks[i];
            && FallsThrough(ops)
            && LeavesAlike(fu, s, t, ops, Plus(h.target, |h.saved|), HookedArea(w, h))
  {
    PushHeadAvoids(fu, s, ops, HookedArea(w, w.hooks[i]));
    hide Inv, HookedArea, Unpatched, Avoids, LeavesAlike, Parse;
    CallOriginalIsTheOriginal(fu, w, p, base, i, s, t);
  }

  lemma SameJump(next: Word, op: Op, next': Word) returns (d: Int32)
    requires SameMeaning(JmpMem(0), next, op, next')
    ensures op == JmpMem(d) && Plus(next', d) == next
  {
    d := op.disp;
  }

  /** A `jmp [rip + 0]`, moved, is a jump through the same word. */
  lemma MovedJump(code: seq<Byte>, from: Word, to: Word, moved: seq<Byte>) returns (d: Int32)
    requires 0 < |code| < 0x100 && Decode(code) == Some(JmpMem(0))
    requires from != to && Relocate(code, from, to) == Ok(moved)
    ensures Decode(moved) == Some(JmpMem(d)) && Plus(Plus(to, 6), d) == Plus(from, 6)
  {
    hide Decode, RelocateAll, SameMeaning;
    assert RelocateAll(code, from, to) == Ok(moved);
    FirstKeepsMeaning(code, from, to, moved);
    d := SameJump(Plus(from, 6), Decode(moved).value, Plus(to, 6));
  }

  /** A `jmp [rip + 0]`, moved, still goes where the word behind the original says. */
  lemma MovedJumpJumps(fu: FlagUnit, t: Cpu, code: seq<Byte>, from: Word, moved: seq<Byte>, rest: seq<Byte>)
    requires 0 < |code| < 0x100 && Decode(code) == Some(JmpMem(0))
    requires from != t.rip && Relocate(code, from, t.rip) == Ok(moved) && Holds(t.mem, t.rip, moved + rest)
    ensures Step(fu, t) == Some(t.(rip := LoadWord(t.mem, Plus(from, 6))))
  {
    hide Decode, Relocate, Step, LoadWord, Holds;
    var d := MovedJump(code, from, t.rip, moved);
    DecodeLooksNoFurther(moved, moved + rest);
    StepExecutes(fu, t, moved + rest);
  }

  lemma SavedJumpDecodes(base: Memory, h: Hook, g: Hook)
    requires WellBuilt(base, g) && g.target == h.enter != 0 && Holds(base, h.enter, PureJmp(h.detour))
    ensures g.saved != [] && Decode(g.saved) == Some(JmpMem(0))
  {
    FirstIsMovable(g.saved, g.target, g.original, Relocate(g.saved, g.target, g.original).value);
    var jmp := PureJmp(h.detour);
    forall k: nat {:trigger g.saved[k]} | k < |g.saved| && k < 14 ensures g.saved[k] == jmp[k] {
      MinusOfPlus(h.enter, k);
      assert base(Plus(h.enter, k)) == g.saved[k];
    }
    assert g.saved[0] == 0xFF;
    assert |g.saved| >= 6;
    assert g.saved[2..6] == Int32Bytes(0);
    Int32RoundTrip(0);
  }

  lemma LiteralIsLoaded(w: World, p: PageSize, base: Memory, h: Hook)
    requires Inv(w, p, base) && Holds(base, h.enter, PureJmp(h.detour))
    requires Unpatched(w, Range(Plus(h.enter, 6), 8))
    ensures LoadWord(w.mem, Plus(h.enter, 6)) == h.detour
  {
    HoldsSlice(base, h.enter, PureJmp(h.detour), 6, 14);
    assert PureJmp(h.detour)[6..14] == WordBytes(h.detour);
    hide PureJmp, WordBytes, Standing, Homed;
    HoldsFrame(base, w.mem, Plus(h.enter, 6), WordBytes(h.detour));
    HeldWordIsLoaded(w.mem, Plus(h.enter, 6), h.detour);
  }

  /**
   * `call_original` of a hook that is stacked on `h` calls the detour of `h`, so that a stack of
   * hooks is run through from the top down to the original function.
   */
  lemma StackedOriginalIsLowerDetour(fu: FlagUnit, w: World, p: PageSize, base: Memory, i: nat, j: nat, t: Cpu)
    requires Inv(w, p, base) && i < |w.hooks| && j < |w.hooks|
    requires w.hooks[i].target != 0 && w.hooks[j].target == w.hooks[i].enter != 0
    requires Unpatched(w, Range(w.hooks[j].original, |w.hooks[j].saved| + 14))
    requires Unpatched(w, Range(Plus(w.hooks[i].enter, 6), 8))
    requires t.mem == w.mem && t.rip == w.hooks[j].original
    ensures Step(fu, t) == Some(t.(rip := w.hooks[i].detour))
  {
    var h, g := w.hooks[i], w.hooks[j];
    assert WellBuilt(base, h);
    OriginalIsHeld(w, p, base, j);
    EntranceInBase(base, h);
    var moved := Relocate(g.saved, g.target, g.original).value;
    hide Decode, Step, Relocate, LoadWord, WellBuilt, Inv, PureJmp;
    SavedJumpDecodes(base, h, g);
    MovedJumpJumps(fu, t, g.saved, g.target, moved, PureJmp(Plus(g.target, |g.saved|)));
    LiteralIsLoaded(w, p, base, h);
  }

  // ----- retargeting resolves the detour again

  lemma RetargetResolves(w: World, c: Command)
    requires c.ChangeTarget? && c.i < |w.hooks| && Perform(w, c).thrown == None
    ensures |Perform(w, c).world.hooks| == |w.hooks| && w.hooks[c.i].detour != 0
    ensures Perform(w, c).world.hooks[c.i].detour == ResolveFuncPtr(w.mem, w.hooks[c.i].detour)
  {
    hide ResolveFuncPtr, Relocate, PatchLengthFrom, WriteTrampolines;
  }

  /**
   * `change_target_func` resolves the detour pointer once more. The hook keeps its detour exactly
   * when no `jmp rel32` stands there at that moment, or only one to itself.
   */
  lemma DetourStaysExactlyWhen(w: World, c: Command)
    requires c.ChangeTarget? && c.i < |w.hooks| && Perform(w, c).thrown == None
    ensures var d := w.hooks[c.i].detour;
            && |Perform(w, c).world.hooks| == |w.hooks|
            && (Perform(w, c).world.hooks[c.i].detour == d
                <==> w.mem(d) != 0xE9 || Int32From(Read(w.mem, Plus(d, 1), 4)) == -5)
  {
    hide Perform;
    RetargetResolves(w, c);
  }

  /**
   * If the detour itself has been hooked since, the retargeted hook loses it: from now on it goes
   * to the entrance jump of the other hook, whether that one stays installed or not.
   */
  lemma HookedDetourIsReplaced(w: World, p: PageSize, base: Memory, c: Command, j: nat)
    requires Inv(w, p, base) && c.ChangeTarget? && c.i < |w.hooks| && Perform(w, c).thrown == None
    requires j < |w.hooks| && w.hooks[j].installed && w.hooks[j].target == w.hooks[c.i].detour
    ensures |Perform(w, c).world.hooks| == |w.hooks|
    ensures Perform(w, c).world.hooks[c.i].detour == w.hooks[j].enter != w.hooks[c.i].detour
  {
    hide Perform, ResolveFuncPtr, Relocate, TrampolineCode;
    assert WellBuilt(base, w.hooks[j]);
    HookedTargetResolves(w, p, base, j);
    RetargetResolves(w, c);
  }
}
