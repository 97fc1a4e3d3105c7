/**
 * Hooks on hooks. A function that is hooked already starts with a jump, which the constructor
 * follows: a second hook on it is put on the entrance jump of the first.
 */
module HookStacks {
  import opened Words
  import opened Memories
  import opened Wrappers
  import opened X86
  import opened Relocation
  import opened Encoders
  import opened Pages
  import opened HookModel
  import opened HookRuns
  import opened HookBehaviour

  /** A jump between two trampolines stays in reach. */
  lemma NearIsRelocatable(page: Word, near: Word, p: PageSize, to: Word)
    requires Near(page, near, p) && to == Plus(near, 6)
    ensures FitsInt32(NewDisp(to, Plus(page, 6)))
  {
    assert 0 <= near - AlignDown(near, p) < p;
  }

  lemma JumpMoves(from: Word, to: Word, detour: Word)
    requires from != to && FitsInt32(NewDisp(Plus(from, 6), Plus(to, 6)))
    ensures Relocate(PureJmp(detour)[..6], from, to).Ok?
  {
    var code := PureJmp(detour)[..6];
    assert code[2..6] == Int32Bytes(0);
    Int32RoundTrip(0);
    assert Decode(code) == Some(JmpMem(0));
    assert Plus(Plus(from, 6), 0) == Plus(from, 6);
    assert code[..6] == code && code[6..] == [];
    hide Decode;
    assert RelocateAll(code[6..], Plus(from, 6), Plus(to, 6)).Ok?;
  }

  lemma JumpPatchLength(m: Memory, at: Word, detour: Word)
    requires Holds(m, at, PureJmp(detour))
    ensures PatchLengthFrom(m, at, 0) == Some(6) && Read(m, at, 6) == PureJmp(detour)[..6]
  {
    var code := PureJmp(detour);
    assert code[2..6] == Int32Bytes(0);
    Int32RoundTrip(0);
    assert Decode(code) == Some(JmpMem(0));
    HeldBytesAreRead(m, at, code);
    var fetched, saved := Read(m, at, MAX_LENGTH), Read(m, at, 6);
    forall k: nat {:trigger fetched[k]} {:trigger saved[k]} | k < 6 ensures fetched[k] == code[k] == saved[k] {
      assert Read(m, at, 14)[k] == code[k];
    }
    DecodeLooksNoFurther(code, fetched);
    hide Decode;
    assert Plus(at, 0) == at;
    assert PatchLengthFrom(m, at, 6) == Some(6);
    assert saved == code[..6];
  }

  /** No hook, installed or not, has its patch on the entrance jump of `h`. */
  ghost predicate NothingOnEntrance(w: World, h: Hook) {
    forall j: nat {:trigger w.hooks[j]} | j < |w.hooks| :: PatchRange(w.hooks[j]) !! Range(h.enter, 14)
  }

  lemma NothingLeavesIntact(w: World, h: Hook)
    requires NothingOnEntrance(w, h)
    ensures EntranceIntact(w, h)
  {}

  lemma EntranceOutsideFree(free: set<Word>, p: PageSize, h: Hook, page: Word)
    requires OutsideFree(free, p, h) && page in free && h.target != 0 && h.enter == Plus(h.original, |h.saved| + 14)
    requires |h.saved| <= 19
    ensures Range(page, p) !! Range(h.enter, 14)
  {
    RangesInside(h.original, |h.saved|);
    assert Range(page, p) !! TrampolineRange(h);
  }

  /** Creating a hook with the arguments of `c` asks for a hook on the installed hook `i`. */
  ghost predicate StacksOn(w: World, p: PageSize, c: Command, i: nat) {
    && i < |w.hooks| && w.hooks[i].installed && w.hooks[i].enter != 0 && NothingOnEntrance(w, w.hooks[i])
    && c.Create? && c.name != "" && c.detour != 0 && c.target == w.hooks[i].target
    && c.page.Some? && PageFromAllocator(w, p, c)
  }

  lemma StackedBuild(w: World, p: PageSize, base: Memory, c: Command, i: nat)
    requires Inv(w, p, base) && StacksOn(w, p, c, i)
    ensures NewHook(w, c).Some?
    ensures var g := NewHook(w, c).value;
            && g.target == w.hooks[i].enter && g.saved == PureJmp(w.hooks[i].detour)[..6]
            && g.detour == ResolveFuncPtr(w.mem, c.detour) && g.name == c.name
            && c.page == Some(g.original) && g.original in w.free
  {
    var h, page := w.hooks[i], c.page.value;
    assert WellBuilt(base, h) && OutsideFree(w.free, p, h);
    HookedTargetResolves(w, p, base, i);
    NothingLeavesIntact(w, h);
    IntactExactlyWhenHeld(w, p, base, h);
    FoundIsNear(w.free, h.enter, p, c.page);
    EntranceOutsideFree(w.free, p, h, page);
    assert h.enter in Range(h.enter, 14) && page in Range(page, p);
    JumpPatchLength(w.mem, h.enter, h.detour);
    NearIsRelocatable(page, h.enter, p, Plus(h.enter, 6));
    JumpMoves(h.enter, page, h.detour);
    hide WellBuilt, PatchLengthFrom, Relocate, PureJmp, WriteTrampolines, EntranceIntact, Read;
  }

  /**
   * A second hook on a hooked function can be created whenever a page is found, and is as the
   * run theorems ask: it saves the six bytes of the entrance jump of the first.
   */
  lemma StackingIsAdmissible(w: World, p: PageSize, base: Memory, c: Command, i: nat)
    requires Inv(w, p, base) && StacksOn(w, p, c, i)
    ensures NewHook(w, c).Some? && Admissible(w, p, c)
    ensures NewHook(w, c).value.target == w.hooks[i].enter
    ensures NewHook(w, c).value.saved == PureJmp(w.hooks[i].detour)[..6]
  {
    StackedBuild(w, p, base, c, i);
    var h, g := w.hooks[i], NewHook(w, c).value;
    assert WellBuilt(base, h) && OutsideFree(w.free, p, h);
    hide NewHook, PureJmp, PageFromAllocator;
    assert PatchRange(g) <= Range(h.enter, 14);
    forall page: Word {:trigger page in w.free} | page in w.free ensures Range(page, p) !! PatchRange(g) {
      EntranceOutsideFree(w.free, p, h, page);
    }
    forall j: nat {:trigger w.hooks[j]} | j < |w.hooks| ensures PatchRange(g) !! PatchRange(w.hooks[j]) {
      assert PatchRange(w.hooks[j]) !! Range(h.enter, 14);
    }
    assert TargetIsOwn(w, p, c);
    AllocatedPageIsAdmissible(w, p, c);
  }

  lemma CreateAppends(w: World, c: Command)
    requires c.Create? && NewHook(w, c).Some? && !NameTaken(w.hooks, c.name)
    ensures Perform(w, c).world.hooks == w.hooks + [NewHook(w, c).value]
  {
    hide Build;
  }

  lemma InstallLast(w: World, p: PageSize, base: Memory, hooks: seq<Hook>, g: Hook)
    requires Inv(w, p, base) && w.hooks == hooks + [g] && !g.installed && g.target != 0
    ensures var now := Perform(w, Install(|hooks|)).world;
            Inv(now, p, base) && now.hooks == hooks + [g.(installed := true)]
  {
    hide Inv;
    SetOneResult(w, p, base, |hooks|, true);
    hide SetOne;
    assert w.hooks[|hooks| := g.(installed := true)] == hooks + [g.(installed := true)];
  }

  lemma NewHookIsUninstalled(w: World, c: Command)
    requires c.Create? && NewHook(w, c).Some?
    ensures !NewHook(w, c).value.installed
  {
    BuiltShape(w.mem, c.page, c.name, c.target, c.detour);
    hide Build;
  }

  /** The world after creating the stacked hook and installing it. */
  lemma StackedWorld(w: World, p: PageSize, base: Memory, c: Command, i: nat) returns (now: World)
    requires Inv(w, p, base) && PagesApart(w.free, p) && StacksOn(w, p, c, i) && !NameTaken(w.hooks, c.name)
    ensures now == Run(w, [c, Install(|w.hooks|)]) && Inv(now, p, BaseAfter(w, base, c))
    ensures NewHook(w, c).Some? && now.hooks == w.hooks + [NewHook(w, c).value.(installed := true)]
  {
    StackingIsAdmissible(w, p, base, c, i);
    PerformKeepsInv(w, p, base, c);
    CreateAppends(w, c);
    NewHookIsUninstalled(w, c);
    hide Inv, BaseAfter, Perform, NewHook, Build, PureJmp;
    InstallLast(Perform(w, c).world, p, BaseAfter(w, base, c), w.hooks, NewHook(w, c).value);
    RunOfTwo(w, c, Install(|w.hooks|));
    now := Run(w, [c, Install(|w.hooks|)]);
  }

  lemma EntranceParts(enter: Word)
    ensures Range(enter, 14) == Range(enter, 6) + Range(Plus(enter, 6), 8)
    ensures Range(enter, 6) !! Range(Plus(enter, 6), 8)
  {
    forall a: Word
      ensures Minus(a, enter) < 14 <==> Minus(a, enter) < 6 || Minus(a, Plus(enter, 6)) < 8
      ensures !(Minus(a, enter) < 6 && Minus(a, Plus(enter, 6)) < 8)
    {}
  }

  lemma HookIsHomed(w: World, p: PageSize, base: Memory, i: nat)
    requires Inv(w, p, base) && i < |w.hooks|
    ensures var h := w.hooks[i];
            && OutsideFree(w.free, p, h) && |h.saved| <= 19
            && (h.installed ==> h.target != 0)
            && (h.target != 0 ==> h.enter == Plus(h.original, |h.saved| + 14))
  {
    assert WellBuilt(base, w.hooks[i]) && OutsideFree(w.free, p, w.hooks[i]);
  }

  /** Neither the old hooks nor the stacked one patch the stacked hook's page. */
  lemma StackedPageUnpatched(w: World, p: PageSize, base: Memory, c: Command, i: nat, hooks: seq<Hook>, j: nat)
    requires Inv(w, p, base) && StacksOn(w, p, c, i) && NewHook(w, c).Some? && j < |hooks|
    requires hooks == w.hooks + [NewHook(w, c).value.(installed := true)]
    ensures PatchRange(hooks[j]) !! Range(c.page.value, p)
    ensures PatchRange(hooks[j]) !! Range(Plus(w.hooks[i].enter, 6), 8)
  {
    hide NewHook, PureJmp, PageFromAllocator, Inv, WellBuilt;
    StackedBuild(w, p, base, c, i);
    var h, page := w.hooks[i], c.page.value;
    HookIsHomed(w, p, base, i);
    EntranceOutsideFree(w.free, p, h, page);
    EntranceParts(h.enter);
    if j < |w.hooks| {
      assert hooks[j] == w.hooks[j];
      HookIsHomed(w, p, base, j);
      assert PatchRange(w.hooks[j]) !! Range(h.enter, 14);
      assert Range(page, p) !! PatchRange(w.hooks[j]);
    } else {
      assert PatchRange(hooks[j]) == Range(h.enter, 6);
    }
  }

  lemma ApartIsUnpatched(w: World, r: iset<Word>)
    requires forall j: nat {:trigger w.hooks[j]} | j < |w.hooks| :: PatchRange(w.hooks[j]) !! r
    ensures Unpatched(w, r)
  {
    hide PatchRange;
    forall a: Word | a in r ensures !Patched(w.hooks, a) {
      if j: nat :| j < |w.hooks| && w.hooks[j].installed && a in PatchRange(w.hooks[j]) {
        assert false;
      }
    }
  }

  /** The page of `g` and the address behind the entrance jump of `h` are nobody's to patch. */
  ghost predicate Clear(w: World, p: PageSize, g: Hook, h: Hook) {
    forall j: nat {:trigger w.hooks[j]} | j < |w.hooks| ::
      PatchRange(w.hooks[j]) !! Range(g.original, p) && PatchRange(w.hooks[j]) !! Range(Plus(h.enter, 6), 8)
  }

  lemma ClearIsUnpatched(w: World, p: PageSize, g: Hook, h: Hook)
    requires |g.saved| <= 19 && g.enter == Plus(g.original, |g.saved| + 14) && Clear(w, p, g, h)
    ensures EntranceIntact(w, g)
    ensures Unpatched(w, Range(g.original, |g.saved| + 14)) && Unpatched(w, Range(Plus(h.enter, 6), 8))
  {
    RangesInside(g.original, |g.saved|);
    hide PatchRange, PureJmp, PatchBytes;
    assert Range(g.enter, 14) <= Range(g.original, p);
    assert Range(g.original, |g.saved| + 14) <= Range(g.original, p);
    NothingLeavesIntact(w, g);
    hide EntranceIntact;
    ApartIsUnpatched(w, Range(g.original, |g.saved| + 14));
    ApartIsUnpatched(w, Range(Plus(h.enter, 6), 8));
  }

  lemma StackOfTwo(fu: FlagUnit, w: World, p: PageSize, base: Memory, i: nat, j: nat, s: Cpu, t: Cpu)
    requires Inv(w, p, base) && i < |w.hooks| && j < |w.hooks| && w.hooks[i].installed && w.hooks[j].installed
    requires w.hooks[j].target == w.hooks[i].enter != 0 && Clear(w, p, w.hooks[j], w.hooks[i])
    requires s.mem == t.mem == w.mem && s.rip == w.hooks[i].target && t.rip == w.hooks[j].original
    ensures Steps(fu, 3, s) == Some(s.(rip := w.hooks[j].detour))
    ensures Step(fu, t) == Some(t.(rip := w.hooks[i].detour))
  {
    assert WellBuilt(base, w.hooks[i]) && WellBuilt(base, w.hooks[j]);
    ClearIsUnpatched(w, p, w.hooks[j], w.hooks[i]);
    hide Steps, Step, Inv, WellBuilt, EntranceIntact, Unpatched, Clear;
    var stack: seq<nat> := [i, j];
    StackedCallEntersTopDetour(fu, w, p, base, stack, s);
    StackedOriginalIsLowerDetour(fu, w, p, base, i, j, t);
  }

  /**
   * After a second hook has been created on a hooked function and installed, a call of the
   * function is at the second detour three instructions later, and the second hook's
   * `call_original` is at the first detour one instruction later, with only RIP changed.
   */
  lemma SecondHookTakesOver(fu: FlagUnit, w: World, p: PageSize, base: Memory, c: Command, i: nat, s: Cpu, t: Cpu)
    requires Inv(w, p, base) && PagesApart(w.free, p) && StacksOn(w, p, c, i) && !NameTaken(w.hooks, c.name)
    requires s.mem == t.mem == Run(w, [c, Install(|w.hooks|)]).mem
    requires s.rip == w.hooks[i].target && t.rip == c.page.value
    ensures Steps(fu, 3, s) == Some(s.(rip := ResolveFuncPtr(w.mem, c.detour)))
    ensures Step(fu, t) == Some(t.(rip := w.hooks[i].detour))
  {
    hide Steps, Step, Run, NewHook, BaseAfter, PureJmp, Inv, PatchRange;
    var now := StackedWorld(w, p, base, c, i);
    StackedBuild(w, p, base, c, i);
    var n, base' := |w.hooks|, BaseAfter(w, base, c);
    forall j: nat | j < |now.hooks|
      ensures PatchRange(now.hooks[j]) !! Range(c.page.value, p)
      ensures PatchRange(now.hooks[j]) !! Range(Plus(w.hooks[i].enter, 6), 8)
    {
      StackedPageUnpatched(w, p, base, c, i, now.hooks, j);
    }
    StackOfTwo(fu, now, p, base', i, n, s, t);
  }
}
