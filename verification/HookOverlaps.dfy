/**
 * Hooks that patch the same bytes. Nothing in the library keeps them apart, and the overlay
 * that `HookRuns` proves for hooks that are apart holds for no others.
 */
module HookOverlaps {
  import opened Words
  import opened Memories
  import opened Wrappers
  import opened X86
  import opened Relocation
  import opened Encoders
  import opened Pages
  import opened HookModel
  import opened HookRuns

  // ----- hooks that are apart: installing and uninstalling keep the overlay

  /** Calls that only switch hooks on and off. */
  predicate AllSwitch(cs: seq<Command>) {
    forall c | c in cs :: c.Install? || c.Uninstall? || c.SetAll?
  }

  lemma {:induction false} SwitchingKeepsSound(w: World, base: Memory, cs: seq<Command>)
    requires Sound(w, base) && AllSwitch(cs)
    ensures Sound(Run(w, cs), base)
    decreases cs
  {
    hide Sound, SetOne, SetAllFrom;
    if cs != [] {
      assert cs[0] in cs;
      match cs[0] {
        case Install(i) => if i < |w.hooks| { SetOneKeepsSound(w, base, i, true); }
        case Uninstall(i) => if i < |w.hooks| { SetOneKeepsSound(w, base, i, false); }
        case SetAll(install) => SetAllKeepsSound(w, base, 0, install, 0);
      }
      SwitchingKeepsSound(Perform(w, cs[0]).world, base, cs[1..]);
    }
  }

  // ----- hooks that are not

  lemma OneStartsInTheOther(a: Hook, b: Hook, at: Word)
    requires at in PatchRange(a) && at in PatchRange(b)
    ensures b.target in PatchRange(a) || a.target in PatchRange(b)
  {}

  /** What was saved does not start with `jmp rel32`: that could not have been relocated. */
  lemma SavedIsNoJump(base: Memory, h: Hook)
    requires WellBuilt(base, h) && h.target != 0
    ensures h.saved[0] != 0xE9 && base(h.target) == h.saved[0]
    ensures PatchBytes(h)[0] == 0xE9
  {
    FirstIsMovable(h.saved, h.target, h.original, Relocate(h.saved, h.target, h.original).value);
    assert Minus(h.target, h.target) == 0;
  }

  lemma InstallWrites(w: World, base: Memory, i: nat)
    requires i < |w.hooks| && WellBuilt(base, w.hooks[i]) && w.hooks[i].target != 0 && !w.hooks[i].installed
    ensures var h := w.hooks[i].(installed := true);
            Perform(w, Install(i))
            == Effect(World(Write(w.mem, h.target, PatchBytes(h)), w.free, w.hooks[i := h]), None, 0)
  {}

  lemma UninstallWrites(w: World, i: nat)
    requires i < |w.hooks| && w.hooks[i].installed
    ensures var h := w.hooks[i].(installed := false);
            Perform(w, Uninstall(i)) == Effect(World(Write(w.mem, h.target, h.saved), w.free, w.hooks[i := h]), None, 0)
  {}

  /** Of two hooks, the second of which starts inside the patch of the first. */
  lemma OverlapLosesPatch(w: World, base: Memory, x: nat, y: nat)
    requires x < |w.hooks| && y < |w.hooks| && x != y
    requires WellBuilt(base, w.hooks[x]) && WellBuilt(base, w.hooks[y])
    requires !w.hooks[x].installed && !w.hooks[y].installed
    requires w.hooks[y].target != 0 && w.hooks[y].target in PatchRange(w.hooks[x])
    ensures var now := Run(w, [Install(x), Install(y), Uninstall(x)]);
            && now.hooks == w.hooks[y := w.hooks[y].(installed := true)]
            && now.mem(w.hooks[y].target) != 0xE9
  {
    hide Perform, PatchBytes, Relocate, RelJmp, TrampolineCode, Write;
    var a, b := w.hooks[x], w.hooks[y];
    SavedIsNoJump(base, b);
    InstallWrites(w, base, x);
    var w1 := Perform(w, Install(x)).world;
    InstallWrites(w1, base, y);
    var w2 := Perform(w1, Install(y)).world;
    assert a.saved[Minus(b.target, a.target)] == base(b.target);
    UninstallWrites(w2, x);
    var w3 := Perform(w2, Uninstall(x)).world;
    assert w3.mem(b.target) == a.saved[Minus(b.target, a.target)];
    assert w3.hooks == w.hooks[y := b.(installed := true)];
    RunOfThree(w, Install(x), Install(y), Uninstall(x));
  }

  /** Where an installed hook's jump is missing, its patch is not in place. */
  lemma PatchIsGone(mem: Memory, base: Memory, hooks: seq<Hook>, y: nat)
    requires y < |hooks| && hooks[y].installed && WellBuilt(base, hooks[y])
    requires mem(hooks[y].target) != 0xE9
    ensures !Holds(mem, hooks[y].target, PatchBytes(hooks[y])) && !Overlaid(mem, base, hooks)
  {
    SavedIsNoJump(base, hooks[y]);
    assert Minus(hooks[y].target, hooks[y].target) == 0;
  }

  /** After every run of installing and uninstalling calls the memory is overlaid. */
  ghost predicate StaysOverlaid(w: World) {
    forall cs | AllSwitch(cs) :: Overlaid(Run(w, cs).mem, w.mem, Run(w, cs).hooks)
  }

  lemma OverlapBreaksOverlay(w: World, x: nat, y: nat)
    requires x < |w.hooks| && y < |w.hooks| && x != y
    requires WellBuilt(w.mem, w.hooks[x]) && WellBuilt(w.mem, w.hooks[y])
    requires !w.hooks[x].installed && !w.hooks[y].installed
    requires w.hooks[y].target != 0 && w.hooks[y].target in PatchRange(w.hooks[x])
    ensures !StaysOverlaid(w)
  {
    var cs := [Install(x), Install(y), Uninstall(x)];
    OverlapLosesPatch(w, w.mem, x, y);
    hide Run;
    var now := Run(w, cs);
    assert AllSwitch(cs);
    PatchIsGone(now.mem, w.mem, now.hooks, y);
  }

  /**
   * Installing and uninstalling, in any order and however often, keep the memory overlaid by
   * exactly the installed patches if and only if no two hooks patch a common byte.
   */
  lemma OverlayKeptExactlyWhenApart(w: World)
    requires forall i: nat {:trigger w.hooks[i]} | i < |w.hooks| ::
               WellBuilt(w.mem, w.hooks[i]) && !w.hooks[i].installed
    ensures StaysOverlaid(w) <==> PatchesApart(w.hooks)
  {
    if PatchesApart(w.hooks) {
      forall cs | AllSwitch(cs) ensures Overlaid(Run(w, cs).mem, w.mem, Run(w, cs).hooks) {
        assert Overlaid(w.mem, w.mem, w.hooks);
        SwitchingKeepsSound(w, w.mem, cs);
      }
    } else {
      var i: nat, j: nat :| i < j < |w.hooks| && !(PatchRange(w.hooks[i]) !! PatchRange(w.hooks[j]));
      var at :| at in PatchRange(w.hooks[i]) && at in PatchRange(w.hooks[j]);
      assert w.hooks[i].target != 0 && w.hooks[j].target != 0;
      OneStartsInTheOther(w.hooks[i], w.hooks[j], at);
      hide WellBuilt, PatchRange, StaysOverlaid;
      if w.hooks[j].target in PatchRange(w.hooks[i]) {
        OverlapBreaksOverlay(w, i, j);
      } else {
        OverlapBreaksOverlay(w, j, i);
      }
    }
  }

  // ----- a run that ends this way

  lemma {:induction false} NopsPatchLength(m: Memory, t: Word, n: nat)
    requires Holds(m, t, Nops(REL_JMP_SIZE)) && n <= REL_JMP_SIZE
    ensures PatchLengthFrom(m, t, n) == Some(REL_JMP_SIZE)
    decreases REL_JMP_SIZE - n
  {
    if n < REL_JMP_SIZE {
      MinusOfPlus(t, n);
      var fetched := Read(m, Plus(t, n), MAX_LENGTH);
      assert m(Plus(t, n)) == Nops(REL_JMP_SIZE)[Minus(Plus(t, n), t)];
      assert fetched[0] == m(Plus(Plus(t, n), 0)) == 0x90;
      NopsPatchLength(m, t, n + 1);
    }
  }

  lemma {:induction false} NopsMove(k: nat, from: Word, to: Word)
    requires k < TWO64
    ensures RelocateAll(Nops(k), from, to) == Ok(Nops(k))
  {
    if k > 0 {
      assert Decode(Nops(k)) == Some(Nop);
      DecodeFirst(Nops(k));
      assert Nops(k)[..1] == [0x90] && Nops(k)[1..] == Nops(k - 1) && [0x90] + Nops(k - 1) == Nops(k);
      NopsMove(k - 1, Plus(from, 1), Plus(to, 1));
    }
  }

  /** The hook on five nops at `t`. */
  function NopHook(m: Memory, name: string, t: Word, detour: Word, page: Word): Hook {
    Hook(name, t, ResolveFuncPtr(m, detour), false, Nops(REL_JMP_SIZE), page, Plus(page, 19))
  }

  lemma NopsBuild(m: Memory, name: string, t: Word, detour: Word, page: Word)
    requires Holds(m, t, Nops(REL_JMP_SIZE)) && t != 0 && detour != 0 && name != "" && page != t
    ensures var h := NopHook(m, name, t, detour, page);
            Build(m, Some(page), name, t, detour) == Ok(Built(h, WithTrampolines(m, h)))
  {
    assert Minus(t, t) == 0 && m(t) == 0x90;
    hide PatchLengthFrom, Decode, RelocateAll, WriteTrampolines;
    NopsPatchLength(m, t, 0);
    HeldBytesAreRead(m, t, Nops(REL_JMP_SIZE));
    NopsMove(REL_JMP_SIZE, t, page);
    hide Read, Holds, Nops;
    assert Relocate(Nops(REL_JMP_SIZE), t, page) == Ok(Nops(REL_JMP_SIZE));
    hide Relocate;
  }

  /** `w` is about to get a hook on the five nops at `t`, in a page from the allocator. */
  ghost predicate NopsReady(w: World, p: PageSize, t: Word, detour: Word, page: Word) {
    && PagesApart(w.free, p) && Holds(w.mem, t, Nops(REL_JMP_SIZE)) && t != 0 && detour != 0
    && FirstFound(w.free, AlignDown(t, p), p, Some(page))
    && forall q: Word {:trigger q in w.free} | q in w.free :: Range(q, p) !! Range(t, REL_JMP_SIZE)
  }

  lemma NopsHosted(w: World, p: PageSize, name: string, t: Word, detour: Word, page: Word)
    requires w.hooks == [] && NopsReady(w, p, t, detour, page) && name != ""
    ensures var h := NopHook(w.mem, name, t, detour, page);
            && Build(w.mem, Some(page), name, t, detour) == Ok(Built(h, WithTrampolines(w.mem, h)))
            && Relocate(h.saved, h.target, h.original).Ok? && CanHost(w, p, h, 0)
  {
    hide FirstFound, WithTrampolines, AlignDown;
    FoundIsNear(w.free, t, p, Some(page));
    assert page in w.free && t in Range(t, REL_JMP_SIZE) && page in Range(page, p);
    NopsBuild(w.mem, name, t, detour, page);
    NopsMove(REL_JMP_SIZE, t, page);
    hide Build;
  }

  lemma NopsSound(w: World, p: PageSize, h: Hook, t: Word, page: Word, detour: Word)
    requires w.hooks == [] && PagesApart(w.free, p) && CanHost(w, p, h, 0) && page == h.original
    requires Build(w.mem, Some(page), h.name, t, detour) == Ok(Built(h, WithTrampolines(w.mem, h)))
    ensures WellBuilt(WithTrampolines(w.mem, h), h) && OutsideFree(w.free - {page}, p, h)
  {
    hide Build, WithTrampolines, WellBuilt, OutsideFree, CanHost;
    BuildKeepsInv(w, p, w.mem, Some(page), t, h, 0);
    assert Put(w.hooks, 0, h)[0] == h;
  }

  /** Creating a hook on five nops in a world without hooks leaves them, and a sound hook. */
  lemma NopsCreate(w: World, p: PageSize, name: string, t: Word, detour: Word, page: Word)
    requires w.hooks == [] && NopsReady(w, p, t, detour, page) && name != ""
    ensures var h := NopHook(w.mem, name, t, detour, page);
            && Perform(w, Create(name, t, detour, Some(page)))
               == Effect(World(WithTrampolines(w.mem, h), w.free - {page}, [h]), None, 0)
            && WellBuilt(WithTrampolines(w.mem, h), h) && OutsideFree(w.free - {page}, p, h) && page in w.free
            && Holds(WithTrampolines(w.mem, h), t, Nops(REL_JMP_SIZE))
            && AgreeOutside(w.mem, WithTrampolines(w.mem, h), TrampolineRange(h))
  {
    hide Build, FirstFound, WithTrampolines, WellBuilt, Relocate, AlignDown;
    var h := NopHook(w.mem, name, t, detour, page);
    NopsHosted(w, p, name, t, detour, page);
    assert w.hooks + [h] == [h] && !NameTaken(w.hooks, name);
    TrampolinesAreWritten(w.mem, h);
    TrampolinesFitPage(h, p);
    hide Perform;
    NopsSound(w, p, h, t, page, detour);
    assert Range(page, p) !! Range(t, REL_JMP_SIZE);
    HoldsFrame(w.mem, WithTrampolines(w.mem, h), t, Nops(REL_JMP_SIZE));
  }

  /** What creating a hook does to memory and pages does not depend on the other hooks. */
  lemma SecondCreate(w: World, c: Command)
    requires c.Create? && !NameTaken(w.hooks, c.name) && Perform(w.(hooks := []), c).thrown == None
    ensures var e := Perform(w.(hooks := []), c).world;
            |e.hooks| == 1 && Perform(w, c) == Effect(e.(hooks := w.hooks + e.hooks), None, 0)
  {
    hide Build;
  }

  /** A second hook on the same nops leaves the first one sound. */
  lemma SecondOnSame(w: World, p: PageSize, a: Hook, t: Word, detour: Word, page: Word)
    requires w.hooks == [a] && a.name != "second" && NopsReady(w, p, t, detour, page)
    requires WellBuilt(w.mem, a) && OutsideFree(w.free, p, a)
    ensures var b := NopHook(w.mem, "second", t, detour, page);
            var w' := Perform(w, Create("second", t, detour, Some(page))).world;
            && w'.hooks == [a, b] && WellBuilt(w'.mem, a) && WellBuilt(w'.mem, b)
  {
    var alone, c := w.(hooks := []), Create("second", t, detour, Some(page));
    var b := NopHook(w.mem, "second", t, detour, page);
    hide FirstFound, WithTrampolines, Build, WellBuilt;
    NopsCreate(alone, p, "second", t, detour, page);
    SecondCreate(w, c);
    assert [a] + [b] == [a, b];
    var w' := Perform(w, c).world;
    hide Perform;
    TrampolinesFitPage(b, p);
    assert page in w.free;
    WellBuiltFrame(w.mem, w'.mem, a, TrampolineRange(b));
  }

  /**
   * Two hooks on one function, each in a page from the allocator: when both are installed and the
   * first is uninstalled, the second counts as installed and its patch is gone.
   */
  lemma TwoHooksOnOneFunction(w: World, p: PageSize, t: Word, detour1: Word, detour2: Word, page1: Word, page2: Word)
    requires w.hooks == [] && NopsReady(w, p, t, detour1, page1)
    requires NopsReady(w.(free := w.free - {page1}), p, t, detour2, page2)
    ensures var created := [Create("first", t, detour1, Some(page1)), Create("second", t, detour2, Some(page2))];
            var now := Run(Run(w, created), [Install(0), Install(1), Uninstall(0)]);
            && |now.hooks| == 2 && now.hooks[1].installed && now.hooks[1].target == t
            && !Holds(now.mem, t, PatchBytes(now.hooks[1]))
  {
    var c1, c2 := Create("first", t, detour1, Some(page1)), Create("second", t, detour2, Some(page2));
    NopsCreate(w, p, "first", t, detour1, page1);
    var w1 := Perform(w, c1).world;
    var a, b := NopHook(w.mem, "first", t, detour1, page1), NopHook(w1.mem, "second", t, detour2, page2);
    hide FirstFound, WithTrampolines, Build, WellBuilt, Perform, PatchBytes;
    SecondOnSame(w1, p, a, t, detour2, page2);
    var w2 := Perform(w1, c2).world;
    OverlapLosesPatch(w2, w2.mem, 0, 1);
    var now := Run(w2, [Install(0), Install(1), Uninstall(0)]);
    PatchIsGone(now.mem, w2.mem, now.hooks, 1);
    RunOfTwo(w, c1, c2);
  }
}
