/** One small process in which the situations of `HookOverlaps` and `HookStacks` arise. */
module HookExamples {
  import opened Words
  import opened Memories
  import opened Wrappers
  import opened Encoders
  import opened Pages
  import opened HookModel
  import opened HookRuns
  import opened HookBehaviour
  import opened HookOverlaps
  import opened HookStacks

  const PAGE: PageSize := 0x100
  const FUNC: Word := 0x10000
  const DETOUR: Word := 0x20000
  const BELOW: Word := 0xFF00
  const ABOVE: Word := 0x10100

  /** Nops everywhere, and the two pages next to the function's page are free. */
  ghost function NopWorld(): World {
    World((a: Word) => 0x90, {BELOW, ABOVE}, [])
  }

  lemma NothingAtZero(free: set<Word>, base: Word)
    requires base !in free
    ensures NoneBefore(free, base, PAGE, 1)
  {
    assert ProbeDist(PAGE, 0) == 0;
  }

  lemma SecondProbe()
    ensures ProbeDist(PAGE, 1) == 0x100 && ProbeDist(PAGE, 2) == 0x200
  {
    FirstHundredProbes(PAGE, 1);
    FirstHundredProbes(PAGE, 2);
  }

  lemma AlignedAt(a: Word, base: Word)
    requires Aligned(base, PAGE) && base <= a < base + 0x100
    ensures AlignDown(a, PAGE) == base
  {
    hide AlignDown;
    MultiplesAdd(AlignDown(a, PAGE), base, PAGE);
  }

  /** The allocator gives the page below first, and then the page above. */
  lemma PagesFound()
    ensures FirstFound({BELOW, ABOVE}, AlignDown(FUNC, PAGE), PAGE, Some(BELOW))
    ensures FirstFound({ABOVE}, AlignDown(FUNC, PAGE), PAGE, Some(ABOVE))
  {
    AlignedAt(FUNC, FUNC);
    SecondProbe();
    hide AlignDown, ProbeDist;
    NothingAtZero({BELOW, ABOVE}, FUNC);
    NothingAtZero({ABOVE}, FUNC);
    assert FoundBy({BELOW, ABOVE}, FUNC, PAGE, Some(BELOW), 1);
    assert FoundBy({ABOVE}, FUNC, PAGE, Some(ABOVE), 1);
  }

  lemma ReadyForTwo()
    ensures NopsReady(NopWorld(), PAGE, FUNC, DETOUR, BELOW)
    ensures NopsReady(NopWorld().(free := {BELOW, ABOVE} - {BELOW}), PAGE, FUNC, DETOUR, ABOVE)
  {
    PagesFound();
    hide FirstFound, AlignDown;
    assert {BELOW, ABOVE} - {BELOW} == {ABOVE};
  }

  /** Two hooks on its function, and the patch of an installed one is gone. */
  lemma TwoHooksHappen()
    ensures NoHooksYet(NopWorld(), PAGE)
    ensures var created := [Create("first", FUNC, DETOUR, Some(BELOW)), Create("second", FUNC, DETOUR, Some(ABOVE))];
            var now := Run(Run(NopWorld(), created), [Install(0), Install(1), Uninstall(0)]);
            && |now.hooks| == 2 && now.hooks[1].installed && now.hooks[1].target == FUNC
            && !Holds(now.mem, FUNC, PatchBytes(now.hooks[1]))
  {
    hide FirstFound, AlignDown, Run, PatchBytes;
    ReadyForTwo();
    TwoHooksOnOneFunction(NopWorld(), PAGE, FUNC, DETOUR, DETOUR, BELOW, ABOVE);
  }

  lemma FoundAgain(base: Word)
    requires base == BELOW
    ensures FirstFound({ABOVE}, base, PAGE, Some(ABOVE))
  {
    SecondProbe();
    assert ProbeDist(PAGE, 0) == 0;
    assert FoundBy({ABOVE}, base, PAGE, Some(ABOVE), 2);
  }

  lemma InstallKeepsFree(w: World)
    ensures Perform(w, Install(0)).world.free == w.free
  {}

  /** The process after one hook has been created and installed. */
  ghost function HookedWorld(): World {
    Run(NopWorld(), [Create("first", FUNC, DETOUR, Some(BELOW)), Install(0)])
  }

  ghost function HookedBase(): Memory {
    Perform(NopWorld(), Create("first", FUNC, DETOUR, Some(BELOW))).world.mem
  }

  lemma HookIsInstalled()
    ensures Inv(HookedWorld(), PAGE, HookedBase()) && HookedWorld().free == {ABOVE}
    ensures HookedWorld().hooks
         == [NopHook(NopWorld().mem, "first", FUNC, DETOUR, BELOW).(installed := true)]
  {
    hide FirstFound, AlignDown, WithTrampolines, Build, WellBuilt, Run;
    var c := Create("first", FUNC, DETOUR, Some(BELOW));
    ReadyForTwo();
    NopsCreate(NopWorld(), PAGE, "first", FUNC, DETOUR, BELOW);
    var w1, h := Perform(NopWorld(), c).world, NopHook(NopWorld().mem, "first", FUNC, DETOUR, BELOW);
    assert w1.free == {ABOVE} && w1.hooks == [] + [h];
    assert Inv(w1, PAGE, w1.mem);
    InstallLast(w1, PAGE, w1.mem, [], h);
    InstallKeepsFree(w1);
    RunOfTwo(NopWorld(), c, Install(0));
  }

  /** A second hook may be created on the function when the first is installed. */
  lemma StackingHappens()
    ensures Inv(HookedWorld(), PAGE, HookedBase()) && PagesApart(HookedWorld().free, PAGE)
    ensures !NameTaken(HookedWorld().hooks, "second")
    ensures StacksOn(HookedWorld(), PAGE, Create("second", FUNC, DETOUR, Some(ABOVE)), 0)
  {
    hide FirstFound, AlignDown, HookedWorld, HookedBase, Inv;
    HookIsInstalled();
    var w := HookedWorld();
    var h := w.hooks[0];
    HookedTargetResolves(w, PAGE, HookedBase(), 0);
    AlignedAt(h.enter, BELOW);
    FoundAgain(AlignDown(h.enter, PAGE));
    assert NothingOnEntrance(w, h);
  }

  // ----- retargeting that changes the detour

  /** Jumps from 0x20000 to 0x20010 and from there to 0x20020. */
  ghost function JumpWorld(): World {
    var chain: Memory := a => if a in {0x20000, 0x20010} then 0xE9 else if a in {0x20001, 0x20011} then 0x0B else 0x00;
    World(chain, {}, [])
  }

  lemma JumpsResolve()
    ensures ResolveFuncPtr(JumpWorld().mem, 0x20000) == 0x20010
    ensures ResolveFuncPtr(JumpWorld().mem, 0x20010) == 0x20020
  {
    var m := JumpWorld().mem;
    var eleven := Int32Bytes(0x0B);
    assert eleven == [0x0B, 0x00, 0x00, 0x00] by {
      assert LittleEndian(0x0B, 4) == [0x0B] + LittleEndian(0, 3);
    }
    Int32RoundTrip(0x0B);
    forall at | at in {0x20001, 0x20011} ensures Read(m, at, 4) == eleven {
      var bs := Read(m, at, 4);
      assert bs[0] == m(Plus(at, 0)) && bs[1] == m(Plus(at, 1)) && bs[2] == m(Plus(at, 2)) && bs[3] == m(Plus(at, 3));
    }
    assert Read(m, 0x20001, 4) == Read(m, 0x20011, 4) == eleven;
  }

  lemma NullResolves(m: Memory)
    ensures ResolveFuncPtr(m, 0) == 0
  {}

  lemma NoHooksInJumpWorld()
    ensures JumpWorld().hooks == [] && JumpWorld().free == {} && NoHooksYet(JumpWorld(), PAGE)
  {}

  /** Creating or retargeting the only hook without a target asks for no page. */
  lemma EmptyHook(w: World, c: Command, d: Word)
    requires w.free == {}
    requires if c.Create? then w.hooks == [] && c == Create("first", 0, c.detour, None)
             else
               && |w.hooks| == 1 && w.hooks == [Hook("first", 0, w.hooks[0].detour, false, [], 0, 0)]
               && c == ChangeTarget(0, 0, None)
    requires var detour := if c.Create? then c.detour else w.hooks[0].detour;
             detour != 0 && ResolveFuncPtr(w.mem, detour) == d
    ensures Perform(w, c) == Effect(World(w.mem, {}, [Hook("first", 0, d, false, [], 0, 0)]), None, 0)
    ensures PageFromAllocator(w, PAGE, c) && TargetIsOwn(w, PAGE, c) && Admissible(w, PAGE, c)
  {
    NullResolves(w.mem);
    hide ResolveFuncPtr;
  }

  /**
   * A hook without a target, whose detour pointer leads to a chain of two jumps: creating it
   * follows the first, and retargeting it, even to nothing again, follows the second.
   */
  lemma DetourMoves()
    ensures var w, c1, c2 := JumpWorld(), Create("first", 0, 0x20000, None), ChangeTarget(0, 0, None);
            && NoHooksYet(w, PAGE) && AdmissibleRun(w, PAGE, [c1, c2]) && AllocatedRun(w, PAGE, [c1, c2])
            && var w1, w2 := Run(w, [c1]), Run(w, [c1, c2]);
               && |w1.hooks| == |w2.hooks| == 1
               && w1.hooks[0].detour == 0x20010 && w2.hooks[0].detour == 0x20020
  {
    var w, c1, c2 := JumpWorld(), Create("first", 0, 0x20000, None), ChangeTarget(0, 0, None);
    hide JumpWorld, ResolveFuncPtr, Perform, Admissible, TargetIsOwn, PageFromAllocator;
    JumpsResolve();
    NoHooksInJumpWorld();
    EmptyHook(w, c1, 0x20010);
    var w1 := Perform(w, c1).world;
    EmptyHook(w1, c2, 0x20020);
    var w2 := Perform(w1, c2).world;
    RunOfTwo(w, c1, c2);
    assert AdmissibleRun(w2, PAGE, []) && AllocatedRun(w2, PAGE, []);
    assert [c1][1..] == [] && [c1, c2][1..] == [c2] && [c2][1..] == [];
  }

  /** A hook without a target, and then an installed one on the first one's detour. */
  ghost function HookedDetour(): World {
    Run(NopWorld(), [Create("first", 0, FUNC, None), Create("second", FUNC, DETOUR, Some(BELOW)), Install(1)])
  }

  lemma EmptyHookIsCreated()
    ensures Perform(NopWorld(), Create("first", 0, FUNC, None))
         == Effect(NopWorld().(hooks := [Hook("first", 0, FUNC, false, [], 0, 0)]), None, 0)
  {
    NullResolves(NopWorld().mem);
    assert ResolveFuncPtr(NopWorld().mem, FUNC) == FUNC;
    hide ResolveFuncPtr;
  }

  /** The world after the second call, and the hooks in it. */
  lemma DetourIsHooked() returns (w: World, e: Hook, h: Hook)
    ensures w == Perform(Perform(NopWorld(), Create("first", 0, FUNC, None)).world,
                         Create("second", FUNC, DETOUR, Some(BELOW))).world
    ensures e == Hook("first", 0, FUNC, false, [], 0, 0) && w.hooks == [e] + [h]
    ensures h.target == FUNC && !h.installed && Inv(w, PAGE, w.mem)
  {
    hide FirstFound, AlignDown, WithTrampolines, Build, WellBuilt;
    var c2 := Create("second", FUNC, DETOUR, Some(BELOW));
    EmptyHookIsCreated();
    ReadyForTwo();
    NopsCreate(NopWorld(), PAGE, "second", FUNC, DETOUR, BELOW);
    e, h := Hook("first", 0, FUNC, false, [], 0, 0), NopHook(NopWorld().mem, "second", FUNC, DETOUR, BELOW);
    var w1 := Perform(NopWorld(), Create("first", 0, FUNC, None)).world;
    assert w1.(hooks := []) == NopWorld();
    SecondCreate(w1, c2);
    w := Perform(w1, c2).world;
    EmptyHookFits(w.free, PAGE, w.mem, e);
    assert w.hooks == [e] + [h];
    hide Perform, OutsideFree;
    assert Overlaid(w.mem, w.mem, w.hooks);
  }

  lemma RetargetToNothing(w: World)
    requires |w.hooks| > 0 && !w.hooks[0].installed && w.hooks[0].name != "" && w.hooks[0].detour != 0
    ensures Perform(w, ChangeTarget(0, 0, None)).thrown == None
  {
    NullResolves(w.mem);
    hide ResolveFuncPtr;
  }

  /**
   * Retargeting the first hook, even to nothing again, then replaces its detour by the entrance
   * jump of the hook that happens to be installed there.
   */
  lemma HookedDetourHappens()
    ensures var w, c := HookedDetour(), ChangeTarget(0, 0, None);
            && |w.hooks| == 2 && w.hooks[1].installed && w.hooks[1].target == w.hooks[0].detour == FUNC
            && Perform(w, c).thrown == None && |Perform(w, c).world.hooks| == 2
            && Perform(w, c).world.hooks[0].detour == w.hooks[1].enter != FUNC
  {
    hide Build, Perform, Inv;
    var w2, e, h := DetourIsHooked();
    InstallLast(w2, PAGE, w2.mem, [e], h);
    RunOfThree(NopWorld(), Create("first", 0, FUNC, None), Create("second", FUNC, DETOUR, Some(BELOW)), Install(1));
    hide Run;
    var w := HookedDetour();
    RetargetToNothing(w);
    HookedDetourIsReplaced(w, PAGE, w2.mem, ChangeTarget(0, 0, None), 1);
  }
}
