/**
 * What every run of hook calls keeps: the memory is the memory without hooks, overlaid by
 * exactly the patches of the installed hooks, and every hook's trampolines do their job.
 */
module HookRuns {
  import opened Words
  import opened Memories
  import opened Wrappers
  import opened Relocation
  import opened Encoders
  import opened Pages
  import opened HookModel

  // ----- the invariant

  ghost function PatchRange(h: Hook): iset<Word> {
    Range(h.target, |h.saved|)
  }

  /** The relocated head, the jump behind it and the jump to the detour. */
  ghost function TrampolineRange(h: Hook): iset<Word> {
    if h.target == 0 then iset{} else Range(h.original, |h.saved| + 28)
  }

  ghost function TrampolineCode(h: Hook, moved: seq<Byte>): seq<Byte> {
    moved + PureJmp(Plus(h.target, |h.saved|)) + PureJmp(h.detour)
  }

  /** `h` was built in a memory that, without any patch, is `base`. */
  ghost predicate WellBuilt(base: Memory, h: Hook) {
    if h.target == 0 then !h.installed && h.saved == []
    else
      && REL_JMP_SIZE <= |h.saved| <= 19
      && Holds(base, h.target, h.saved)
      && h.original != h.target
      && h.enter == Plus(h.original, |h.saved| + 14) && h.enter != h.target
      && RelJmp(h.target, h.enter).Some?
      && Relocate(h.saved, h.target, h.original).Ok?
      && Holds(base, h.original, TrampolineCode(h, Relocate(h.saved, h.target, h.original).value))
  }

  /** Some installed hook's patch covers `a`. */
  ghost predicate Patched(hooks: seq<Hook>, a: Word) {
    exists i: nat :: i < |hooks| && hooks[i].installed && a in PatchRange(hooks[i])
  }

  /** `mem` is `base` overlaid by exactly the patches of the installed hooks. */
  ghost predicate Overlaid(mem: Memory, base: Memory, hooks: seq<Hook>) {
    && (forall i: nat {:trigger hooks[i]} | i < |hooks| && hooks[i].installed ::
          Holds(mem, hooks[i].target, PatchBytes(hooks[i])))
    && (forall a: Word {:trigger mem(a)} {:trigger base(a)} | !Patched(hooks, a) :: mem(a) == base(a))
  }

  ghost predicate PatchesApart(hooks: seq<Hook>) {
    forall i: nat, j: nat {:trigger hooks[i], hooks[j]} | i < j < |hooks| ::
      PatchRange(hooks[i]) !! PatchRange(hooks[j])
  }

  ghost predicate DistinctNames(hooks: seq<Hook>) {
    forall i: nat, j: nat {:trigger hooks[i], hooks[j]} | i < j < |hooks| :: hooks[i].name != hooks[j].name
  }

  /** Nothing of `h` lies in a page that is still free. */
  ghost predicate OutsideFree(free: set<Word>, p: PageSize, h: Hook) {
    forall page: Word {:trigger page in free} | page in free ::
      Range(page, p) !! PatchRange(h) && Range(page, p) !! TrampolineRange(h)
  }

  /** Every hook is sound, and no two patch a common byte. */
  ghost predicate Standing(hooks: seq<Hook>, base: Memory) {
    && (forall i: nat {:trigger hooks[i]} | i < |hooks| :: WellBuilt(base, hooks[i]))
    && PatchesApart(hooks)
  }

  /** What installing and uninstalling need of the hooks, and keep. */
  ghost predicate Sound(w: World, base: Memory) {
    Standing(w.hooks, base) && Overlaid(w.mem, base, w.hooks)
  }

  /** What the hooks promise to those that are created later. */
  ghost predicate Homed(hooks: seq<Hook>, free: set<Word>, p: PageSize) {
    && (forall i: nat {:trigger hooks[i]} | i < |hooks| :: OutsideFree(free, p, hooks[i]))
    && DistinctNames(hooks)
  }

  ghost predicate Inv(w: World, p: PageSize, base: Memory) {
    Sound(w, base) && Homed(w.hooks, w.free, p)
  }

  /** The free pages do not overlap: what the system guarantees. */
  ghost predicate PagesApart(free: set<Word>, p: PageSize) {
    forall a: Word, b: Word {:trigger a in free, b in free} | a in free && b in free && a != b ::
      Range(a, p) !! Range(b, p)
  }

  // ----- the overlay determines the memory

  /** Two memories that are the same base overlaid by the same hooks are the same memory. */
  lemma OverlayIsUnique(mem: Memory, mem': Memory, base: Memory, hooks: seq<Hook>, a: Word)
    requires Overlaid(mem, base, hooks) && Overlaid(mem', base, hooks)
    ensures mem(a) == mem'(a)
  {
    if i: nat :| i < |hooks| && hooks[i].installed && a in PatchRange(hooks[i]) {
      assert Holds(mem, hooks[i].target, PatchBytes(hooks[i]));
      assert Holds(mem', hooks[i].target, PatchBytes(hooks[i]));
    } else {
      assert !Patched(hooks, a);
    }
  }

  // ----- install and uninstall keep it

  lemma PatchedAfterSet(hooks: seq<Hook>, i: nat, h: Hook, a: Word)
    requires i < |hooks| && PatchRange(h) == PatchRange(hooks[i])
    ensures a !in PatchRange(h) ==> (Patched(hooks[i := h], a) <==> Patched(hooks, a))
    ensures a in PatchRange(h) && h.installed ==> Patched(hooks[i := h], a)
  {
    var hooks' := hooks[i := h];
    if a in PatchRange(h) {
      assert hooks'[i] == h;
    } else {
      if j: nat :| j < |hooks| && hooks[j].installed && a in PatchRange(hooks[j]) {
        assert hooks'[j] == hooks[j];
      }
      if j: nat :| j < |hooks'| && hooks'[j].installed && a in PatchRange(hooks'[j]) {
        assert hooks'[j] == hooks[j];
      }
    }
  }

  lemma SetOneOverlays(mem: Memory, base: Memory, hooks: seq<Hook>, i: nat, h: Hook, bytes: seq<Byte>)
    requires i < |hooks| && PatchesApart(hooks) && Overlaid(mem, base, hooks)
    requires h == hooks[i].(installed := h.installed) && h.installed != hooks[i].installed
    requires bytes == if h.installed then PatchBytes(h) else h.saved
    requires Holds(base, h.target, h.saved)
    ensures Overlaid(Write(mem, h.target, bytes), base, hooks[i := h])
  {
    var mem', hooks' := Write(mem, h.target, bytes), hooks[i := h];
    forall j: nat {:trigger hooks'[j]} | j < |hooks'| && hooks'[j].installed
      ensures Holds(mem', hooks'[j].target, PatchBytes(hooks'[j]))
    {
      if j != i {
        assert PatchRange(hooks[i]) !! PatchRange(hooks[j]);
        HoldsFrame(mem, mem', hooks[j].target, PatchBytes(hooks[j]));
      }
    }
    forall a: Word {:trigger mem'(a)} | !Patched(hooks', a) ensures mem'(a) == base(a) {
      PatchedAfterSet(hooks, i, h, a);
      if a !in PatchRange(h) {
        assert mem'(a) == mem(a);
      }
    }
  }

  /** Installing never fails for the distance: only hooks without a target throw. */
  lemma SetOneThrows(w: World, p: PageSize, base: Memory, i: nat, install: bool)
    requires Inv(w, p, base) && i < |w.hooks| && w.hooks[i].installed != install
    ensures SetOne(w, i, install).thrown == if install && w.hooks[i].target == 0 then Some(NoTarget) else None
  {
    assert WellBuilt(base, w.hooks[i]);
  }

  /** The same hooks, installed or not. */
  ghost predicate Switched(hooks: seq<Hook>, hooks': seq<Hook>) {
    && |hooks'| == |hooks|
    && forall i: nat {:trigger hooks[i]} {:trigger hooks'[i]} | i < |hooks| ::
         hooks'[i] == hooks[i].(installed := hooks'[i].installed)
  }

  lemma SwitchedStaysStanding(hooks: seq<Hook>, hooks': seq<Hook>, base: Memory)
    requires Standing(hooks, base) && Switched(hooks, hooks')
    requires forall i: nat {:trigger hooks'[i]} | i < |hooks'| :: hooks'[i].installed ==> hooks'[i].target != 0
    ensures Standing(hooks', base)
  {
    forall i: nat {:trigger hooks'[i]} | i < |hooks'|
      ensures WellBuilt(base, hooks'[i]) && PatchRange(hooks'[i]) == PatchRange(hooks[i])
    {
      assert WellBuilt(base, hooks[i]);
    }
    hide WellBuilt, PatchRange;
    forall i: nat, j: nat {:trigger hooks'[i], hooks'[j]} | i < j < |hooks'|
      ensures PatchRange(hooks'[i]) !! PatchRange(hooks'[j])
    {
      assert PatchRange(hooks[i]) !! PatchRange(hooks[j]);
    }
  }

  lemma InstalledHasTarget(hooks: seq<Hook>, base: Memory)
    requires Standing(hooks, base)
    ensures forall i: nat {:trigger hooks[i]} | i < |hooks| :: hooks[i].installed ==> hooks[i].target != 0
  {
    forall i: nat {:trigger hooks[i]} | i < |hooks| ensures hooks[i].installed ==> hooks[i].target != 0 {
      assert WellBuilt(base, hooks[i]);
    }
  }

  lemma SavedInBase(hooks: seq<Hook>, base: Memory, i: nat)
    requires Standing(hooks, base) && i < |hooks|
    ensures Holds(base, hooks[i].target, hooks[i].saved) && PatchesApart(hooks)
  {
    assert WellBuilt(base, hooks[i]);
  }

  lemma SetOneKeepsSound(w: World, base: Memory, i: nat, install: bool)
    requires Sound(w, base) && i < |w.hooks|
    ensures Sound(SetOne(w, i, install).world, base)
  {
    hide Standing, Overlaid, PatchesApart;
    var e := SetOne(w, i, install);
    if e.thrown.None? {
      var h := e.world.hooks[i];
      SavedInBase(w.hooks, base, i);
      SetOneOverlays(w.mem, base, w.hooks, i, h, if install then PatchBytes(h) else h.saved);
      InstalledHasTarget(w.hooks, base);
      SwitchedStaysStanding(w.hooks, e.world.hooks, base);
    }
  }

  lemma {:induction false} SetAllKeepsSound(w: World, base: Memory, k: nat, install: bool, count: nat)
    requires Sound(w, base) && k <= |w.hooks|
    ensures Sound(SetAllFrom(w, k, install, count).world, base)
    decreases |w.hooks| - k
  {
    hide Sound, SetOne;
    if k < |w.hooks| {
      SetOneKeepsSound(w, base, k, install);
      var one := SetOne(w, k, install);
      if w.hooks[k].installed == install {
        SetAllKeepsSound(w, base, k + 1, install, count);
      } else if one.thrown.None? {
        SetAllKeepsSound(one.world, base, k + 1, install, count + 1);
      }
    }
  }

  lemma {:induction false} SetAllSwitches(w: World, k: nat, install: bool, count: nat)
    requires k <= |w.hooks|
    ensures var w' := SetAllFrom(w, k, install, count).world; w'.free == w.free && Switched(w.hooks, w'.hooks)
    decreases |w.hooks| - k
  {
    if k < |w.hooks| {
      var one := SetOne(w, k, install);
      assert one.world.free == w.free && Switched(w.hooks, one.world.hooks);
      hide SetOne;
      if w.hooks[k].installed == install {
        SetAllSwitches(w, k + 1, install, count);
      } else if one.thrown.None? {
        SetAllSwitches(one.world, k + 1, install, count + 1);
      }
    }
  }

  lemma SwitchedStaysHomed(hooks: seq<Hook>, hooks': seq<Hook>, free: set<Word>, p: PageSize)
    requires Homed(hooks, free, p) && Switched(hooks, hooks')
    ensures Homed(hooks', free, p)
  {
    forall i: nat {:trigger hooks'[i]} | i < |hooks'|
      ensures OutsideFree(free, p, hooks'[i]) && hooks'[i].name == hooks[i].name
    {
      assert OutsideFree(free, p, hooks[i]);
    }
  }

  lemma SetOneKeepsInv(w: World, p: PageSize, base: Memory, i: nat, install: bool)
    requires Inv(w, p, base) && i < |w.hooks|
    ensures Inv(SetOne(w, i, install).world, p, base)
  {
    var w' := SetOne(w, i, install).world;
    assert w'.free == w.free && Switched(w.hooks, w'.hooks);
    hide SetOne, Sound, Homed, Switched;
    SetOneKeepsSound(w, base, i, install);
    SwitchedStaysHomed(w.hooks, w'.hooks, w.free, p);
  }

  lemma SetAllKeepsInv(w: World, p: PageSize, base: Memory, install: bool)
    requires Inv(w, p, base)
    ensures Inv(SetAllFrom(w, 0, install, 0).world, p, base)
  {
    hide SetAllFrom, Sound, Homed, Switched;
    SetAllKeepsSound(w, base, 0, install, 0);
    SetAllSwitches(w, 0, install, 0);
    SwitchedStaysHomed(w.hooks, SetAllFrom(w, 0, install, 0).world.hooks, w.free, p);
  }

  // ----- creating and retargeting keep it

  /** `m` with the trampolines of `h` written to its page. */
  ghost function WithTrampolines(m: Memory, h: Hook): Memory {
    if h.target == 0 || Relocate(h.saved, h.target, h.original).Err? then m
    else WriteTrampolines(m, h.original, Relocate(h.saved, h.target, h.original).value,
                          Plus(h.target, |h.saved|), h.detour)
  }

  /** The three pieces of a page are apart, and inside its range. */
  lemma RangesInside(at: Word, n: nat)
    requires n < 0x100
    ensures Range(at, n) !! Range(Plus(at, n), 14) && Range(at, n) !! Range(Plus(at, n + 14), 14)
    ensures Range(Plus(at, n), 14) !! Range(Plus(at, n + 14), 14)
    ensures Range(at, n) + Range(Plus(at, n), 14) + Range(Plus(at, n + 14), 14) <= Range(at, n + 28)
  {
    forall a: Word
      ensures Minus(a, Plus(at, n)) < 14 ==> Minus(a, at) == n + Minus(a, Plus(at, n))
      ensures Minus(a, Plus(at, n + 14)) < 14 ==> Minus(a, at) == n + 14 + Minus(a, Plus(at, n + 14))
    {}
  }

  lemma TrampolinesAreWritten(m: Memory, h: Hook)
    requires h.target != 0 && Relocate(h.saved, h.target, h.original).Ok?
    ensures Holds(WithTrampolines(m, h), h.original, TrampolineCode(h, Relocate(h.saved, h.target, h.original).value))
    ensures AgreeOutside(m, WithTrampolines(m, h), TrampolineRange(h))
  {
    var moved := Relocate(h.saved, h.target, h.original).value;
    var at, n := h.original, |h.saved|;
    var back, jump := PureJmp(Plus(h.target, n)), PureJmp(h.detour);
    hide Relocate, PureJmp;
    var m1 := Write(m, at, moved);
    var m2 := Write(m1, Plus(at, n), back);
    var m3 := Write(m2, Plus(at, n + 14), jump);
    RangesInside(at, n);
    HoldsFrame(m1, m2, at, moved);
    HoldsFrame(m2, m3, at, moved);
    HoldsFrame(m2, m3, Plus(at, n), back);
    HoldsConcat(m3, at, moved, back);
    HoldsConcat(m3, at, moved + back, jump);
    forall a: Word {:trigger m3(a)} | a !in TrampolineRange(h) ensures m(a) == m3(a) {
      assert m1(a) == m(a) && m2(a) == m1(a) && m3(a) == m2(a);
    }
  }

  /**
   * The new hook `h` may take the place of hook `i` (or a new place): its page comes from
   * `alloc_page_near`, its target is not in a free page, and no other hook patches there.
   */
  ghost predicate CanHost(w: World, p: PageSize, h: Hook, i: nat) {
    h.target != 0 ==>
      && h.original in w.free && Near(h.original, h.target, p)
      && (forall page: Word {:trigger page in w.free} | page in w.free :: Range(page, p) !! PatchRange(h))
      && (forall j: nat {:trigger w.hooks[j]} | j < |w.hooks| && j != i :: PatchRange(h) !! PatchRange(w.hooks[j]))
  }

  lemma TrampolinesFitPage(h: Hook, p: PageSize)
    requires |h.saved| <= 19
    ensures TrampolineRange(h) <= Range(h.original, p)
  {}

  lemma SameTrampolines(m: Memory, m': Memory, h: Hook, a: Word)
    requires h.target != 0 && Relocate(h.saved, h.target, h.original).Ok? && a in TrampolineRange(h)
    ensures WithTrampolines(m, h)(a) == WithTrampolines(m', h)(a)
  {
    TrampolinesAreWritten(m, h);
    TrampolinesAreWritten(m', h);
    hide WithTrampolines, Relocate;
  }

  lemma WellBuiltFrame(base: Memory, base': Memory, h: Hook, r: iset<Word>)
    requires WellBuilt(base, h) && AgreeOutside(base, base', r)
    requires r !! PatchRange(h) && r !! TrampolineRange(h)
    ensures WellBuilt(base', h)
  {
    if h.target != 0 {
      var code := TrampolineCode(h, Relocate(h.saved, h.target, h.original).value);
      assert |code| == |h.saved| + 28;
      hide TrampolineCode, Relocate;
      HoldsFrame(base, base', h.target, h.saved);
      HoldsFrame(base, base', h.original, code);
    }
  }

  /** Writing to a page that was free disturbs no hook. */
  lemma WritingTrampolinesKeepsInv(w: World, p: PageSize, base: Memory, h: Hook, i: nat)
    requires Inv(w, p, base) && CanHost(w, p, h, i) && h.target != 0 && |h.saved| <= 19
    requires Relocate(h.saved, h.target, h.original).Ok?
    ensures Inv(w.(mem := WithTrampolines(w.mem, h), free := w.free - {h.original}), p, WithTrampolines(base, h))
  {
    var mem', base' := WithTrampolines(w.mem, h), WithTrampolines(base, h);
    TrampolinesAreWritten(w.mem, h);
    TrampolinesAreWritten(base, h);
    TrampolinesFitPage(h, p);
    hide WithTrampolines, TrampolineCode, Relocate, TrampolineRange;
    var hooks := w.hooks;
    forall j: nat {:trigger hooks[j]} | j < |hooks|
      ensures WellBuilt(base', hooks[j]) && OutsideFree(w.free - {h.original}, p, hooks[j])
      ensures hooks[j].installed ==> Holds(mem', hooks[j].target, PatchBytes(hooks[j]))
    {
      var g := hooks[j];
      assert WellBuilt(base, g) && OutsideFree(w.free, p, g);
      assert h.original in w.free;
      WellBuiltFrame(base, base', g, TrampolineRange(h));
      if g.installed {
        HoldsFrame(w.mem, mem', g.target, PatchBytes(g));
      }
    }
    forall a: Word {:trigger mem'(a)} | !Patched(hooks, a) ensures mem'(a) == base'(a) {
      if a in TrampolineRange(h) {
        SameTrampolines(w.mem, base, h, a);
      } else {
        assert mem'(a) == w.mem(a) && base'(a) == base(a);
      }
    }
  }

  /** Hook `h` put at `i`, or appended. */
  function Put(hooks: seq<Hook>, i: nat, h: Hook): seq<Hook>
    requires i <= |hooks|
  {
    if i == |hooks| then hooks + [h] else hooks[i := h]
  }

  ghost predicate ApartFrom(hooks: seq<Hook>, i: nat, h: Hook) {
    forall j: nat {:trigger hooks[j]} | j < |hooks| && j != i ::
      PatchRange(h) !! PatchRange(hooks[j]) && h.name != hooks[j].name
  }

  lemma PuttingKeepsOrder(hooks: seq<Hook>, free: set<Word>, p: PageSize, base: Memory, i: nat, h: Hook)
    requires Standing(hooks, base) && Homed(hooks, free, p) && i <= |hooks|
    requires WellBuilt(base, h) && OutsideFree(free, p, h) && ApartFrom(hooks, i, h)
    ensures Standing(Put(hooks, i, h), base) && Homed(Put(hooks, i, h), free, p)
  {
    hide WellBuilt, OutsideFree;
    var hooks' := Put(hooks, i, h);
    forall j: nat {:trigger hooks'[j]} | j < |hooks'| ensures hooks'[j] == if j == i then h else hooks[j] {}
    forall j: nat, k: nat {:trigger hooks'[j], hooks'[k]} | j < k < |hooks'|
      ensures PatchRange(hooks'[j]) !! PatchRange(hooks'[k]) && hooks'[j].name != hooks'[k].name
    {
      if j != i && k != i {
        assert PatchRange(hooks[j]) !! PatchRange(hooks[k]) && hooks[j].name != hooks[k].name;
      } else {
        var other := if j == i then k else j;
        assert hooks'[other] == hooks[other];
      }
    }
  }

  lemma PutKeepsPatched(hooks: seq<Hook>, i: nat, h: Hook, a: Word)
    requires i <= |hooks| && (i < |hooks| ==> !hooks[i].installed)
    ensures Patched(hooks, a) ==> Patched(Put(hooks, i, h), a)
  {
    if j: nat :| j < |hooks| && hooks[j].installed && a in PatchRange(hooks[j]) {
      assert Put(hooks, i, h)[j] == hooks[j];
    }
  }

  lemma PuttingKeepsOverlay(mem: Memory, base: Memory, hooks: seq<Hook>, i: nat, h: Hook)
    requires Overlaid(mem, base, hooks) && i <= |hooks| && (i < |hooks| ==> !hooks[i].installed) && !h.installed
    ensures Overlaid(mem, base, Put(hooks, i, h))
  {
    hide PatchBytes, PatchRange;
    var hooks' := Put(hooks, i, h);
    forall j: nat {:trigger hooks'[j]} | j < |hooks'| && hooks'[j].installed
      ensures Holds(mem, hooks'[j].target, PatchBytes(hooks'[j]))
    {
      assert hooks'[j] == hooks[j];
    }
    forall a: Word {:trigger mem(a)} | !Patched(hooks', a) ensures mem(a) == base(a) {
      PutKeepsPatched(hooks, i, h, a);
    }
  }

  /** What the constructor leaves: the bytes it saved, and its trampolines. */
  lemma BuiltShape(m: Memory, page: Option<Word>, name: string, target: Word, detour: Word)
    requires Build(m, page, name, target, detour).Ok?
    ensures var b := Build(m, page, name, target, detour).value;
            var h := b.hook;
            && h.name == name && !h.installed && b.mem == WithTrampolines(m, h)
            && if h.target == 0 then h.saved == []
               else
                 && page == Some(h.original) && REL_JMP_SIZE <= |h.saved| <= 19
                 && h.saved == Read(m, h.target, |h.saved|)
                 && h.enter == Plus(h.original, |h.saved| + 14)
                 && Relocate(h.saved, h.target, h.original).Ok?
  {
    var h := Build(m, page, name, target, detour).value.hook;
    if h.target != 0 {
      PatchLengthIsLeast(m, h.target, PatchLengthFrom(m, h.target, 0).value);
    }
  }

  /** What was saved is what stands there without any patch. */
  lemma SavedIsBase(w: World, p: PageSize, base: Memory, h: Hook, i: nat)
    requires Inv(w, p, base) && CanHost(w, p, h, i) && h.target != 0
    requires (i < |w.hooks| ==> !w.hooks[i].installed)
    requires h.saved == Read(w.mem, h.target, |h.saved|)
    ensures Holds(base, h.target, h.saved)
  {
    ReadBytesAreHeld(w.mem, h.target, |h.saved|);
    hide Read;
    forall a: Word {:trigger base(a)} | a in PatchRange(h) ensures w.mem(a) == base(a) {
      assert !Patched(w.hooks, a);
    }
    HoldsFrame(w.mem, base, h.target, h.saved);
  }

  /** A hook that was just built is well built, and can be put in its place. */
  lemma BuiltIsWellBuilt(w: World, p: PageSize, base: Memory, h: Hook, i: nat)
    requires Inv(w, p, base) && PagesApart(w.free, p) && CanHost(w, p, h, i) && h.target != 0
    requires (i < |w.hooks| ==> !w.hooks[i].installed) && !h.installed
    requires REL_JMP_SIZE <= |h.saved| <= 19 && h.saved == Read(w.mem, h.target, |h.saved|)
    requires h.enter == Plus(h.original, |h.saved| + 14) && Relocate(h.saved, h.target, h.original).Ok?
    ensures WellBuilt(WithTrampolines(base, h), h)
    ensures OutsideFree(w.free - {h.original}, p, h)
  {
    SavedIsBase(w, p, base, h, i);
    TrampolinesAreWritten(base, h);
    TrampolinesFitPage(h, p);
    NearIsReachable(h.original, h.target, p, |h.saved| + 14);
    hide Read, Relocate, WithTrampolines, Overlaid, Standing, Homed, RelJmp;
    assert h.original in w.free;
    assert h.target in PatchRange(h) && h.original in Range(h.original, p);
    HoldsFrame(base, WithTrampolines(base, h), h.target, h.saved);
  }

  lemma SmallerFreeKeepsInv(w: World, p: PageSize, base: Memory, free: set<Word>)
    requires Inv(w, p, base) && free <= w.free
    ensures Inv(w.(free := free), p, base)
  {
    forall i: nat {:trigger w.hooks[i]} | i < |w.hooks|
      ensures WellBuilt(base, w.hooks[i]) && OutsideFree(free, p, w.hooks[i])
    {
      assert OutsideFree(w.free, p, w.hooks[i]);
    }
    hide WellBuilt, OutsideFree, Overlaid;
  }

  lemma EmptyHookFits(free: set<Word>, p: PageSize, base: Memory, h: Hook)
    requires h.target == 0 && h.saved == [] && !h.installed
    ensures WellBuilt(base, h) && OutsideFree(free, p, h)
    ensures PatchRange(h) == iset{}
  {}

  lemma EmptyHasNone(m: Memory, m': Memory, h: Hook)
    requires h.target == 0
    ensures WithTrampolines(m, h) == m && WithTrampolines(m', h) == m'
  {}

  /** Creating a hook at `i` from what the constructor built keeps the invariant. */
  lemma BuildKeepsInv(w: World, p: PageSize, base: Memory, page: Option<Word>, target: Word, h: Hook, i: nat)
    requires Inv(w, p, base) && PagesApart(w.free, p) && i <= |w.hooks|
    requires (i < |w.hooks| ==> !w.hooks[i].installed) && CanHost(w, p, h, i)
    requires exists detour :: Build(w.mem, page, h.name, target, detour) == Ok(Built(h, WithTrampolines(w.mem, h)))
    ensures Inv(w.(mem := WithTrampolines(w.mem, h), free := Without(w.free, page)), p, WithTrampolines(base, h))
    ensures (forall j: nat | j < |w.hooks| && j != i :: w.hooks[j].name != h.name) ==>
              Inv(World(WithTrampolines(w.mem, h), Without(w.free, page), Put(w.hooks, i, h)), p,
                  WithTrampolines(base, h))
  {
    hide Build, WithTrampolines, Overlaid;
    var detour :| Build(w.mem, page, h.name, target, detour) == Ok(Built(h, WithTrampolines(w.mem, h)));
    BuiltShape(w.mem, page, h.name, target, detour);
    if h.target == 0 {
      assert WithTrampolines(w.mem, h) == w.mem && WithTrampolines(base, h) == base by { EmptyHasNone(w.mem, base, h); }
    }
    if h.target == 0 {
      SmallerFreeKeepsInv(w, p, base, Without(w.free, page));
      EmptyHookFits(w.free, p, base, h);
    } else {
      WritingTrampolinesKeepsInv(w, p, base, h, i);
      BuiltIsWellBuilt(w, p, base, h, i);
    }
    var free, mem', base' := Without(w.free, page), WithTrampolines(w.mem, h), WithTrampolines(base, h);
    if forall j: nat | j < |w.hooks| && j != i :: w.hooks[j].name != h.name {
      assert ApartFrom(w.hooks, i, h);
      assert OutsideFree(free, p, h) by { if h.target == 0 { EmptyHookFits(free, p, base, h); } }
      hide WellBuilt, OutsideFree;
      PuttingKeepsOrder(w.hooks, free, p, base', i, h);
      PuttingKeepsOverlay(mem', base', w.hooks, i, h);
    }
  }

  // ----- whole runs

  /** What the constructor would build for `c`, if it is called and does not throw. */
  ghost function NewHook(w: World, c: Command): Option<Hook> {
    match c
    case Create(name, target, detour, page) =>
      var b := Build(w.mem, page, name, target, detour);
      if b.Ok? then Some(b.value.hook) else None
    case ChangeTarget(i, target, page) =>
      if i >= |w.hooks| || w.hooks[i].installed then None
      else
        var b := Build(w.mem, page, w.hooks[i].name, target, w.hooks[i].detour);
        if b.Ok? then Some(b.value.hook) else None
    case _ => None
  }

  /** Hooks must not patch each other's bytes; pages come from the allocator. */
  ghost predicate Admissible(w: World, p: PageSize, c: Command) {
    NewHook(w, c).Some? ==> CanHost(w, p, NewHook(w, c).value, if c.ChangeTarget? then c.i else |w.hooks|)
  }

  /** The new hook's target is mapped code that no other hook patches. */
  ghost predicate TargetIsOwn(w: World, p: PageSize, c: Command) {
    NewHook(w, c).Some? ==>
      var h := NewHook(w, c).value;
      && (forall page: Word {:trigger page in w.free} | page in w.free :: Range(page, p) !! PatchRange(h))
      && (forall j: nat {:trigger w.hooks[j]} | j < |w.hooks| && !(c.ChangeTarget? && j == c.i) ::
            PatchRange(h) !! PatchRange(w.hooks[j]))
  }

  /**
   * A page that `alloc_page_near` returned is as `Admissible` asks, for a new hook and for one
   * that is given another target: nothing is left to ask but that the target is the hook's own.
   */
  lemma AllocatedPageIsAdmissible(w: World, p: PageSize, c: Command)
    requires PageFromAllocator(w, p, c) && TargetIsOwn(w, p, c)
    ensures Admissible(w, p, c)
  {
    var h := NewHook(w, c);
    if h.Some? && h.value.target != 0 {
      if c.Create? {
        BuiltShape(w.mem, c.page, c.name, c.target, c.detour);
      } else {
        BuiltShape(w.mem, c.newPage, w.hooks[c.i].name, c.newTarget, w.hooks[c.i].detour);
      }
      hide PatchLengthFrom, WriteTrampolines, Relocate;
      FoundIsNear(w.free, h.value.target, p, if c.Create? then c.page else c.newPage);
    }
  }

  /** The memory without patches, after `c`: a new hook's trampolines are the only change. */
  ghost function BaseAfter(w: World, base: Memory, c: Command): Memory {
    if NewHook(w, c).Some? then WithTrampolines(base, NewHook(w, c).value) else base
  }

  lemma NewHookIsBuilt(w: World, c: Command)
    ensures var h := NewHook(w, c);
            h.Some? ==>
              && WithTrampolines(w.mem, h.value) == Perform(w, c).world.mem
              && (c.Create? ==> h.value.name == c.name
                                && Build(w.mem, c.page, h.value.name, c.target, c.detour)
                                   == Ok(Built(h.value, WithTrampolines(w.mem, h.value))))
              && (c.ChangeTarget? ==> c.i < |w.hooks| && h.value.name == w.hooks[c.i].name
                                      && Build(w.mem, c.newPage, h.value.name, c.newTarget, w.hooks[c.i].detour)
                                         == Ok(Built(h.value, WithTrampolines(w.mem, h.value))))
  {
    match c {
      case Create(name, target, detour, page) =>
        if Build(w.mem, page, name, target, detour).Ok? {
          BuiltShape(w.mem, page, name, target, detour);
          hide Build;
        }
      case ChangeTarget(i, target, page) =>
        if i < |w.hooks| && Build(w.mem, page, w.hooks[i].name, target, w.hooks[i].detour).Ok? {
          BuiltShape(w.mem, page, w.hooks[i].name, target, w.hooks[i].detour);
          hide Build;
        }
      case _ =>
    }
  }

  lemma CreateKeepsInv(w: World, p: PageSize, base: Memory, c: Command)
    requires c.Create? && Inv(w, p, base) && PagesApart(w.free, p) && Admissible(w, p, c)
    ensures Inv(Perform(w, c).world, p, BaseAfter(w, base, c))
  {
    NewHookIsBuilt(w, c);
    hide Build, WithTrampolines, Inv, CanHost;
    if NewHook(w, c).None? {
      SmallerFreeKeepsInv(w, p, base, Without(w.free, c.page));
    } else {
      var h := NewHook(w, c).value;
      BuildKeepsInv(w, p, base, c.page, c.target, h, |w.hooks|);
      if !NameTaken(w.hooks, c.name) {
        forall j: nat | j < |w.hooks| ensures w.hooks[j].name != h.name {}
        assert Put(w.hooks, |w.hooks|, h) == w.hooks + [h];
      }
    }
  }

  lemma ChangeTargetKeepsInv(w: World, p: PageSize, base: Memory, c: Command)
    requires c.ChangeTarget? && Inv(w, p, base) && PagesApart(w.free, p) && Admissible(w, p, c)
    ensures Inv(Perform(w, c).world, p, BaseAfter(w, base, c))
  {
    NewHookIsBuilt(w, c);
    if NewHook(w, c).None? {
      hide Build, Inv;
      SmallerFreeKeepsInv(w, p, base, Without(w.free, c.newPage));
    } else {
      assert DistinctNames(w.hooks);
      hide Build, WithTrampolines, Inv, CanHost;
      BuildKeepsInv(w, p, base, c.newPage, c.newTarget, NewHook(w, c).value, c.i);
    }
  }

  lemma FreeShrinks(w: World, c: Command)
    ensures Perform(w, c).world.free <= w.free
  {
    hide Build, SetAllFrom;
    if c.SetAll? { SetAllSwitches(w, 0, c.install, 0); }
  }

  lemma PerformKeepsInv(w: World, p: PageSize, base: Memory, c: Command)
    requires Inv(w, p, base) && PagesApart(w.free, p) && Admissible(w, p, c)
    ensures Inv(Perform(w, c).world, p, BaseAfter(w, base, c))
    ensures PagesApart(Perform(w, c).world.free, p)
  {
    hide Inv, Build, CanHost;
    FreeShrinks(w, c);
    match c {
      case Create(_, _, _, _) => CreateKeepsInv(w, p, base, c);
      case ChangeTarget(_, _, _) => ChangeTargetKeepsInv(w, p, base, c);
      case Install(i) => if i < |w.hooks| { SetOneKeepsInv(w, p, base, i, true); }
      case Uninstall(i) => if i < |w.hooks| { SetOneKeepsInv(w, p, base, i, false); }
      case SetAll(install) => SetAllKeepsInv(w, p, base, install);
    }
  }

  function Run(w: World, cs: seq<Command>): World
    decreases cs
  {
    if cs == [] then w else Run(Perform(w, cs[0]).world, cs[1..])
  }

  lemma RunOfTwo(w: World, c1: Command, c2: Command)
    ensures Run(w, [c1, c2]) == Perform(Perform(w, c1).world, c2).world
  {
    hide Perform;
    assert [c1, c2][1..] == [c2] && [c2][1..] == [];
    var w1 := Perform(w, c1).world;
    assert Run(w1, [c2]) == Run(Perform(w1, c2).world, []);
  }

  lemma RunOfThree(w: World, c1: Command, c2: Command, c3: Command)
    ensures Run(w, [c1, c2, c3]) == Perform(Perform(Perform(w, c1).world, c2).world, c3).world
  {
    hide Perform;
    assert [c1, c2, c3][1..] == [c2, c3] && [c2, c3][1..] == [c3] && [c3][1..] == [];
    var w2 := Perform(Perform(w, c1).world, c2).world;
    assert Run(w2, [c3]) == Run(Perform(w2, c3).world, []);
  }

  ghost predicate AdmissibleRun(w: World, p: PageSize, cs: seq<Command>)
    decreases cs
  {
    cs == [] || (Admissible(w, p, cs[0]) && AdmissibleRun(Perform(w, cs[0]).world, p, cs[1..]))
  }

  ghost function BaseAfterRun(w: World, base: Memory, cs: seq<Command>): Memory
    decreases cs
  {
    if cs == [] then base else BaseAfterRun(Perform(w, cs[0]).world, BaseAfter(w, base, cs[0]), cs[1..])
  }

  ghost predicate InFreePage(free: set<Word>, p: PageSize, a: Word) {
    exists page: Word :: page in free && a in Range(page, p)
  }

  /** The addresses of the pages that are free. */
  ghost function FreeArea(free: set<Word>, p: PageSize): iset<Word> {
    iset a: Word | InFreePage(free, p, a)
  }

  lemma BaseChangesInFreePagesOnly(w: World, p: PageSize, base: Memory, c: Command)
    requires Admissible(w, p, c)
    ensures AgreeOutside(base, BaseAfter(w, base, c), FreeArea(w.free, p))
  {
    var h := NewHook(w, c);
    if h.Some? && h.value.target != 0 {
      NewHookIsBuilt(w, c);
      if c.Create? {
        BuiltShape(w.mem, c.page, h.value.name, c.target, c.detour);
      } else {
        BuiltShape(w.mem, c.newPage, h.value.name, c.newTarget, w.hooks[c.i].detour);
      }
      hide Build, NewHook, Perform, WithTrampolines;
      TrampolinesAreWritten(base, h.value);
      TrampolinesFitPage(h.value, p);
      assert h.value.original in w.free;
      forall a: Word | a in TrampolineRange(h.value) ensures a in FreeArea(w.free, p) {
        assert a in Range(h.value.original, p);
        assert InFreePage(w.free, p, a);
      }
    }
  }

  lemma FreeAreaShrinks(free: set<Word>, free': set<Word>, p: PageSize)
    requires free' <= free
    ensures FreeArea(free', p) <= FreeArea(free, p)
  {
    forall a: Word | InFreePage(free', p, a) ensures InFreePage(free, p, a) {}
  }

  lemma {:induction false} RunKeepsInv(w: World, p: PageSize, base: Memory, cs: seq<Command>)
    requires Inv(w, p, base) && PagesApart(w.free, p) && AdmissibleRun(w, p, cs)
    ensures Inv(Run(w, cs), p, BaseAfterRun(w, base, cs))
    ensures AgreeOutside(base, BaseAfterRun(w, base, cs), FreeArea(w.free, p))
    decreases cs
  {
    hide Inv, Admissible, BaseAfter, Perform, PagesApart;
    if cs != [] {
      var w', base' := Perform(w, cs[0]).world, BaseAfter(w, base, cs[0]);
      PerformKeepsInv(w, p, base, cs[0]);
      BaseChangesInFreePagesOnly(w, p, base, cs[0]);
      FreeShrinks(w, cs[0]);
      RunKeepsInv(w', p, base', cs[1..]);
      FreeAreaShrinks(w.free, w'.free, p);
      var after := BaseAfterRun(w', base', cs[1..]);
      forall a: Word {:trigger after(a)} | a !in FreeArea(w.free, p) ensures base(a) == after(a) {
        assert base(a) == base'(a);
      }
    }
  }

  ghost predicate NoHooksYet(w: World, p: PageSize) {
    w.hooks == [] && PagesApart(w.free, p)
  }

  /**
   * The overlay invariant. After any run of calls, throwing ones included, on hooks that do not
   * patch each other, every byte outside the pages that were free is as it was in the beginning
   * unless an installed hook's patch covers it, every installed hook's patch is in place, and
   * names are distinct.
   */
  lemma MemoryIsOverlaid(w: World, p: PageSize, cs: seq<Command>)
    requires NoHooksYet(w, p) && AdmissibleRun(w, p, cs)
    ensures var now := Run(w, cs);
            && DistinctNames(now.hooks)
            && (forall i: nat {:trigger now.hooks[i]} | i < |now.hooks| && now.hooks[i].installed ::
                  Holds(now.mem, now.hooks[i].target, PatchBytes(now.hooks[i])))
            && (forall a: Word {:trigger now.mem(a)} | a !in FreeArea(w.free, p) && !Patched(now.hooks, a) ::
                  now.mem(a) == w.mem(a))
  {
    RunKeepsInv(w, p, w.mem, cs);
    var now, base := Run(w, cs), BaseAfterRun(w, w.mem, cs);
    hide Run, BaseAfterRun, AdmissibleRun, FreeArea, WellBuilt, PatchBytes;
    forall a: Word {:trigger now.mem(a)} | a !in FreeArea(w.free, p) && !Patched(now.hooks, a)
      ensures now.mem(a) == w.mem(a)
    {
      assert now.mem(a) == base(a) && base(a) == w.mem(a);
    }
  }

  // ----- installing and uninstalling all

  /** The first hook from `k` on that is not installed and has no target. */
  function FirstTargetless(hooks: seq<Hook>, k: nat): (j: nat)
    requires k <= |hooks|
    ensures k <= j <= |hooks|
    ensures j < |hooks| ==> !hooks[j].installed && hooks[j].target == 0
    ensures forall i: nat | k <= i < j :: hooks[i].installed || hooks[i].target != 0
    decreases |hooks| - k
  {
    if k == |hooks| || (!hooks[k].installed && hooks[k].target == 0) then k else FirstTargetless(hooks, k + 1)
  }

  /** How many hooks from `k` up to `j` are not in the state asked for. */
  function Differing(hooks: seq<Hook>, k: nat, j: nat, install: bool): nat
    requires k <= j <= |hooks|
    decreases j - k
  {
    if k == j then 0
    else (if hooks[k].installed != install then 1 else 0) + Differing(hooks, k + 1, j, install)
  }

  /** Where the loop over all hooks stops: at the end, or at the hook that throws. */
  function StopsAt(hooks: seq<Hook>, k: nat, install: bool): (j: nat)
    requires k <= |hooks|
    ensures k <= j <= |hooks|
  {
    if install then FirstTargetless(hooks, k) else |hooks|
  }

  ghost predicate SetUpTo(hooks: seq<Hook>, hooks': seq<Hook>, k: nat, j: nat, install: bool) {
    && |hooks'| == |hooks|
    && forall i: nat {:trigger hooks[i]} {:trigger hooks'[i]} | i < |hooks| ::
         hooks'[i] == if k <= i < j then hooks[i].(installed := install) else hooks[i]
  }

  lemma SetUpToCons(hooks: seq<Hook>, mid: seq<Hook>, hooks': seq<Hook>, k: nat, j: nat, install: bool)
    requires k < j <= |hooks| && |mid| == |hooks| && mid == hooks[k := hooks[k].(installed := install)]
    requires SetUpTo(mid, hooks', k + 1, j, install)
    ensures SetUpTo(hooks, hooks', k, j, install)
  {
    forall i: nat {:trigger hooks[i]} | i < |hooks|
      ensures hooks'[i] == if k <= i < j then hooks[i].(installed := install) else hooks[i]
    {
      assert mid[i] == if i == k then hooks[k].(installed := install) else hooks[i];
    }
  }

  lemma SetOneResult(w: World, p: PageSize, base: Memory, k: nat, install: bool)
    requires Inv(w, p, base) && k < |w.hooks| && w.hooks[k].installed != install
    ensures var one := SetOne(w, k, install);
            if install && w.hooks[k].target == 0 then one == Effect(w, Some(NoTarget), 0)
            else
              && one.thrown == None && Inv(one.world, p, base)
              && one.world.hooks == w.hooks[k := w.hooks[k].(installed := install)]
  {
    SetOneThrows(w, p, base, k, install);
    SetOneKeepsInv(w, p, base, k, install);
  }

  lemma SetNone(hooks: seq<Hook>, k: nat, install: bool)
    ensures SetUpTo(hooks, hooks, k, k, install)
  {}

  lemma {:induction false} SameFurtherOn(hooks: seq<Hook>, hooks': seq<Hook>, k: nat, install: bool)
    requires |hooks| == |hooks'| && k <= |hooks| && forall i: nat | k <= i < |hooks| :: hooks[i] == hooks'[i]
    ensures StopsAt(hooks, k, install) == StopsAt(hooks', k, install)
    ensures Differing(hooks, k, StopsAt(hooks, k, install), install)
         == Differing(hooks', k, StopsAt(hooks, k, install), install)
    decreases |hooks| - k
  {
    if k < StopsAt(hooks, k, install) { SameFurtherOn(hooks, hooks', k + 1, install); }
  }

  lemma {:induction false} SetAllFromResult(w: World, p: PageSize, base: Memory, k: nat, install: bool, count: nat)
    requires Inv(w, p, base) && k <= |w.hooks|
    ensures var e, j := SetAllFrom(w, k, install, count), StopsAt(w.hooks, k, install);
            && e.thrown == (if j < |w.hooks| then Some(NoTarget) else None)
            && e.count == count + Differing(w.hooks, k, j, install)
            && SetUpTo(w.hooks, e.world.hooks, k, j, install)
    decreases |w.hooks| - k
  {
    hide Inv, SetOne, SetUpTo;
    if k == |w.hooks| {
      SetNone(w.hooks, k, install);
    } else if w.hooks[k].installed == install {
      SetAllFromResult(w, p, base, k + 1, install, count);
      SetUpToCons(w.hooks, w.hooks, SetAllFrom(w, k, install, count).world.hooks, k,
                  StopsAt(w.hooks, k, install), install);
    } else {
      SetOneResult(w, p, base, k, install);
      var one := SetOne(w, k, install);
      if one.thrown.Some? {
        SetNone(w.hooks, k, install);
      } else {
        SetAllFromResult(one.world, p, base, k + 1, install, count + 1);
        SameFurtherOn(w.hooks, one.world.hooks, k + 1, install);
        SetUpToCons(w.hooks, one.world.hooks, SetAllFrom(w, k, install, count).world.hooks, k,
                    StopsAt(w.hooks, k, install), install);
      }
    }
  }

  /** The hooks from `k` up to `j` that are not in the state asked for. */
  function ToChange(hooks: seq<Hook>, k: nat, j: nat, install: bool): set<nat>
    requires j <= |hooks|
  {
    set i: nat | k <= i < j && hooks[i].installed != install
  }

  lemma {:induction false} DifferingCounts(hooks: seq<Hook>, k: nat, j: nat, install: bool)
    requires k <= j <= |hooks|
    ensures Differing(hooks, k, j, install) == |ToChange(hooks, k, j, install)|
    decreases j - k
  {
    if k < j {
      DifferingCounts(hooks, k + 1, j, install);
      var rest := ToChange(hooks, k + 1, j, install);
      assert ToChange(hooks, k, j, install) == if hooks[k].installed != install then {k} + rest else rest;
    } else {
      assert ToChange(hooks, k, j, install) == {};
    }
  }

  /**
   * `install_all_hooks` throws exactly when some uninstalled hook has no target; then exactly the
   * hooks before the first such one are installed in addition. Otherwise all are installed.
   * `uninstall_all_hooks` never throws. Both return the number of hooks changed.
   */
  lemma SetAllResult(w: World, p: PageSize, base: Memory, install: bool)
    requires Inv(w, p, base)
    ensures var e, j := Perform(w, SetAll(install)), StopsAt(w.hooks, 0, install);
            && e.thrown == (if j < |w.hooks| then Some(NoTarget) else None)
            && e.count == |ToChange(w.hooks, 0, j, install)|
            && SetUpTo(w.hooks, e.world.hooks, 0, j, install)
  {
    SetAllFromResult(w, p, base, 0, install, 0);
    DifferingCounts(w.hooks, 0, StopsAt(w.hooks, 0, install), install);
  }

  // ----- the page is always near enough

  /** Every page comes from the allocator, and every target is code that no other hook patches. */
  ghost predicate AllocatedRun(w: World, p: PageSize, cs: seq<Command>)
    decreases cs
  {
    cs == [] || (PageFromAllocator(w, p, cs[0]) && TargetIsOwn(w, p, cs[0])
                 && AllocatedRun(Perform(w, cs[0]).world, p, cs[1..]))
  }

  /** The exceptions of `install` that a page in the wrong place, or too short a patch, would cause. */
  predicate OutOfReach(thrown: Option<HookError>) {
    thrown in {Some(TooFarApart), Some(PatchTooSmall)}
  }

  lemma BuildingThrowsOther(m: Memory, page: Option<Word>, name: string, target: Word, detour: Word)
    requires Build(m, page, name, target, detour).Err?
    ensures !OutOfReach(Some(Build(m, page, name, target, detour).error))
  {}

  lemma PerformInReach(w: World, p: PageSize, base: Memory, c: Command)
    requires Inv(w, p, base)
    ensures !OutOfReach(Perform(w, c).thrown)
  {
    hide Build, Inv, SetAllFrom;
    match c {
      case Create(name, target, detour, page) =>
        if Build(w.mem, page, name, target, detour).Err? {
          BuildingThrowsOther(w.mem, page, name, target, detour);
        }
      case ChangeTarget(i, target, page) =>
        if i < |w.hooks| && Build(w.mem, page, w.hooks[i].name, target, w.hooks[i].detour).Err? {
          BuildingThrowsOther(w.mem, page, w.hooks[i].name, target, w.hooks[i].detour);
        }
      case Install(i) => if i < |w.hooks| && !w.hooks[i].installed { SetOneThrows(w, p, base, i, true); }
      case Uninstall(_) =>
      case SetAll(install) => SetAllResult(w, p, base, install);
    }
  }

  lemma {:induction false} RunInReach(w: World, p: PageSize, base: Memory, cs: seq<Command>, k: nat)
    requires Inv(w, p, base) && PagesApart(w.free, p) && AllocatedRun(w, p, cs) && k < |cs|
    ensures !OutOfReach(Perform(Run(w, cs[..k]), cs[k]).thrown)
    decreases k
  {
    hide Inv, PageFromAllocator, TargetIsOwn, Perform, PagesApart;
    if k == 0 {
      assert cs[..0] == [];
      PerformInReach(w, p, base, cs[0]);
    } else {
      AllocatedPageIsAdmissible(w, p, cs[0]);
      PerformKeepsInv(w, p, base, cs[0]);
      assert cs[..k][1..] == cs[1..][..k - 1] && cs[1..][k - 1] == cs[k];
      RunInReach(Perform(w, cs[0]).world, p, BaseAfter(w, base, cs[0]), cs[1..], k - 1);
    }
  }

  /**
   * From a process without hooks, as long as pages come from `alloc_page_near` and hooks keep to
   * their own code, no call ever throws because a trampoline is out of reach, or a patch too small.
   */
  lemma NeverOutOfReach(w: World, p: PageSize, cs: seq<Command>, k: nat)
    requires NoHooksYet(w, p) && AllocatedRun(w, p, cs) && k < |cs|
    ensures Perform(Run(w, cs[..k]), cs[k]).thrown !in {Some(TooFarApart), Some(PatchTooSmall)}
  {
    hide Run, Perform, AllocatedRun;
    RunInReach(w, p, w.mem, cs, k);
  }

  // ----- uninstalling all

  /**
   * After any run, uninstalling everything gives the program its code back, byte for byte:
   * outside the pages that were free, the memory is what it was in the beginning.
   */
  lemma UninstallingAllRestores(w: World, p: PageSize, cs: seq<Command>)
    requires NoHooksYet(w, p) && AdmissibleRun(w, p, cs)
    ensures var e := Perform(Run(w, cs), SetAll(false));
            && e.thrown == None
            && AgreeOutside(w.mem, e.world.mem, FreeArea(w.free, p))
  {
    RunKeepsInv(w, p, w.mem, cs);
    var now, base := Run(w, cs), BaseAfterRun(w, w.mem, cs);
    var e := Perform(now, SetAll(false));
    SetAllResult(now, p, base, false);
    SetAllKeepsInv(now, p, base, false);
    hide Run, BaseAfterRun, AdmissibleRun, FreeArea, WellBuilt, PatchBytes, Perform, SetAllFrom;
    forall a: Word {:trigger e.world.mem(a)} | a !in FreeArea(w.free, p) ensures w.mem(a) == e.world.mem(a) {
      assert !Patched(e.world.hooks, a);
      assert e.world.mem(a) == base(a) && base(a) == w.mem(a);
    }
  }
}
