/** The library's objects: `HookInst::Inner`, `HookInst` and the registry of all hooks. */
module HookObjects {
  import opened Words
  import opened Memories
  import opened Wrappers
  import opened X86
  import opened Relocation
  import opened Encoders
  import opened Pages
  import opened HookModel

  /** The caller's variable that `output_original_func` points to. */
  class Slot {
    var value: Word

    constructor ()
      ensures value == 0
    {
      value := 0;
    }
  }

  class Inner {
    const name: string
    const targetFunc: Word
    const detourFunc: Word
    const patchedOriginalBytes: Saved
    const codeEnterDetour: Word
    const codeCallOriginal: Word
    const outputOriginalFunc: Slot
    const codePage: MemPage?
    var isInstalled: bool

    constructor (name: string, target: Word, detour: Word, saved: Saved, enter: Word, original: Word,
                 output: Slot, page: MemPage?)
      ensures Value() == Hook(name, target, detour, false, saved, original, enter)
      ensures outputOriginalFunc == output
    {
      this.name, this.targetFunc, this.detourFunc := name, target, detour;
      this.patchedOriginalBytes, this.codeEnterDetour, this.codeCallOriginal := saved, enter, original;
      this.outputOriginalFunc, this.codePage, this.isInstalled := output, page, false;
    }

    function Value(): Hook
      reads this
    {
      Hook(name, targetFunc, detourFunc, isInstalled, patchedOriginalBytes, codeCallOriginal, codeEnterDetour)
    }

    /** The decode loop over the live target. */
    static method PatchLength(proc: Process, target: Word) returns (n: Option<nat>)
      ensures n == PatchLengthFrom(proc.mem, target, 0)
    {
      hide Decode;
      var patchLength: nat := 0;
      while patchLength < REL_JMP_SIZE
        invariant patchLength < REL_JMP_SIZE + MAX_LENGTH
        invariant PatchLengthFrom(proc.mem, target, 0) == PatchLengthFrom(proc.mem, target, patchLength)
        decreases REL_JMP_SIZE - patchLength
      {
        var ins := Decode(Read(proc.mem, Plus(target, patchLength), MAX_LENGTH));
        if ins.None? {
          return None;
        }
        patchLength := patchLength + ins.value.Length();
      }
      return Some(patchLength);
    }

    /** Copies the relocated head and both jumps to the page. None of the writes can overflow it. */
    static method WriteCode(proc: Process, page: MemPage, moved: seq<Byte>, back: Word, detour: Word)
      returns (original: Word, enter: Word)
      requires |moved| <= 19 && page.writeOffset == 0 && 0x100 <= page.size < TWO64
      modifies proc`mem, page`writeOffset
      ensures proc.mem == WriteTrampolines(old(proc.mem), page.memory, moved, back, detour)
      ensures original == page.memory && enter == Plus(page.memory, |moved| + 14)
    {
      var at := page.WriteBytes(proc, moved);
      assert at == Some(page.memory);
      original := at.value;
      var encoder := new Encoder();
      encoder.EncodePureJmp(back);
      assert encoder.bytes == PureJmp(back);
      hide PureJmp;
      at := page.WriteBytes(proc, encoder.bytes);
      assert at == Some(Plus(page.memory, |moved|));
      encoder := new Encoder();
      encoder.EncodePureJmp(detour);
      assert encoder.bytes == PureJmp(detour);
      at := page.WriteBytes(proc, encoder.bytes);
      assert at.Some?;
      enter := at.value;
    }

    /** The constructor; a throw is an `Err`, and leaves the memory and the slot alone. */
    static method Make(proc: Process, name: string, target: Word, detour: Word, output: Slot)
      returns (r: Result<Inner, HookError>, ghost page: Option<Word>)
      requires 0 !in proc.free
      modifies proc`mem, proc`free, output
      ensures PageFor(old(proc.mem), old(proc.free), proc.pageSize, name, target, detour, page)
      ensures proc.free == Without(old(proc.free), page)
      ensures r.Ok? ==>
                && fresh(r.value) && r.value.outputOriginalFunc == output
                && Build(old(proc.mem), page, name, target, detour) == Ok(Built(r.value.Value(), proc.mem))
                && output.value == r.value.codeCallOriginal
      ensures r.Err? ==>
                && Build(old(proc.mem), page, name, target, detour) == Err(r.error)
                && proc.mem == old(proc.mem) && output.value == old(output.value)
    {
      hide PatchLengthFrom, Relocate, WriteTrampolines, FirstFound, ResolveFuncPtr;
      page := None;
      if |name| == 0 {
        return Err(EmptyName), page;
      }
      if detour == 0 {
        return Err(NullDetour), page;
      }
      var targetFunc := ResolveFuncPtr(proc.mem, target);
      var detourFunc := ResolveFuncPtr(proc.mem, detour);
      if targetFunc == 0 {
        output.value := 0;
        var inner := new Inner(name, 0, detourFunc, [], 0, 0, output, null);
        return Ok(inner), page;
      }

      var memory := proc.AllocPageNear(targetFunc);
      page := memory;
      if memory.None? {
        return Err(NoPageNear), page;
      }
      var codePage := new MemPage(proc.pageSize, memory.value);

      var patchLength := PatchLength(proc, targetFunc);
      if patchLength.None? {
        return Err(UndecodableTarget), page;
      }
      var n := patchLength.value;
      var saved := Read(proc.mem, targetFunc, n);
      var moved := RelocateCode(saved, targetFunc, codePage.NextWritePtr());
      assert codePage.NextWritePtr() == memory.value;
      if moved.Err? {
        return Err(NotRelocatable(moved.error)), page;
      }
      var original, enter := WriteCode(proc, codePage, moved.value, Plus(targetFunc, n), detourFunc);
      output.value := original;
      var inner := new Inner(name, targetFunc, detourFunc, saved, enter, original, output, codePage);
      return Ok(inner), page;
    }

    method Install(proc: Process) returns (thrown: Option<HookError>)
      modifies proc`mem, this`isInstalled
      ensures var r := InstallHook(old(proc.mem), old(Value()));
              if r.Ok? then thrown == None && proc.mem == r.value.mem && Value() == r.value.hook
              else thrown == Some(r.error) && proc.mem == old(proc.mem) && Value() == old(Value())
    {
      if isInstalled {
        return Some(AlreadyInstalled);
      }
      if targetFunc == 0 {
        return Some(NoTarget);
      }
      var encoder := new Encoder();
      var tooFar := encoder.EncodeRelJmp(targetFunc, codeEnterDetour);
      if tooFar {
        return Some(TooFarApart);
      }
      var patchSize := |patchedOriginalBytes|;
      if |encoder.bytes| > patchSize {
        return Some(PatchTooSmall);
      }
      while |encoder.bytes| < patchSize
        invariant REL_JMP_SIZE <= |encoder.bytes| <= patchSize
        invariant encoder.bytes == RelJmp(targetFunc, codeEnterDetour).value + Nops(|encoder.bytes| - REL_JMP_SIZE)
        invariant proc.mem == old(proc.mem) && !isInstalled
      {
        encoder.AddByte(0x90);
      }
      proc.OverwriteExecutableMem(encoder.bytes, targetFunc);
      isInstalled := true;
      return None;
    }

    method Uninstall(proc: Process) returns (thrown: Option<HookError>)
      modifies proc`mem, this`isInstalled
      ensures var r := UninstallHook(old(proc.mem), old(Value()));
              if r.Ok? then thrown == None && proc.mem == r.value.mem && Value() == r.value.hook
              else thrown == Some(r.error) && proc.mem == old(proc.mem) && Value() == old(Value())
    {
      if !isInstalled {
        return Some(NotInstalled);
      }
      proc.OverwriteExecutableMem(patchedOriginalBytes, targetFunc);
      isInstalled := false;
      return None;
    }
  }

  /** Retargeting a hook of many is retargeting it alone. */
  lemma OneOfMany(w: World, k: nat, newTarget: Word, page: Option<Word>)
    requires k < |w.hooks|
    ensures var e := Perform(World(w.mem, w.free, [w.hooks[k]]), ChangeTarget(0, newTarget, page));
            && |e.world.hooks| == 1
            && Perform(w, ChangeTarget(k, newTarget, page))
               == Effect(e.world.(hooks := w.hooks[k := e.world.hooks[0]]), e.thrown, 0)
  {
    hide Build;
    assert w.hooks[k := w.hooks[k]] == w.hooks;
  }

  class HookInst {
    var inner: Inner

    constructor (inner: Inner)
      ensures this.inner == inner
    {
      this.inner := inner;
    }

    /** Throws while installed; otherwise replaces the whole inner object, unless building throws. */
    method ChangeTargetFunc(proc: Process, newTarget: Word)
      returns (thrown: Option<HookError>, ghost page: Option<Word>)
      requires 0 !in proc.free
      modifies this, proc`mem, proc`free, inner.outputOriginalFunc
      ensures var w := World(old(proc.mem), old(proc.free), [old(inner.Value())]);
              var e := Perform(w, ChangeTarget(0, newTarget, page));
              && World(proc.mem, proc.free, [inner.Value()]) == e.world && thrown == e.thrown
              && PageFromAllocator(w, proc.pageSize, ChangeTarget(0, newTarget, page))
      ensures inner.outputOriginalFunc == old(inner.outputOriginalFunc)
      ensures inner == old(inner) || fresh(inner)
      ensures thrown == None ==> inner.outputOriginalFunc.value == inner.codeCallOriginal
      ensures thrown != None ==>
                inner == old(inner) && inner.outputOriginalFunc.value == old(inner.outputOriginalFunc.value)
    {
      page := None;
      if inner.isInstalled {
        return Some(RetargetWhileInstalled), page;
      }
      var r;
      r, page := Inner.Make(proc, inner.name, newTarget, inner.detourFunc, inner.outputOriginalFunc);
      if r.Err? {
        return Some(r.error), page;
      }
      inner := r.value;
      return None, page;
    }
  }

  lemma SetAllStarts(w: World, install: bool)
    ensures Perform(w, SetAll(install)) == SetAllFrom(w, 0, install, 0)
  {}

  lemma SetAllStep(w: World, k: nat, install: bool, count: nat)
    requires k < |w.hooks|
    ensures var one := SetOne(w, k, install);
            SetAllFrom(w, k, install, count)
            == if w.hooks[k].installed == install then SetAllFrom(w, k + 1, install, count)
               else if one.thrown.Some? then Effect(one.world, one.thrown, count)
               else SetAllFrom(one.world, k + 1, install, count + 1)
  {}

  lemma SetAllEnds(w: World, install: bool, count: nat)
    ensures SetAllFrom(w, |w.hooks|, install, count) == Effect(w, None, count)
  {}

  /** `all_insts()`: every hook that was created. */
  class Registry {
    var insts: seq<HookInst>

    constructor ()
      ensures insts == [] && Valid()
    {
      insts := [];
    }

    ghost function Inners(): set<Inner>
      reads this, insts
    {
      set h | h in insts :: h.inner
    }

    ghost function Outputs(): set<Slot>
      reads this, insts
    {
      set h | h in insts :: h.inner.outputOriginalFunc
    }

    /** No two hooks share an object. */
    ghost predicate Valid()
      reads this, insts
    {
      forall i: nat, j: nat {:trigger insts[i], insts[j]} | i < j < |insts| ::
        insts[i] != insts[j] && insts[i].inner != insts[j].inner
    }

    /** No two hooks share a slot, and every slot holds its hook's way to the original. */
    ghost predicate SlotsSet()
      reads this, insts, Outputs()
    {
      && (forall i: nat, j: nat {:trigger insts[i], insts[j]} | i < j < |insts| ::
            insts[i].inner.outputOriginalFunc != insts[j].inner.outputOriginalFunc)
      && (forall i: nat {:trigger insts[i]} | i < |insts| ::
            insts[i].inner.outputOriginalFunc.value == insts[i].inner.codeCallOriginal)
    }

    ghost function View(): (hooks: seq<Hook>)
      reads this, insts, Inners()
      ensures |hooks| == |insts|
      ensures forall i: nat {:trigger hooks[i]} | i < |insts| :: hooks[i] == insts[i].inner.Value()
    {
      ViewOf(insts)
    }

    static ghost function ViewOf(insts: seq<HookInst>): (hooks: seq<Hook>)
      reads insts, set h | h in insts :: h.inner
      ensures |hooks| == |insts|
      ensures forall i: nat {:trigger hooks[i]} | i < |insts| :: hooks[i] == insts[i].inner.Value()
    {
      if insts == [] then [] else ViewOf(insts[..|insts| - 1]) + [insts[|insts| - 1].inner.Value()]
    }

    ghost function Now(proc: Process): World
      reads this, insts, Inners(), proc
    {
      World(proc.mem, proc.free, View())
    }

    /** `find_hook_inst`: the first hook of that name, or null. */
    method FindHookInst(name: string) returns (found: HookInst?)
      ensures found == null <==> !NameTaken(View(), name)
      ensures found != null ==> found in insts && found.inner.name == name
    {
      for i := 0 to |insts|
        invariant forall j: nat | j < i :: insts[j].inner.name != name
      {
        if insts[i].inner.name == name {
          assert View()[i].name == name;
          return insts[i];
        }
      }
      return null;
    }

    method Append(hookInst: HookInst)
      requires Valid() && hookInst !in insts && hookInst.inner !in Inners()
      modifies this
      ensures Valid() && insts == old(insts) + [hookInst]
      ensures View() == old(View()) + [hookInst.inner.Value()]
      ensures && old(SlotsSet()) && hookInst.inner.outputOriginalFunc !in old(Outputs())
              && hookInst.inner.outputOriginalFunc.value == hookInst.inner.codeCallOriginal
              ==> SlotsSet()
    {
      forall i: nat {:trigger insts[i]} | i < |insts|
        ensures insts[i] != hookInst && insts[i].inner != hookInst.inner
        ensures insts[i].inner.outputOriginalFunc in Outputs()
      {
        assert insts[i] in insts;
      }
      insts := insts + [hookInst];
      assert View() == old(View()) + [hookInst.inner.Value()] by { hide ViewOf; }
    }

    /** The second half of `HookInst::_create`: the new hook's name must be new. */
    method Enlist(name: string, inner: Inner) returns (r: Result<HookInst, HookError>)
      requires Valid() && inner !in Inners()
      modifies this
      ensures Valid() && insts == old(insts) + if r.Ok? then [r.value] else []
      ensures if NameTaken(old(View()), name) then r == Err(DuplicateName) && View() == old(View())
              else r.Ok? && View() == old(View()) + [inner.Value()]
      ensures && old(SlotsSet()) && inner.outputOriginalFunc !in old(Outputs())
              && inner.outputOriginalFunc.value == inner.codeCallOriginal
              ==> SlotsSet()
    {
      hide ViewOf, SlotsSet, Valid;
      var existing := FindHookInst(name);
      if existing != null {
        return Err(DuplicateName);
      }
      var hookInst := new HookInst(inner);
      Append(hookInst);
      return Ok(hookInst);
    }

    /**
     * `HookInst::_create`: the hook is built first, and only then is its name looked up. Building
     * it sets the slot, even if the name turns out to be taken; the slot may be another hook's.
     */
    method Create(proc: Process, name: string, target: Word, detour: Word, output: Slot)
      returns (r: Result<HookInst, HookError>, ghost page: Option<Word>)
      requires Valid() && 0 !in proc.free
      modifies this, proc`mem, proc`free, output
      ensures Valid()
      ensures var c := Command.Create(name, target, detour, page);
              var e := Perform(old(Now(proc)), c);
              && Now(proc) == e.world && e.thrown == (if r.Err? then Some(r.error) else None)
              && PageFromAllocator(old(Now(proc)), proc.pageSize, c)
      ensures insts == old(insts) + if r.Ok? then [r.value] else []
      ensures var b := Build(old(proc.mem), page, name, target, detour);
              output.value == if b.Ok? then b.value.hook.original else old(output.value)
      ensures old(SlotsSet()) && output !in old(Outputs()) ==> SlotsSet()
    {
      hide Build, PageFor, ViewOf;
      ghost var apart := SlotsSet() && output !in Outputs();
      var made;
      made, page := Inner.Make(proc, name, target, detour, output);
      if apart {
        forall i: nat | i < |insts| ensures insts[i].inner.outputOriginalFunc != output {
          assert insts[i] in insts;
        }
      }
      assert apart ==> SlotsSet();
      assert View() == old(View());
      hide SlotsSet, Valid, View;
      if made.Err? {
        return Err(made.error), page;
      }
      r := Enlist(name, made.value);
    }

    /** `change_target_func` of a hook in the registry: no other hook is touched. */
    method ChangeTarget(proc: Process, k: nat, newTarget: Word)
      returns (thrown: Option<HookError>, ghost page: Option<Word>)
      requires Valid() && k < |insts| && 0 !in proc.free
      modifies insts[k], proc`mem, proc`free, insts[k].inner.outputOriginalFunc
      ensures Valid() && insts == old(insts)
      ensures var c := Command.ChangeTarget(k, newTarget, page);
              var e := Perform(old(Now(proc)), c);
              && Now(proc) == e.world && thrown == e.thrown
              && PageFromAllocator(old(Now(proc)), proc.pageSize, c)
      ensures old(SlotsSet()) ==> SlotsSet()
    {
      hide Build, PageFor, ViewOf, Perform;
      ghost var w := Now(proc);
      thrown, page := insts[k].ChangeTargetFunc(proc, newTarget);
      OneOfMany(w, k, newTarget, page);
      assert View() == old(View())[k := insts[k].inner.Value()];
    }

    method SetInstalled(proc: Process, k: nat, install: bool) returns (thrown: Option<HookError>)
      requires Valid() && k < |insts| && insts[k].inner.isInstalled != install
      modifies proc`mem, insts[k].inner`isInstalled
      ensures Valid() && (old(SlotsSet()) ==> SlotsSet())
      ensures var e := SetOne(old(Now(proc)), k, install);
              Now(proc) == e.world && thrown == e.thrown
    {
      if install {
        thrown := insts[k].inner.Install(proc);
      } else {
        thrown := insts[k].inner.Uninstall(proc);
      }
      hide InstallHook, UninstallHook, ViewOf;
      assert View() == old(View())[k := insts[k].inner.Value()];
    }

    method SetAllHooksInstalled(proc: Process, install: bool) returns (thrown: Option<HookError>, numChanged: nat)
      requires Valid()
      modifies proc`mem, Inners()`isInstalled
      ensures Valid() && insts == old(insts)
      ensures old(SlotsSet()) ==> SlotsSet()
      ensures Effect(Now(proc), thrown, numChanged) == Perform(old(Now(proc)), SetAll(install))
    {
      hide Perform, SetAllFrom, SetOne, ViewOf, Valid, SlotsSet;
      ghost var start := Now(proc);
      SetAllStarts(start, install);
      numChanged := 0;
      for k := 0 to |insts|
        invariant Valid() && Inners() == old(Inners()) && (old(SlotsSet()) ==> SlotsSet())
        invariant Perform(start, SetAll(install)) == SetAllFrom(Now(proc), k, install, numChanged)
      {
        ghost var w := Now(proc);
        SetAllStep(w, k, install, numChanged);
        assert insts[k].inner in Inners() && w.hooks[k] == insts[k].inner.Value();
        if insts[k].inner.isInstalled != install {
          thrown := SetInstalled(proc, k, install);
          if thrown.Some? {
            return thrown, numChanged;
          }
          numChanged := numChanged + 1;
        }
      }
      SetAllEnds(Now(proc), install, numChanged);
      return None, numChanged;
    }
  }
}
