/** Exactly when each call on a hook succeeds, what each exception means, and what changes. */
module HookOutcomes {
  import opened Words
  import opened Memories
  import opened Wrappers
  import opened X86
  import opened Relocation
  import opened Encoders
  import opened Pages
  import opened HookModel
  import opened HookRuns

  // ----- the patch length

  /** `n` bytes at `at` are whole instructions, and the last one starts before the fifth byte. */
  ghost predicate IsHead(m: Memory, at: Word, n: nat) {
    && 5 <= n < TWO64
    && Parse(Read(m, at, n)).Some?
    && var ops := Parse(Read(m, at, n)).value; ops != [] && Offset(ops, |ops| - 1) < 5
  }

  /** What is left of a head, from byte `k` on. */
  ghost predicate IsRestOfHead(m: Memory, at: Word, k: nat, n: nat) {
    && k <= n < TWO64 && 5 <= n
    && Parse(Read(m, Plus(at, k), n - k)).Some?
    && var ops := Parse(Read(m, Plus(at, k), n - k)).value; ops != [] ==> k + Offset(ops, |ops| - 1) < 5
  }

  lemma FetchedIsFirst(m: Memory, at: Word, len: nat)
    requires 0 < len < TWO64 && Decode(Read(m, at, len)).Some?
    ensures Decode(Read(m, at, MAX_LENGTH)) == Decode(Read(m, at, len))
  {
    DecodeLooksNoFurther(Read(m, at, len), Read(m, at, MAX_LENGTH));
  }

  lemma RestUnfolds(m: Memory, at: Word, k: nat, n: nat)
    requires IsRestOfHead(m, at, k, n) && k < n
    ensures var op := Decode(Read(m, Plus(at, k), MAX_LENGTH));
            k < 5 && op.Some? && IsRestOfHead(m, at, k + op.value.Length(), n)
  {
    hide Decode, Op.Length;
    var bytes := Read(m, Plus(at, k), n - k);
    var ops := Parse(bytes).value;
    var len := Decode(bytes).value.Length();
    FetchedIsFirst(m, Plus(at, k), n - k);
    ReadRest(m, at, k, len, n);
    var rest := Parse(bytes[len..]).value;
    assert ops[1..] == rest && ops[0].Length() == len;
    if rest != [] {
      assert Offset(ops, |ops| - 1) == len + Offset(rest, |rest| - 1);
    }
  }

  lemma NothingLeft(m: Memory, at: Word, k: nat, n: nat)
    requires IsRestOfHead(m, at, k, n) && k >= n
    ensures k == n >= 5
  {}

  lemma {:induction false} RestIsTaken(m: Memory, at: Word, k: nat, n: nat)
    requires k < REL_JMP_SIZE + MAX_LENGTH && IsRestOfHead(m, at, k, n)
    ensures PatchLengthFrom(m, at, k) == Some(n)
    decreases n - k
  {
    hide IsRestOfHead, Decode;
    if k < n {
      RestUnfolds(m, at, k, n);
      RestIsTaken(m, at, k + Decode(Read(m, Plus(at, k), MAX_LENGTH)).value.Length(), n);
    } else {
      NothingLeft(m, at, k, n);
    }
  }

  /** The patch length is found exactly when there is such a head, and is its length. */
  lemma PatchLengthExactlyWhen(m: Memory, at: Word, n: nat)
    ensures PatchLengthFrom(m, at, 0) == Some(n) <==> IsHead(m, at, n)
  {
    assert Plus(at, 0) == at;
    if PatchLengthFrom(m, at, 0) == Some(n) {
      PatchLengthIsLeast(m, at, n);
      hide PatchLengthFrom, Decode;
      var ops := Parse(Read(m, at, n)).value;
      assert ops != [];
      assert Offset(ops, |ops| - 1) < 5;
    }
    if IsHead(m, at, n) {
      assert IsRestOfHead(m, at, 0, n);
      RestIsTaken(m, at, 0, n);
    }
  }

  // ----- creating a hook

  /**
   * The `n` bytes at `t` are a head that can stand at `page` instead: no relative branch, and every
   * RIP-relative operand stays in reach.
   */
  ghost predicate CanStandAt(m: Memory, t: Word, page: Word, n: nat) {
    IsHead(m, t, n) && (page != t ==> AllMovable(Parse(Read(m, t, n)).value, t, page))
  }

  /** What a constructor call needs. Without a target it needs no page and no code. */
  ghost predicate CanBuild(m: Memory, page: Option<Word>, name: string, target: Word, detour: Word) {
    var t := ResolveFuncPtr(m, target);
    && name != "" && detour != 0
    && (t != 0 ==> page.Some? && exists n: nat :: CanStandAt(m, t, page.value, n))
  }

  /** The `n` bytes at `t` are a head, and `r` says why it cannot stand at `page`. */
  ghost predicate CannotStandAt(m: Memory, t: Word, page: Word, n: nat, r: RelocError) {
    IsHead(m, t, n) && page != t && exists k: nat :: FailsAt(Read(m, t, n), t, page, k, r)
  }

  /** What each exception of the constructor means. */
  ghost predicate CauseOf(m: Memory, page: Option<Word>, name: string, target: Word, detour: Word, e: HookError) {
    var t := ResolveFuncPtr(m, target);
    match e
    case EmptyName => name == ""
    case NullDetour => name != "" && detour == 0
    case NoPageNear => name != "" && detour != 0 && t != 0 && page.None?
    case UndecodableTarget => name != "" && detour != 0 && t != 0 && page.Some? && forall n: nat :: !IsHead(m, t, n)
    case NotRelocatable(r) =>
      name != "" && detour != 0 && t != 0 && page.Some? && exists n: nat :: CannotStandAt(m, t, page.value, n, r)
    case _ => false
  }

  lemma OneHead(m: Memory, t: Word, n: nat, k: nat)
    requires IsHead(m, t, n) && IsHead(m, t, k)
    ensures n == k
  {
    PatchLengthExactlyWhen(m, t, n);
    PatchLengthExactlyWhen(m, t, k);
  }

  lemma HeadIsMoved(m: Memory, t: Word, page: Word, n: nat)
    requires IsHead(m, t, n)
    ensures Relocate(Read(m, t, n), t, page).Ok? <==> CanStandAt(m, t, page, n)
    ensures forall r :: Relocate(Read(m, t, n), t, page) == Err(r) <==> CannotStandAt(m, t, page, n, r)
  {
    var code := Read(m, t, n);
    if page != t {
      SucceedsExactlyWhen(code, t, page);
    }
    hide AllMovable, RelocateAll, FailsAt;
    forall r ensures Relocate(code, t, page) == Err(r) <==> CannotStandAt(m, t, page, n, r) {
      ThrowsExactlyWhen(code, t, page, r);
    }
  }

  /** The three ways in which building goes on once there is a target and a page. */
  lemma BuildByHead(m: Memory, page: Word, name: string, target: Word, detour: Word)
    requires name != "" && detour != 0 && ResolveFuncPtr(m, target) != 0
    ensures var t, b := ResolveFuncPtr(m, target), Build(m, Some(page), name, target, detour);
            && ((forall n: nat :: !IsHead(m, t, n)) ==> b == Err(UndecodableTarget))
            && (forall n: nat | IsHead(m, t, n) ::
                  (b.Ok? <==> Relocate(Read(m, t, n), t, page).Ok?)
                  && (b.Err? ==> Relocate(Read(m, t, n), t, page).Err?
                                 && b.error == NotRelocatable(Relocate(Read(m, t, n), t, page).error)))
  {
    hide IsHead, PatchLengthFrom, Relocate, ResolveFuncPtr, WriteTrampolines;
    var t := ResolveFuncPtr(m, target);
    forall n: nat ensures PatchLengthFrom(m, t, 0) == Some(n) <==> IsHead(m, t, n) {
      PatchLengthExactlyWhen(m, t, n);
    }
  }

  lemma StandingIsHead(m: Memory, t: Word, page: Word, n: nat)
    requires CanStandAt(m, t, page, n)
    ensures IsHead(m, t, n)
  {}

  lemma FailingIsHead(m: Memory, t: Word, page: Word, n: nat, r: RelocError)
    requires CannotStandAt(m, t, page, n, r)
    ensures IsHead(m, t, n)
  {}

  /** Building succeeds exactly when it can, and throws an exception exactly for its cause. */
  lemma BuildOutcome(m: Memory, page: Option<Word>, name: string, target: Word, detour: Word, e: HookError)
    ensures Build(m, page, name, target, detour).Ok? <==> CanBuild(m, page, name, target, detour)
    ensures Build(m, page, name, target, detour) == Err(e) <==> CauseOf(m, page, name, target, detour, e)
  {
    var t := ResolveFuncPtr(m, target);
    if name == "" || detour == 0 || t == 0 || page.None? {
      hide ResolveFuncPtr;
    } else {
      hide ResolveFuncPtr, Build, IsHead, Relocate;
      BuildByHead(m, page.value, name, target, detour);
      if n: nat :| IsHead(m, t, n) {
        HeadIsMoved(m, t, page.value, n);
        hide CanStandAt, CannotStandAt;
        forall k: nat ensures CanStandAt(m, t, page.value, k) ==> k == n {
          if CanStandAt(m, t, page.value, k) { StandingIsHead(m, t, page.value, k); OneHead(m, t, n, k); }
        }
        forall k: nat, r ensures CannotStandAt(m, t, page.value, k, r) ==> k == n {
          if CannotStandAt(m, t, page.value, k, r) { FailingIsHead(m, t, page.value, k, r); OneHead(m, t, n, k); }
        }
      }
    }
  }

  /** The hook that is built: the head's own bytes, the page, and both pointers resolved. */
  lemma BuiltIs(m: Memory, page: Option<Word>, name: string, target: Word, detour: Word)
    requires Build(m, page, name, target, detour).Ok?
    ensures var b, t := Build(m, page, name, target, detour).value, ResolveFuncPtr(m, target);
            var n := |b.hook.saved|;
            && b.mem == WithTrampolines(m, b.hook)
            && if t == 0 then b.hook == Hook(name, 0, ResolveFuncPtr(m, detour), false, [], 0, 0)
               else
                 && page.Some? && CanStandAt(m, t, page.value, n)
                 && b.hook == Hook(name, t, ResolveFuncPtr(m, detour), false, Read(m, t, n), page.value,
                                   Plus(page.value, n + 14))
  {
    var t := ResolveFuncPtr(m, target);
    BuiltShape(m, page, name, target, detour);
    hide ResolveFuncPtr, IsHead, Relocate, WriteTrampolines, WithTrampolines;
    if t != 0 {
      var n := PatchLengthFrom(m, t, 0).value;
      PatchLengthExactlyWhen(m, t, n);
      HeadIsMoved(m, t, page.value, n);
      hide PatchLengthFrom, CanStandAt;
    }
  }

  /** Some hook has that name. */
  ghost predicate HasName(hooks: seq<Hook>, name: string) {
    exists i: nat :: i < |hooks| && hooks[i].name == name
  }

  /**
   * Creating a hook succeeds exactly when it can be built and its name is new; a taken name throws
   * only if it could be built. A throw leaves the hooks alone, and one before the trampolines are
   * written leaves the memory alone.
   */
  lemma CreateOutcome(w: World, c: Command, e: HookError)
    requires c.Create?
    ensures var r := Perform(w, c);
            && (r.thrown == None <==> CanBuild(w.mem, c.page, c.name, c.target, c.detour) && !HasName(w.hooks, c.name))
            && (r.thrown == Some(e) <==>
                  CauseOf(w.mem, c.page, c.name, c.target, c.detour, e)
                  || (e == DuplicateName && CanBuild(w.mem, c.page, c.name, c.target, c.detour)
                      && HasName(w.hooks, c.name)))
            && (r.thrown == None ==> |r.world.hooks| == |w.hooks| + 1 && w.hooks <= r.world.hooks
                                     && r.world.hooks[|w.hooks|].name == c.name)
            && (r.thrown.Some? ==> r.world.hooks == w.hooks)
            && (r.thrown.Some? && r.thrown != Some(DuplicateName) ==> r.world.mem == w.mem)
  {
    hide Build, CanBuild;
    BuildOutcome(w.mem, c.page, c.name, c.target, c.detour, e);
    if Build(w.mem, c.page, c.name, c.target, c.detour).Ok? {
      BuiltShape(w.mem, c.page, c.name, c.target, c.detour);
    }
  }

  /**
   * Retargeting throws exactly while the hook is installed, or when the new hook cannot be built,
   * and then changes neither hooks nor memory.
   */
  lemma RetargetOutcome(w: World, c: Command, e: HookError)
    requires c.ChangeTarget? && c.i < |w.hooks|
    ensures var r, h := Perform(w, c), w.hooks[c.i];
            && (r.thrown == None <==> !h.installed && CanBuild(w.mem, c.newPage, h.name, c.newTarget, h.detour))
            && (r.thrown == Some(e) <==>
                  if h.installed then e == RetargetWhileInstalled
                  else CauseOf(w.mem, c.newPage, h.name, c.newTarget, h.detour, e))
            && (r.thrown == None ==> r.world.hooks == w.hooks[c.i := r.world.hooks[c.i]])
            && (r.thrown.Some? ==> r.world.hooks == w.hooks && r.world.mem == w.mem)
  {
    hide Build, CanBuild, CauseOf;
    BuildOutcome(w.mem, c.newPage, w.hooks[c.i].name, c.newTarget, w.hooks[c.i].detour, e);
  }

  // ----- installing and uninstalling

  /** Installing throws exactly for a hook that is installed already, or has no target. */
  lemma InstallOutcome(w: World, p: PageSize, base: Memory, i: nat)
    requires Inv(w, p, base) && i < |w.hooks|
    ensures var r, h := Perform(w, Install(i)), w.hooks[i];
            && (r.thrown == Some(AlreadyInstalled) <==> h.installed)
            && (r.thrown == Some(NoTarget) <==> !h.installed && h.target == 0)
            && (r.thrown == None <==> !h.installed && h.target != 0)
            && (r.thrown.Some? ==> r.world == w)
            && (r.thrown == None ==>
                  && r.world.hooks == w.hooks[i := h.(installed := true)] && r.world.free == w.free
                  && Holds(r.world.mem, h.target, PatchBytes(h))
                  && AgreeOutside(w.mem, r.world.mem, Range(h.target, |h.saved|)))
  {
    var h := w.hooks[i];
    assert WellBuilt(base, h);
    if !h.installed {
      SetOneThrows(w, p, base, i, true);
    }
    hide Inv, WellBuilt, RelJmp;
  }

  /** Uninstalling throws exactly for a hook that is not installed. */
  lemma UninstallOutcome(w: World, i: nat)
    requires i < |w.hooks|
    ensures var r, h := Perform(w, Uninstall(i)), w.hooks[i];
            && (r.thrown == Some(NotInstalled) <==> !h.installed)
            && (r.thrown == None <==> h.installed)
            && (r.thrown.Some? ==> r.world == w)
            && (r.thrown == None ==>
                  && r.world.hooks == w.hooks[i := h.(installed := false)] && r.world.free == w.free
                  && Holds(r.world.mem, h.target, h.saved)
                  && AgreeOutside(w.mem, r.world.mem, Range(h.target, |h.saved|)))
  {}

  /** Nothing counts and nothing changes when a call on one hook throws. */
  lemma ThrowingChangesNothing(w: World, i: nat, install: bool)
    requires i < |w.hooks|
    ensures var r := Perform(w, if install then Install(i) else Uninstall(i));
            r.count == 0 && (r.thrown.Some? ==> r == Effect(w, r.thrown, 0))
  {
    hide InstallHook, UninstallHook;
  }

  /** What a second install, and an uninstall of what is not installed, do to a world. */
  ghost predicate ThrowsSecondTime(now: World, i: nat)
    requires i < |now.hooks|
  {
    && (now.hooks[i].installed <==> Perform(now, Install(i)) == Effect(now, Some(AlreadyInstalled), 0))
    && (!now.hooks[i].installed <==> Perform(now, Uninstall(i)) == Effect(now, Some(NotInstalled), 0))
    && (!now.hooks[i].installed && now.hooks[i].target == 0
        <==> Perform(now, Install(i)) == Effect(now, Some(NoTarget), 0))
  }

  lemma SecondTimeUnderInv(w: World, p: PageSize, base: Memory, i: nat)
    requires Inv(w, p, base) && i < |w.hooks|
    ensures ThrowsSecondTime(w, i)
  {
    hide Inv, Perform, PatchBytes;
    InstallOutcome(w, p, base, i);
    UninstallOutcome(w, i);
    ThrowingChangesNothing(w, i, true);
    ThrowingChangesNothing(w, i, false);
  }

  lemma EmptyIsInv(w: World, p: PageSize)
    requires NoHooksYet(w, p)
    ensures Inv(w, p, w.mem)
  {}

  /**
   * In every world that a run of calls reaches, installing what is installed and uninstalling what
   * is not throws and changes nothing.
   */
  lemma SecondTimeThrows(w: World, p: PageSize, cs: seq<Command>, i: nat)
    requires NoHooksYet(w, p) && AdmissibleRun(w, p, cs) && i < |Run(w, cs).hooks|
    ensures ThrowsSecondTime(Run(w, cs), i)
  {
    EmptyIsInv(w, p);
    hide Run, BaseAfterRun, AdmissibleRun, Inv, ThrowsSecondTime;
    RunKeepsInv(w, p, w.mem, cs);
    SecondTimeUnderInv(Run(w, cs), p, BaseAfterRun(w, w.mem, cs), i);
  }

  // ----- the patch

  function NopOps(n: nat): (ops: seq<Op>)
    ensures |ops| == n
  {
    seq(n, _ => Nop)
  }

  lemma {:induction false} NopsParse(n: nat)
    ensures Parse(Nops(n)) == Some(NopOps(n))
  {
    if n > 0 {
      assert Decode(Nops(n)) == Some(Nop);
      assert Nops(n)[1..] == Nops(n - 1);
      NopsParse(n - 1);
      assert [Nop] + NopOps(n - 1) == NopOps(n);
    }
  }

  /** The patch is one relative jump to the entrance of the trampolines, and then only nops. */
  lemma PatchIsJumpAndNops(base: Memory, h: Hook)
    requires WellBuilt(base, h) && h.target != 0
    ensures exists d: Int32 ::
              && Parse(PatchBytes(h)) == Some([JmpRel(32, d)] + NopOps(|h.saved| - 5))
              && Plus(Plus(h.target, 5), d) == h.enter
  {
    var d: Int32 := Signed(Minus(h.enter, Plus(h.target, 5)));
    RelJmpDecodes(h.target, h.enter, PatchBytes(h));
    NopsParse(|h.saved| - 5);
    hide Decode, RelJmp;
    assert PatchBytes(h)[5..] == Nops(|h.saved| - 5);
    assert Plus(Plus(h.target, 5), d) == h.enter;
  }
}
