/**
 * Hooks as values: what creating, installing, uninstalling and retargeting do to the hooks
 * and to the memory, over whole runs and including the calls that throw.
 */
module HookModel {
  import opened Words
  import opened Memories
  import opened Wrappers
  import opened X86
  import opened Relocation
  import opened Encoders
  import opened Pages

  datatype HookError =
    | EmptyName | NullDetour | NoPageNear | UndecodableTarget | NotRelocatable(e: RelocError)
    | AlreadyInstalled | NoTarget | TooFarApart | PatchTooSmall
    | NotInstalled | RetargetWhileInstalled | DuplicateName

  /** At most 19 bytes are ever saved. */
  type Saved = s: seq<Byte> | |s| < 0x100

  /** `target == 0` is a hook whose target function is not known yet. */
  datatype Hook = Hook(
    name: string,
    target: Word,
    detour: Word,
    installed: bool,
    saved: Saved,        // patched_original_bytes
    original: Word,      // code_call_original
    enter: Word)         // code_enter_detour

  // ----- patch length

  /** Whole instructions are taken from `at + n` on, until at least five bytes are. */
  function PatchLengthFrom(m: Memory, at: Word, n: nat): (r: Option<nat>)
    requires n < REL_JMP_SIZE + MAX_LENGTH
    ensures r.Some? ==> n <= r.value && REL_JMP_SIZE <= r.value < REL_JMP_SIZE + MAX_LENGTH
    decreases REL_JMP_SIZE + MAX_LENGTH - n
  {
    if n >= REL_JMP_SIZE then Some(n)
    else match Decode(Read(m, Plus(at, n), MAX_LENGTH))
      case None => None
      case Some(op) => PatchLengthFrom(m, at, n + op.Length())
  }

  lemma ReadRest(m: Memory, at: Word, k: nat, len: nat, n: nat)
    requires k + len <= n < TWO64
    ensures Read(m, Plus(at, k), n - k)[len..] == Read(m, Plus(at, k + len), n - k - len)
  {
    var x, y := Read(m, Plus(at, k), n - k)[len..], Read(m, Plus(at, k + len), n - k - len);
    forall i: nat {:trigger x[i]} | i < n - k - len ensures x[i] == y[i] {
      PlusOfPlus(at, k, len + i);
      PlusOfPlus(at, k + len, i);
    }
  }

  lemma {:induction false} PatchLengthBoundaries(m: Memory, at: Word, k: nat, n: nat)
    requires k < REL_JMP_SIZE + MAX_LENGTH && PatchLengthFrom(m, at, k) == Some(n)
    ensures Parse(Read(m, Plus(at, k), n - k)).Some?
    ensures var ops := Parse(Read(m, Plus(at, k), n - k)).value;
            forall i: nat {:trigger Offset(ops, i)} | i < |ops| :: k + Offset(ops, i) < REL_JMP_SIZE
    decreases REL_JMP_SIZE + MAX_LENGTH - k
  {
    if k < REL_JMP_SIZE {
      var fetched := Read(m, Plus(at, k), MAX_LENGTH);
      var bytes := Read(m, Plus(at, k), n - k);
      var len := Decode(fetched).value.Length();
      PatchLengthBoundaries(m, at, k + len, n);
      DecodeLooksNoFurther(fetched, bytes);
      hide Decode;
      ReadRest(m, at, k, len, n);
      var ops, rest := Parse(bytes).value, Parse(bytes[len..]).value;
      assert ops[1..] == rest;
      forall i: nat {:trigger Offset(ops, i)} | i < |ops| ensures k + Offset(ops, i) < REL_JMP_SIZE {
        if i > 0 { assert Offset(ops, i) == len + Offset(rest, i - 1); }
      }
    }
  }

  /** What the decode loop sees at `at`. */
  ghost predicate DecodesAt(m: Memory, at: Word, op: Op) {
    Decode(Read(m, at, MAX_LENGTH)) == Some(op)
  }

  lemma FirstIsLive(m: Memory, at: Word, n: nat)
    requires n < 0x100 && Decode(Read(m, at, n)).Some?
    ensures DecodesAt(m, at, Decode(Read(m, at, n)).value)
  {
    DecodeLooksNoFurther(Read(m, at, n), Read(m, at, MAX_LENGTH));
    hide Decode;
  }

  /** The copied bytes decode to what stands at the same offsets in the live function. */
  lemma {:induction false} CopyIsLive(m: Memory, at: Word, n: nat, i: nat)
    requires n < 0x100 && Parse(Read(m, at, n)).Some? && i < |Parse(Read(m, at, n)).value|
    ensures var ops := Parse(Read(m, at, n)).value;
            Offset(ops, i) <= n && DecodesAt(m, Plus(at, Offset(ops, i)), ops[i])
    decreases n
  {
    hide Decode, Read, DecodesAt, Op.Length;
    var code := Read(m, at, n);
    var ops, len := Parse(code).value, Decode(code).value.Length();
    assert Plus(at, 0) == at;
    if i == 0 {
      FirstIsLive(m, at, n);
    } else {
      ReadRest(m, at, 0, len, n);
      var rest := Parse(code[len..]).value;
      assert ops[1..] == rest;
      CopyIsLive(m, Plus(at, len), n - len, i - 1);
      PlusOfPlus(at, len, Offset(rest, i - 1));
    }
  }

  lemma {:induction false} OffsetAtEnd(code: seq<Byte>)
    requires Parse(code).Some?
    ensures Offset(Parse(code).value, |Parse(code).value|) == |code|
  {
    if code != [] {
      var ops := Parse(code).value;
      OffsetAtEnd(code[ops[0].Length()..]);
      assert ops[1..] == Parse(code[ops[0].Length()..]).value;
    }
  }

  /**
   * The patch covers whole instructions of the target, the fewest that make five bytes: it ends
   * at the least instruction boundary that is not below five, between 5 and 19, and the copy
   * that is relocated decodes to the very instructions that stand in the live function.
   */
  lemma PatchLengthIsLeast(m: Memory, at: Word, n: nat)
    requires PatchLengthFrom(m, at, 0) == Some(n)
    ensures REL_JMP_SIZE <= n <= 19
    ensures Parse(Read(m, at, n)).Some?
    ensures var ops := Parse(Read(m, at, n)).value;
            && Offset(ops, |ops|) == n
            && forall i: nat {:trigger Offset(ops, i)} | i < |ops| ::
                 Offset(ops, i) < REL_JMP_SIZE && DecodesAt(m, Plus(at, Offset(ops, i)), ops[i])
  {
    hide Decode, PatchLengthFrom, DecodesAt;
    PatchLengthBoundaries(m, at, 0, n);
    assert Plus(at, 0) == at;
    forall i: nat | i < |Parse(Read(m, at, n)).value| {
      CopyIsLive(m, at, n, i);
    }
    OffsetAtEnd(Read(m, at, n));
  }

  // ----- creating a hook

  datatype Built = Built(hook: Hook, mem: Memory)

  /** The two trampolines, as they are written one piece after the other. */
  function WriteTrampolines(m: Memory, page: Word, moved: seq<Byte>, back: Word, detour: Word): Memory
    requires |moved| < 0x100
  {
    var m1 := Write(m, page, moved);
    var m2 := Write(m1, Plus(page, |moved|), PureJmp(back));
    Write(m2, Plus(page, |moved| + 14), PureJmp(detour))
  }

  /** `Inner::Inner`: `page` is what `alloc_page_near` returned, or `None` if it threw. */
  function Build(m: Memory, page: Option<Word>, name: string, target: Word, detour: Word): Result<Built, HookError> {
    if name == "" then Err(EmptyName)
    else if detour == 0 then Err(NullDetour)
    else
      var t, d := ResolveFuncPtr(m, target), ResolveFuncPtr(m, detour);
      if t == 0 then Ok(Built(Hook(name, 0, d, false, [], 0, 0), m))
      else if page.None? then Err(NoPageNear)
      else match PatchLengthFrom(m, t, 0)
        case None => Err(UndecodableTarget)
        case Some(n) =>
          var saved := Read(m, t, n);
          match Relocate(saved, t, page.value)
          case Err(e) => Err(NotRelocatable(e))
          case Ok(moved) =>
            Ok(Built(Hook(name, t, d, false, saved, page.value, Plus(page.value, n + 14)),
                     WriteTrampolines(m, page.value, moved, Plus(t, n), d)))
  }

  /** `page` is what `alloc_page_near` returns if the constructor gets as far as calling it. */
  ghost predicate PageFor(m: Memory, free: set<Word>, p: PageSize, name: string, target: Word, detour: Word,
                          page: Option<Word>) {
    var t := ResolveFuncPtr(m, target);
    if name == "" || detour == 0 || t == 0 then page == None
    else FirstFound(free, AlignDown(t, p), p, page)
  }

  // ----- installing and uninstalling one

  function Nops(n: nat): (bs: seq<Byte>)
    ensures |bs| == n
  {
    seq(n, _ => 0x90)
  }

  /** The bytes that install writes: a jump to the trampoline, padded with nops. */
  function PatchBytes(h: Hook): (bs: seq<Byte>)
    ensures |bs| == |h.saved|
  {
    var jmp := RelJmp(h.target, h.enter);
    if jmp.None? || |h.saved| < REL_JMP_SIZE then h.saved else jmp.value + Nops(|h.saved| - REL_JMP_SIZE)
  }

  function InstallHook(m: Memory, h: Hook): Result<Built, HookError>
  {
    if h.installed then Err(AlreadyInstalled)
    else if h.target == 0 then Err(NoTarget)
    else if RelJmp(h.target, h.enter).None? then Err(TooFarApart)
    else if |h.saved| < REL_JMP_SIZE then Err(PatchTooSmall)
    else Ok(Built(h.(installed := true), Write(m, h.target, PatchBytes(h))))
  }

  function UninstallHook(m: Memory, h: Hook): Result<Built, HookError>
  {
    if !h.installed then Err(NotInstalled)
    else Ok(Built(h.(installed := false), Write(m, h.target, h.saved)))
  }

  // ----- the registry and its calls

  datatype World = World(mem: Memory, free: set<Word>, hooks: seq<Hook>)

  datatype Command =
    | Create(name: string, target: Word, detour: Word, page: Option<Word>)
    | ChangeTarget(i: nat, newTarget: Word, newPage: Option<Word>)
    | Install(i: nat)
    | Uninstall(i: nat)
    | SetAll(install: bool)

  /** What a call did: the world after it, the exception if it threw, and the count it returned. */
  datatype Effect = Effect(world: World, thrown: Option<HookError>, count: nat)

  predicate NameTaken(hooks: seq<Hook>, name: string) {
    exists i: nat :: i < |hooks| && hooks[i].name == name
  }

  function Without(free: set<Word>, page: Option<Word>): set<Word> {
    if page.Some? then free - {page.value} else free
  }

  function SetOne(w: World, i: nat, install: bool): (e: Effect)
    requires i < |w.hooks|
    ensures |e.world.hooks| == |w.hooks|
  {
    var r := if install then InstallHook(w.mem, w.hooks[i]) else UninstallHook(w.mem, w.hooks[i]);
    match r
    case Err(e) => Effect(w, Some(e), 0)
    case Ok(b) => Effect(w.(mem := b.mem, hooks := w.hooks[i := b.hook]), None, 0)
  }

  /** `set_all_hooks_installed` from hook `k` on, after `count` changes. */
  function SetAllFrom(w: World, k: nat, install: bool, count: nat): Effect
    requires k <= |w.hooks|
    decreases |w.hooks| - k
  {
    if k == |w.hooks| then Effect(w, None, count)
    else if w.hooks[k].installed == install then SetAllFrom(w, k + 1, install, count)
    else
      var one := SetOne(w, k, install);
      if one.thrown.Some? then one.(count := count)
      else SetAllFrom(one.world, k + 1, install, count + 1)
  }

  function Perform(w: World, c: Command): Effect
  {
    match c
    case Create(name, target, detour, page) =>
      var w' := w.(free := Without(w.free, page));
      (match Build(w.mem, page, name, target, detour)
       case Err(e) => Effect(w', Some(e), 0)
       case Ok(b) =>
         // the trampolines are written before the name is looked up
         if NameTaken(w.hooks, name) then Effect(w'.(mem := b.mem), Some(DuplicateName), 0)
         else Effect(w'.(mem := b.mem, hooks := w.hooks + [b.hook]), None, 0))
    case ChangeTarget(i, target, page) =>
      if i >= |w.hooks| then Effect(w, None, 0)
      else if w.hooks[i].installed then Effect(w, Some(RetargetWhileInstalled), 0)
      else
        var w' := w.(free := Without(w.free, page));
        (match Build(w.mem, page, w.hooks[i].name, target, w.hooks[i].detour)
         case Err(e) => Effect(w', Some(e), 0)
         case Ok(b) => Effect(w'.(mem := b.mem, hooks := w.hooks[i := b.hook]), None, 0))
    case Install(i) => if i >= |w.hooks| then Effect(w, None, 0) else SetOne(w, i, true)
    case Uninstall(i) => if i >= |w.hooks| then Effect(w, None, 0) else SetOne(w, i, false)
    case SetAll(install) => SetAllFrom(w, 0, install, 0)
  }

  /** If `c` builds a hook, `alloc_page_near` is where its page comes from. */
  ghost predicate PageFromAllocator(w: World, p: PageSize, c: Command) {
    match c
    case Create(name, target, detour, page) => PageFor(w.mem, w.free, p, name, target, detour, page)
    case ChangeTarget(i, target, page) =>
      i < |w.hooks| && !w.hooks[i].installed ==>
        PageFor(w.mem, w.free, p, w.hooks[i].name, target, w.hooks[i].detour, page)
    case _ => true
  }
}
