/** `relocation::relocate_code`: moving instructions to another address. */
module Relocation {
  import opened Words
  import opened Wrappers
  import opened X86

  /** The exceptions `relocate_code` throws. */
  datatype RelocError =
    | EmptyCode
    | Undecodable
    | TooFar(displacement: int, width: nat)
    | WeirdImmediateSize(width: nat)

  predicate Fits(v: int, width: nat) {
    match width
    case 32 => FitsInt32(v)
    case 16 => -0x8000 <= v < 0x8000
    case _ => -0x80 <= v < 0x80
  }

  /**
   * The displacement from the end `next` of an instruction to `target`. The subtraction
   * of two `int64_t` is taken to wrap around.
   */
  function NewDisp(target: Word, next: Word): int {
    Signed(Minus(target, next))
  }

  // ----- one instruction

  /**
   * What is thrown for a relative immediate of `width` bits. A displacement that does not fit
   * 8 bits is reported for the widest size, up to `width`, that it does not fit; one that does
   * fit, and every unknown width, ends in the last throw.
   */
  ghost predicate ThrownForImmediate(width: nat, displacement: int, e: RelocError) {
    if width in {8, 16, 32} && !Fits(displacement, 8) then
      && e.TooFar? && e.displacement == displacement
      && e.width in {8, 16, 32} && e.width <= width && !Fits(displacement, e.width)
      && forall wider | wider in {8, 16, 32} && e.width < wider <= width :: Fits(displacement, wider)
    else
      e == WeirdImmediateSize(width)
  }

  function ImmediateError(width: nat, displacement: int): (e: RelocError)
    ensures ThrownForImmediate(width, displacement, e)
  {
    if width !in {8, 16, 32} || Fits(displacement, 8) then WeirdImmediateSize(width)
    else if width == 32 && !FitsInt32(displacement) then TooFar(displacement, 32)
    else if width >= 16 && !Fits(displacement, 16) then TooFar(displacement, 16)
    else TooFar(displacement, 8)
  }

  /** There is only one such error. */
  lemma OneErrorForImmediate(width: nat, displacement: int, e: RelocError)
    requires ThrownForImmediate(width, displacement, e)
    ensures e == ImmediateError(width, displacement)
  {}

  /** The bytes of the instruction `bs`, moved so that `next` is the address after it. */
  function RelocateOne(bs: seq<Byte>, next: Word, next': Word): (r: Result<seq<Byte>, RelocError>)
    requires Decode(bs).Some?
    ensures r.Ok? ==> |r.value| == |bs|
  {
    var op := Decode(bs).value;
    if op.RipRelative() then
      var d := NewDisp(op.Target(next), next');
      if FitsInt32(d) then Ok(OverwriteInt32(bs, op.DispOffset(), d)) else Err(TooFar(d, 32))
    else if op.JmpRel? then
      Err(ImmediateError(op.width, NewDisp(Plus(next, op.rel), next')))
    else
      Ok(bs)
  }

  // ----- a run of instructions

  function Prepend(bs: seq<Byte>, r: Result<seq<Byte>, RelocError>): Result<seq<Byte>, RelocError> {
    if r.Ok? then Ok(bs + r.value) else r
  }

  lemma PrependNothing(r: Result<seq<Byte>, RelocError>)
    ensures Prepend([], r) == r
  {
    assert r.Ok? ==> [] + r.value == r.value;
  }

  lemma PrependTwice(xs: seq<Byte>, ys: seq<Byte>, r: Result<seq<Byte>, RelocError>)
    ensures Prepend(xs, Prepend(ys, r)) == Prepend(xs + ys, r)
  {
    assert r.Ok? ==> xs + (ys + r.value) == xs + ys + r.value;
  }

  lemma DecodeFirst(code: seq<Byte>)
    requires Decode(code).Some?
    ensures Decode(code[..Decode(code).value.Length()]) == Decode(code)
  {
    DecodeLooksNoFurther(code, code[..Decode(code).value.Length()]);
  }

  function RelocateAll(code: seq<Byte>, from: Word, to: Word): (r: Result<seq<Byte>, RelocError>)
    requires |code| < TWO64
    ensures r.Ok? ==> |r.value| == |code|
  {
    if code == [] then Ok([])
    else match Decode(code)
      case None => Err(Undecodable)
      case Some(op) =>
        var n := op.Length();
        DecodeFirst(code);
        match RelocateOne(code[..n], Plus(from, n), Plus(to, n))
        case Err(e) => Err(e)
        case Ok(bs) => Prepend(bs, RelocateAll(code[n..], Plus(from, n), Plus(to, n)))
  }

  function Relocate(code: seq<Byte>, from: Word, to: Word): (r: Result<seq<Byte>, RelocError>)
    requires |code| < TWO64
    ensures r.Ok? ==> |r.value| == |code|
  {
    if code == [] then Err(EmptyCode)
    else if from == to then Ok(code)
    else RelocateAll(code, from, to)
  }

  method RelocateImmediate(width: nat, displacement: int) returns (e: RelocError)
    ensures ThrownForImmediate(width, displacement, e)
  {
    // the cases have no `break`: case 32, falling through
    if width == 32 {
      if !Fits(displacement, 32) { return TooFar(displacement, 32); }
    }
    // case 16, falling through
    if width == 32 || width == 16 {
      if !Fits(displacement, 16) { return TooFar(displacement, 16); }
    }
    // case 8, falling through
    if width == 32 || width == 16 || width == 8 {
      if !Fits(displacement, 8) { return TooFar(displacement, 8); }
    }
    // default
    return WeirdImmediateSize(width);
  }

  lemma AllUnfolds(code: seq<Byte>, from: Word, to: Word)
    requires 0 < |code| < TWO64
    ensures Decode(code).None? ==> RelocateAll(code, from, to) == Err(Undecodable)
    ensures Decode(code).Some? ==>
              var n := Decode(code).value.Length();
              && Decode(code[..n]) == Decode(code)
              && var one := RelocateOne(code[..n], Plus(from, n), Plus(to, n));
                 RelocateAll(code, from, to)
                 == if one.Err? then one else Prepend(one.value, RelocateAll(code[n..], Plus(from, n), Plus(to, n)))
  {
    if Decode(code).Some? {
      DecodeFirst(code);
    }
  }

  /** At most one operand depends on where the instruction stands. */
  lemma OperandsOf(op: Op, k: nat)
    requires k < |op.Operands()|
    ensures op.Operands()[k].RipMemory? <==> op.RipRelative() && op.Operands()[k] == RipMemory(op.disp)
    ensures op.Operands()[k].RelImmediate? <==> op.JmpRel? && op.Operands()[k] == RelImmediate(op.width, op.rel)
    ensures op.Operands()[k] != Plain ==> forall j: nat | j < |op.Operands()| && j != k :: op.Operands()[j] == Plain
  {}

  lemma AllPlain(op: Op)
    requires forall k: nat | k < |op.Operands()| :: op.Operands()[k] == Plain
    ensures !op.RipRelative() && !op.JmpRel?
  {
    if op.Operands() != [] {
      assert op.Operands()[0] == Plain && op.Operands()[|op.Operands()| - 1] == Plain;
    }
  }

  /** The loop over the operands of one instruction, which rewrites a copy of its bytes. */
  method RelocateOperands(ins: Op, bs: seq<Byte>, next: Word, next': Word)
    returns (r: Result<seq<Byte>, RelocError>)
    requires Decode(bs) == Some(ins)
    ensures r == RelocateOne(bs, next, next')
  {
    hide Decode, NewDisp;
    var insBytes := bs;
    var operands := ins.Operands();
    for i := 0 to |operands|
      invariant if forall k: nat | k < i :: operands[k] == Plain then insBytes == bs
                else
                  && RelocateOne(bs, next, next') == Ok(insBytes)
                  && forall k: nat | i <= k < |operands| :: operands[k] == Plain
    {
      OperandsOf(ins, i);
      var operand := operands[i];
      if operand.RipMemory? || operand.RelImmediate? {
        var absTarget := Plus(next, operand.disp);
        var newDisp := NewDisp(absTarget, next');
        if operand.RipMemory? {
          if !FitsInt32(newDisp) { return Err(TooFar(newDisp, 32)); }
          insBytes := OverwriteInt32(insBytes, ins.DispOffset(), newDisp);
        }
        if operand.RelImmediate? {
          var e := RelocateImmediate(operand.width, newDisp);
          OneErrorForImmediate(operand.width, newDisp, e);
          return Err(e);
        }
      }
    }
    if forall k: nat | k < |operands| :: operands[k] == Plain {
      AllPlain(ins);
    }
    return Ok(insBytes);
  }

  /** The first `offset` bytes of `code` have been relocated to `results`. */
  ghost predicate Done(code: seq<Byte>, from: Word, to: Word, offset: nat, results: seq<Byte>) {
    && offset <= |code| < TWO64
    && RelocateAll(code, from, to)
       == Prepend(results, RelocateAll(code[offset..], Plus(from, offset), Plus(to, offset)))
  }

  lemma DoneAtStart(code: seq<Byte>, from: Word, to: Word)
    requires |code| < TWO64
    ensures Done(code, from, to, 0, [])
  {
    assert code[0..] == code;
    PrependNothing(RelocateAll(code, from, to));
  }

  lemma DoneAtEnd(code: seq<Byte>, from: Word, to: Word, results: seq<Byte>)
    requires |code| < TWO64 && Done(code, from, to, |code|, results)
    ensures RelocateAll(code, from, to) == Ok(results)
  {
    assert code[|code|..] == [] && results + [] == results;
  }

  lemma DoneNext(code: seq<Byte>, from: Word, to: Word, offset: nat, results: seq<Byte>)
    requires offset < |code| && Done(code, from, to, offset, results)
    ensures var ins := Decode(code[offset..]);
            if ins.None? then RelocateAll(code, from, to) == Err(Undecodable)
            else
              var n := ins.value.Length();
              && Decode(code[offset..][..n]) == ins
              && var one := RelocateOne(code[offset..][..n], Plus(from, offset + n), Plus(to, offset + n));
                 if one.Err? then RelocateAll(code, from, to) == one
                 else Done(code, from, to, offset + n, results + one.value)
  {
    var rest := code[offset..];
    AllUnfolds(rest, Plus(from, offset), Plus(to, offset));
    if Decode(rest).Some? {
      var n := Decode(rest).value.Length();
      PlusOfPlus(from, offset, n);
      PlusOfPlus(to, offset, n);
      hide Decode, RelocateOne;
      var one := RelocateOne(rest[..n], Plus(from, offset + n), Plus(to, offset + n));
      if one.Ok? {
        assert rest[n..] == code[offset + n..];
        PrependTwice(results, one.value, RelocateAll(rest[n..], Plus(from, offset + n), Plus(to, offset + n)));
      }
    }
  }

  /** The decode loop. */
  method RelocateLoop(code: seq<Byte>, from: Word, to: Word) returns (r: Result<seq<Byte>, RelocError>)
    requires |code| < TWO64
    ensures r == RelocateAll(code, from, to)
  {
    hide *;
    var results: seq<Byte> := [];
    var offset := 0;
    DoneAtStart(code, from, to);
    while offset < |code|
      invariant offset <= |code| && Done(code, from, to, offset, results)
    {
      DoneNext(code, from, to, offset, results);
      var rest := code[offset..];
      var ins := Decode(rest);
      if ins.None? { return Err(Undecodable); }
      var n := ins.value.Length();
      var one := RelocateOperands(ins.value, rest[..n], Plus(from, offset + n), Plus(to, offset + n));
      if one.Err? { return one; }
      results := results + one.value;
      offset := offset + n;
    }
    DoneAtEnd(code, from, to, results);
    return Ok(results);
  }

  method RelocateCode(code: seq<Byte>, from: Word, to: Word) returns (r: Result<seq<Byte>, RelocError>)
    requires |code| < TWO64
    ensures r == Relocate(code, from, to)
  {
    hide Decode, RelocateAll;
    if code == [] { return Err(EmptyCode); }
    if from == to { return Ok(code); }
    r := RelocateLoop(code, from, to);
  }

  // ----- what a successful relocation means

  /** The instructions that make up `code`. */
  function Parse(code: seq<Byte>): Option<seq<Op>> {
    if code == [] then Some([])
    else match Decode(code)
      case None => None
      case Some(op) =>
        match Parse(code[op.Length()..])
        case None => None
        case Some(ops) => Some([op] + ops)
  }

  /** The offset at which instruction `i` starts; `i == |ops|` gives the end of the code. */
  function Offset(ops: seq<Op>, i: nat): nat
    requires i <= |ops|
  {
    if i == 0 then 0 else ops[0].Length() + Offset(ops[1..], i - 1)
  }

  /** The instruction before `next` can stand before `next'` instead. */
  predicate Movable(op: Op, next: Word, next': Word) {
    && !op.JmpRel?
    && (op.RipRelative() ==> FitsInt32(NewDisp(op.Target(next), next')))
  }

  /** Same instruction and operands, and a RIP-relative operand has the same absolute target. */
  predicate SameMeaning(op: Op, next: Word, op': Op, next': Word) {
    if op.RipRelative() then
      op'.RipRelative() && op' == op.WithDisp(op'.disp) && op'.Target(next') == op.Target(next)
    else
      op' == op
  }

  /** Byte `k` of the code belongs to some instruction's 32-bit displacement. */
  ghost predicate InDisplacement(ops: seq<Op>, k: int) {
    exists i: nat :: i < |ops| && ops[i].RipRelative()
                     && Offset(ops, i) + ops[i].DispOffset() <= k < Offset(ops, i) + ops[i].DispOffset() + 4
  }

  /** The address after instruction `i` when the first one stands at `base`. */
  function AddressAfter(ops: seq<Op>, i: nat, base: Word): Word
    requires i < |ops|
  {
    var next := Plus(base, ops[0].Length());
    if i == 0 then next else AddressAfter(ops[1..], i - 1, next)
  }

  lemma AddressAfterIsOffset(ops: seq<Op>, i: nat, base: Word)
    requires i < |ops| && Offset(ops, i + 1) < TWO64
    ensures AddressAfter(ops, i, base) == Plus(base, Offset(ops, i + 1))
  {
    var n := ops[0].Length();
    if i == 0 {
      assert Offset(ops, 1) == n + Offset(ops[1..], 0);
    } else {
      AddressAfterIsOffset(ops[1..], i - 1, Plus(base, n));
      PlusOfPlus(base, n, Offset(ops[1..], i));
    }
  }

  lemma NewDispReaches(target: Word, next: Word)
    requires FitsInt32(NewDisp(target, next))
    ensures Plus(next, NewDisp(target, next)) == target
  {}

  /**
   * The subtraction of the two `int64_t` does not overflow exactly when the displacement is
   * their difference; below 2^63 it never does.
   */
  lemma ExactUnlessOverflow(target: Word, next: Word)
    ensures NewDisp(target, next) == Signed(target) - Signed(next)
       <==> -TWO63 <= Signed(target) - Signed(next) < TWO63
    ensures target < TWO63 && next < TWO63 ==> NewDisp(target, next) == target - next
  {}

  lemma NewDispOfPlus(next: Word, d: Int32)
    ensures NewDisp(Plus(next, d), next) == d
  {}

  lemma OneMoved(bs: seq<Byte>, next: Word, next': Word)
    requires Decode(bs).Some?
    ensures RelocateOne(bs, next, next').Ok? <==> Movable(Decode(bs).value, next, next')
    ensures RelocateOne(bs, next, next').Ok? ==>
              var bs' := RelocateOne(bs, next, next').value;
              Decode(bs').Some? && SameMeaning(Decode(bs).value, next, Decode(bs').value, next')
  {
    var op := Decode(bs).value;
    if op.RipRelative() {
      var d := NewDisp(op.Target(next), next');
      if FitsInt32(d) {
        OverwrittenDispDecodes(bs, d);
        NewDispReaches(op.Target(next), next');
      }
    }
  }

  /** An instruction changes in its displacement only. */
  lemma OneChangesDisplacement(bs: seq<Byte>, next: Word, next': Word, k: nat)
    requires Decode(bs).Some? && RelocateOne(bs, next, next').Ok? && k < |bs|
    requires var op := Decode(bs).value; op.RipRelative() ==> !(op.DispOffset() <= k < op.DispOffset() + 4)
    ensures RelocateOne(bs, next, next').value[k] == bs[k]
  {}

  /** Relocated code is its first instruction, relocated, and the rest, relocated. */
  lemma AllMovedFirst(code: seq<Byte>, from: Word, to: Word, moved: seq<Byte>)
    requires 0 < |code| < TWO64 && RelocateAll(code, from, to) == Ok(moved)
    ensures Decode(code).Some? && Decode(code[..Decode(code).value.Length()]) == Decode(code)
    ensures var n := Decode(code).value.Length();
            && RelocateOne(code[..n], Plus(from, n), Plus(to, n)) == Ok(moved[..n])
            && RelocateAll(code[n..], Plus(from, n), Plus(to, n)) == Ok(moved[n..])
  {
    var n := Decode(code).value.Length();
    DecodeFirst(code);
    var bs := RelocateOne(code[..n], Plus(from, n), Plus(to, n)).value;
    var rest := RelocateAll(code[n..], Plus(from, n), Plus(to, n)).value;
    assert moved == bs + rest;
    assert moved[..n] == bs && moved[n..] == rest;
  }

  lemma FirstKeepsMeaning(code: seq<Byte>, from: Word, to: Word, moved: seq<Byte>)
    requires 0 < |code| < TWO64 && RelocateAll(code, from, to) == Ok(moved)
    ensures Decode(code).Some? && Decode(moved).Some?
    ensures var op, op' := Decode(code).value, Decode(moved).value;
            && op'.Length() == op.Length()
            && Decode(moved[..op.Length()]) == Some(op')
            && SameMeaning(op, Plus(from, op.Length()), op', Plus(to, op.Length()))
  {
    AllMovedFirst(code, from, to, moved);
    var n := Decode(code).value.Length();
    OneMoved(code[..n], Plus(from, n), Plus(to, n));
    DecodeLooksNoFurther(moved[..n], moved);
  }

  lemma FirstIsMovable(code: seq<Byte>, from: Word, to: Word, moved: seq<Byte>)
    requires 0 < |code| < TWO64 && RelocateAll(code, from, to) == Ok(moved)
    ensures Decode(code).Some? && !Decode(code).value.JmpRel?
  {
    AllMovedFirst(code, from, to, moved);
    OneMoved(code[..Decode(code).value.Length()], Plus(from, Decode(code).value.Length()),
             Plus(to, Decode(code).value.Length()));
  }

  /** Every instruction can be moved from `from` to `to`. */
  ghost predicate AllMovable(ops: seq<Op>, from: Word, to: Word) {
    forall i: nat {:trigger ops[i]} | i < |ops| ::
      Movable(ops[i], AddressAfter(ops, i, from), AddressAfter(ops, i, to))
  }

  lemma AllMovableUnfolds(ops: seq<Op>, from: Word, to: Word)
    requires ops != []
    ensures var n := ops[0].Length();
            AllMovable(ops, from, to) <==>
              && Movable(ops[0], Plus(from, n), Plus(to, n))
              && AllMovable(ops[1..], Plus(from, n), Plus(to, n))
  {
    var n, rest := ops[0].Length(), ops[1..];
    if AllMovable(ops, from, to) {
      forall i: nat {:trigger rest[i]} | i < |rest|
        ensures Movable(rest[i], AddressAfter(rest, i, Plus(from, n)), AddressAfter(rest, i, Plus(to, n)))
      {
        assert rest[i] == ops[i + 1];
      }
    }
    if Movable(ops[0], Plus(from, n), Plus(to, n)) && AllMovable(rest, Plus(from, n), Plus(to, n)) {
      forall i: nat {:trigger ops[i]} | i < |ops|
        ensures Movable(ops[i], AddressAfter(ops, i, from), AddressAfter(ops, i, to))
      {
        if i > 0 { assert ops[i] == rest[i - 1]; }
      }
    }
  }

  lemma {:induction false} AllSucceedsExactlyWhen(code: seq<Byte>, from: Word, to: Word)
    requires |code| < TWO64
    ensures RelocateAll(code, from, to).Ok?
       <==> Parse(code).Some? && AllMovable(Parse(code).value, from, to)
  {
    if code != [] && Decode(code).Some? {
      var n := Decode(code).value.Length();
      DecodeFirst(code);
      OneMoved(code[..n], Plus(from, n), Plus(to, n));
      AllSucceedsExactlyWhen(code[n..], Plus(from, n), Plus(to, n));
      if Parse(code).Some? {
        assert Parse(code).value[1..] == Parse(code[n..]).value;
        AllMovableUnfolds(Parse(code).value, from, to);
      }
    }
  }

  /** What keeps an operand in reach: some 32-bit displacement leads to its old target. */
  lemma MovableExactlyWhen(op: Op, next: Word, next': Word)
    ensures Movable(op, next, next')
       <==> !op.JmpRel? && (op.RipRelative() ==> exists d: Int32 :: Plus(next', d) == op.Target(next))
  {
    if op.RipRelative() && FitsInt32(NewDisp(op.Target(next), next')) {
      var d: Int32 := NewDisp(op.Target(next), next');
      assert Plus(next', d) == op.Target(next);
    }
  }

  /**
   * Relocation to another address succeeds exactly when all of the code decodes, it holds
   * no relative branch, and every RIP-relative target stays within reach of an `int32_t`.
   */
  lemma SucceedsExactlyWhen(code: seq<Byte>, from: Word, to: Word)
    requires code != [] && |code| < TWO64 && from != to
    ensures Relocate(code, from, to).Ok?
       <==> Parse(code).Some? && AllMovable(Parse(code).value, from, to)
  {
    AllSucceedsExactlyWhen(code, from, to);
  }

  /**
   * The instruction that `code` starts with, at `from`, cannot be moved to `to`, and `e` says why:
   * it does not decode, its operand is out of reach, or it is a relative branch.
   */
  ghost predicate Blames(code: seq<Byte>, from: Word, to: Word, e: RelocError) {
    match Decode(code)
    case None => e == Undecodable
    case Some(op) =>
      var next, next' := Plus(from, op.Length()), Plus(to, op.Length());
      if op.RipRelative() then
        && (forall d: Int32 :: Plus(next', d) != op.Target(next))
        && e == TooFar(NewDisp(op.Target(next), next'), 32)
      else
        op.JmpRel? && ThrownForImmediate(op.width, NewDisp(Plus(next, op.rel), next'), e)
  }

  /** All instructions before byte `k` can be moved, and the one there cannot, because of `e`. */
  ghost predicate FailsAt(code: seq<Byte>, from: Word, to: Word, k: nat, e: RelocError) {
    && k < |code| < TWO64
    && Parse(code[..k]).Some? && AllMovable(Parse(code[..k]).value, from, to)
    && Blames(code[k..], Plus(from, k), Plus(to, k), e)
  }

  lemma FirstFails(code: seq<Byte>, from: Word, to: Word, e: RelocError)
    requires 0 < |code| < TWO64 && Blames(code, from, to, e)
    ensures RelocateAll(code, from, to) == Err(e)
  {
    AllUnfolds(code, from, to);
    if Decode(code).Some? {
      var op := Decode(code).value;
      var next, next' := Plus(from, op.Length()), Plus(to, op.Length());
      MovableExactlyWhen(op, next, next');
      if op.JmpRel? {
        OneErrorForImmediate(op.width, NewDisp(Plus(next, op.rel), next'), e);
      }
    }
  }

  lemma OneBlames(code: seq<Byte>, from: Word, to: Word)
    requires Decode(code).Some?
    ensures var n := Decode(code).value.Length();
            var r := RelocateOne(code[..n], Plus(from, n), Plus(to, n));
            Decode(code[..n]) == Decode(code) && (r.Err? ==> Blames(code, from, to, r.error))
  {
    DecodeFirst(code);
    var op := Decode(code).value;
    hide Decode;
    MovableExactlyWhen(op, Plus(from, op.Length()), Plus(to, op.Length()));
  }

  /** The head of the code that is cut at `k`, one instruction shorter. */
  lemma HeadUnfolds(code: seq<Byte>, from: Word, to: Word, k: nat)
    requires k <= |code| < TWO64 && Decode(code).Some? && Decode(code).value.Length() <= k
    ensures var n := Decode(code).value.Length();
            && (Parse(code[..k]).Some? <==> Parse(code[n..][..k - n]).Some?)
            && (Parse(code[..k]).Some? ==>
                  (AllMovable(Parse(code[..k]).value, from, to)
                   <==> Movable(Decode(code).value, Plus(from, n), Plus(to, n))
                        && AllMovable(Parse(code[n..][..k - n]).value, Plus(from, n), Plus(to, n))))
  {
    var n := Decode(code).value.Length();
    DecodeLooksNoFurther(code, code[..k]);
    hide Decode, AllMovable, Movable;
    assert code[..k][n..] == code[n..][..k - n];
    if Parse(code[..k]).Some? {
      assert Parse(code[..k]).value[1..] == Parse(code[n..][..k - n]).value;
      AllMovableUnfolds(Parse(code[..k]).value, from, to);
    }
  }

  lemma BlamesUndecodable(code: seq<Byte>, from: Word, to: Word)
    requires Decode(code).None?
    ensures Blames(code, from, to, Undecodable)
  {}

  lemma FailsAtStart(code: seq<Byte>, from: Word, to: Word, e: RelocError)
    requires 0 < |code| < TWO64 && Blames(code, from, to, e)
    ensures FailsAt(code, from, to, 0, e)
  {
    hide Blames;
    assert code[..0] == [] && code[0..] == code && Plus(from, 0) == from && Plus(to, 0) == to;
  }

  lemma {:induction false} ErrorFailsAt(code: seq<Byte>, from: Word, to: Word, e: RelocError) returns (k: nat)
    requires |code| < TWO64 && RelocateAll(code, from, to) == Err(e)
    ensures FailsAt(code, from, to, k, e)
  {
    hide Decode, RelocateOne, Blames, Movable;
    AllUnfolds(code, from, to);
    if Decode(code).None? {
      k := 0;
      BlamesUndecodable(code, from, to);
      FailsAtStart(code, from, to, e);
    } else {
      var n := Decode(code).value.Length();
      OneBlames(code, from, to);
      if RelocateOne(code[..n], Plus(from, n), Plus(to, n)).Err? {
        k := 0;
        FailsAtStart(code, from, to, e);
      } else {
        OneMoved(code[..n], Plus(from, n), Plus(to, n));
        var k' := ErrorFailsAt(code[n..], Plus(from, n), Plus(to, n), e);
        k := n + k';
        HeadUnfolds(code, from, to, k);
        assert code[n..][k'..] == code[k..];
        PlusOfPlus(from, n, k');
        PlusOfPlus(to, n, k');
      }
    }
  }

  lemma {:induction false} FailureThrows(code: seq<Byte>, from: Word, to: Word, k: nat, e: RelocError)
    requires FailsAt(code, from, to, k, e)
    ensures RelocateAll(code, from, to) == Err(e)
    decreases k
  {
    hide Blames, Movable;
    if k == 0 {
      assert code[0..] == code && Plus(from, 0) == from && Plus(to, 0) == to;
      FirstFails(code, from, to, e);
    } else {
      DecodeLooksNoFurther(code[..k], code);
      hide Decode;
      var n := Decode(code).value.Length();
      AllUnfolds(code, from, to);
      HeadUnfolds(code, from, to, k);
      OneMoved(code[..n], Plus(from, n), Plus(to, n));
      assert code[n..][k - n..] == code[k..];
      PlusOfPlus(from, n, k - n);
      PlusOfPlus(to, n, k - n);
      FailureThrows(code[n..], Plus(from, n), Plus(to, n), k - n, e);
    }
  }

  /**
   * Exactly when relocation throws what: for empty code, and to another address for the first
   * instruction that does not decode, whose operand is out of reach, or that is a relative branch.
   */
  lemma ThrowsExactlyWhen(code: seq<Byte>, from: Word, to: Word, e: RelocError)
    requires |code| < TWO64
    ensures Relocate(code, from, to) == Err(e)
       <==> if code == [] then e == EmptyCode else from != to && exists k: nat :: FailsAt(code, from, to, k, e)
  {
    hide RelocateAll, FailsAt;
    if code != [] && from != to {
      if RelocateAll(code, from, to) == Err(e) {
        var k := ErrorFailsAt(code, from, to, e);
      }
      if k: nat :| FailsAt(code, from, to, k, e) {
        FailureThrows(code, from, to, k, e);
      }
    }
  }

  /** Code with a relative branch in it is never relocated, however near the new place is. */
  lemma BranchesAreNeverMoved(code: seq<Byte>, from: Word, to: Word, i: nat)
    requires code != [] && |code| < TWO64 && from != to
    requires Parse(code).Some? && i < |Parse(code).value| && Parse(code).value[i].JmpRel?
    ensures Relocate(code, from, to).Err?
  {
    SucceedsExactlyWhen(code, from, to);
  }

  /** A function that starts with `jmp short $+2` cannot be moved by one byte. */
  lemma ShortJumpIsNeverMoved(code: seq<Byte>, from: Word)
    requires 2 <= |code| < TWO64 && code[0] == 0xEB && code[1] == 0x00
    ensures Relocate(code, from, Plus(from, 1)) == Err(WeirdImmediateSize(8))
  {
    assert Decode(code) == Some(JmpRel(8, 0));
    DecodeFirst(code);
  }

  /** The relocated code means at `to` what the code meant at `from`. */
  ghost predicate SameMeanings(ops: seq<Op>, from: Word, ops': seq<Op>, to: Word) {
    && |ops'| == |ops|
    && forall i: nat {:trigger ops[i]} {:trigger ops'[i]} | i < |ops| ::
         SameMeaning(ops[i], AddressAfter(ops, i, from), ops'[i], AddressAfter(ops', i, to))
  }

  /** Bytes differ in displacements only. */
  ghost predicate OnlyDisplacementsDiffer(ops: seq<Op>, code: seq<Byte>, moved: seq<Byte>) {
    && |moved| == |code|
    && forall k: nat {:trigger code[k]} {:trigger moved[k]} | k < |code| && !InDisplacement(ops, k) ::
         moved[k] == code[k]
  }

  lemma MeaningsOfCons(op: Op, rest: seq<Op>, from: Word, op': Op, rest': seq<Op>, to: Word)
    requires op'.Length() == op.Length()
    requires SameMeaning(op, Plus(from, op.Length()), op', Plus(to, op.Length()))
    requires SameMeanings(rest, Plus(from, op.Length()), rest', Plus(to, op.Length()))
    ensures SameMeanings([op] + rest, from, [op'] + rest', to)
  {
    var ops, ops' := [op] + rest, [op'] + rest';
    assert ops[1..] == rest && ops'[1..] == rest';
    forall i: nat {:trigger ops[i]} | i < |ops|
      ensures SameMeaning(ops[i], AddressAfter(ops, i, from), ops'[i], AddressAfter(ops', i, to))
    {
      if i > 0 { assert ops[i] == rest[i - 1] && ops'[i] == rest'[i - 1]; }
    }
  }

  lemma InDisplacementOfCons(op: Op, rest: seq<Op>, k: int)
    ensures InDisplacement(rest, k - op.Length()) ==> InDisplacement([op] + rest, k)
  {
    var ops, n := [op] + rest, op.Length();
    assert ops[1..] == rest;
    if i: nat :| i < |rest| && rest[i].RipRelative()
                 && Offset(rest, i) + rest[i].DispOffset() <= k - n < Offset(rest, i) + rest[i].DispOffset() + 4
    {
      assert Offset(ops, i + 1) == n + Offset(rest, i) && ops[i + 1] == rest[i];
    }
  }

  lemma DifferencesOfCons(op: Op, rest: seq<Op>, code: seq<Byte>, moved: seq<Byte>)
    requires |moved| == |code| && op.Length() <= |code|
    requires forall k: nat | k < op.Length() && !(op.RipRelative() && op.DispOffset() <= k < op.DispOffset() + 4) ::
               moved[k] == code[k]
    requires OnlyDisplacementsDiffer(rest, code[op.Length()..], moved[op.Length()..])
    ensures OnlyDisplacementsDiffer([op] + rest, code, moved)
  {
    var ops, n := [op] + rest, op.Length();
    assert ops[1..] == rest;
    forall k: nat {:trigger code[k]} | k < |code| && !InDisplacement(ops, k) ensures moved[k] == code[k] {
      if k < n {
        assert Offset(ops, 0) == 0 && ops[0] == op;
      } else {
        InDisplacementOfCons(op, rest, k);
        assert code[n..][k - n] == code[k] && moved[n..][k - n] == moved[k];
      }
    }
  }

  lemma {:induction false} AllKeepMeaning(code: seq<Byte>, from: Word, to: Word, moved: seq<Byte>)
    requires |code| < TWO64 && RelocateAll(code, from, to) == Ok(moved)
    ensures Parse(code).Some? && Parse(moved).Some?
    ensures SameMeanings(Parse(code).value, from, Parse(moved).value, to)
    ensures OnlyDisplacementsDiffer(Parse(code).value, code, moved)
  {
    if code != [] {
      AllMovedFirst(code, from, to, moved);
      FirstKeepsMeaning(code, from, to, moved);
      var op, op' := Decode(code).value, Decode(moved).value;
      var n := op.Length();
      AllKeepMeaning(code[n..], Plus(from, n), Plus(to, n), moved[n..]);
      MeaningsOfCons(op, Parse(code[n..]).value, from, op', Parse(moved[n..]).value, to);
      forall k: nat | k < n && !(op.RipRelative() && op.DispOffset() <= k < op.DispOffset() + 4)
        ensures moved[k] == code[k]
      {
        OneChangesDisplacement(code[..n], Plus(from, n), Plus(to, n), k);
        assert moved[..n][k] == code[..n][k];
      }
      DifferencesOfCons(op, Parse(code[n..]).value, code, moved);
    }
  }

  /**
   * The relocation contract: same instructions at the same offsets, each with the same
   * absolute operand address, and no byte changed but displacement bytes.
   */
  lemma KeepsMeaning(code: seq<Byte>, from: Word, to: Word, moved: seq<Byte>)
    requires |code| < TWO64 && from != to && Relocate(code, from, to) == Ok(moved)
    ensures Parse(code).Some? && Parse(moved).Some?
    ensures SameMeanings(Parse(code).value, from, Parse(moved).value, to)
    ensures OnlyDisplacementsDiffer(Parse(code).value, code, moved)
  {
    AllKeepMeaning(code, from, to, moved);
  }

  // ----- moving on, and back

  lemma OneMovesOn(bs: seq<Byte>, a: Word, b: Word, c: Word)
    requires Decode(bs).Some? && RelocateOne(bs, a, b).Ok?
    requires Decode(RelocateOne(bs, a, b).value).Some?
    ensures RelocateOne(RelocateOne(bs, a, b).value, b, c) == RelocateOne(bs, a, c)
  {
    var op := Decode(bs).value;
    if op.RipRelative() {
      var d := NewDisp(op.Target(a), b);
      OverwrittenDispDecodes(bs, d);
      NewDispReaches(op.Target(a), b);
      var d' := NewDisp(op.Target(a), c);
      if FitsInt32(d') {
        var k := op.DispOffset();
        assert OverwriteInt32(OverwriteInt32(bs, k, d), k, d') == OverwriteInt32(bs, k, d');
      }
    }
  }

  lemma {:induction false} AllMovesOn(code: seq<Byte>, a: Word, b: Word, c: Word, moved: seq<Byte>)
    requires |code| < TWO64 && RelocateAll(code, a, b) == Ok(moved)
    ensures RelocateAll(moved, b, c) == RelocateAll(code, a, c)
  {
    if code != [] {
      AllMovedFirst(code, a, b, moved);
      FirstKeepsMeaning(code, a, b, moved);
      var n := Decode(code).value.Length();
      OneMovesOn(code[..n], Plus(a, n), Plus(b, n), Plus(c, n));
      AllMovesOn(code[n..], Plus(a, n), Plus(b, n), Plus(c, n), moved[n..]);
    }
  }

  lemma OverwritingSame(bs: seq<Byte>, k: nat)
    requires k + 4 <= |bs|
    ensures OverwriteInt32(bs, k, Int32From(bs[k..k + 4])) == bs
  {
    Int32Rewrite(bs[k..k + 4]);
  }

  lemma OneStays(bs: seq<Byte>, a: Word, b: Word)
    requires Decode(bs).Some? && RelocateOne(bs, a, b).Ok?
    ensures RelocateOne(bs, a, a) == Ok(bs)
  {
    var op := Decode(bs).value;
    if op.RipRelative() {
      NewDispOfPlus(a, op.disp);
      OverwritingSame(bs, op.DispOffset());
    }
  }

  lemma {:induction false} AllStays(code: seq<Byte>, a: Word, b: Word, moved: seq<Byte>)
    requires |code| < TWO64 && RelocateAll(code, a, b) == Ok(moved)
    ensures RelocateAll(code, a, a) == Ok(code)
  {
    hide Decode, RelocateOne;
    if code != [] {
      AllMovedFirst(code, a, b, moved);
      var n := Decode(code).value.Length();
      OneStays(code[..n], Plus(a, n), Plus(b, n));
      AllStays(code[n..], Plus(a, n), Plus(b, n), moved[n..]);
      assert code[..n] + code[n..] == code;
    }
  }

  /**
   * Relocated code can be relocated again as if it had never moved: every further move
   * gives the same bytes, or the same error, as moving the original code there.
   */
  lemma MovesOn(code: seq<Byte>, a: Word, b: Word, c: Word, moved: seq<Byte>)
    requires |code| < TWO64 && Relocate(code, a, b) == Ok(moved)
    ensures Relocate(moved, b, c) == Relocate(code, a, c)
  {
    if a != b && b != c {
      AllMovesOn(code, a, b, c, moved);
      if a == c {
        AllStays(code, a, b, moved);
      }
    }
  }

  /** Moving code and moving it back gives the code back, byte for byte. */
  lemma MovesBack(code: seq<Byte>, a: Word, b: Word, moved: seq<Byte>)
    requires |code| < TWO64 && Relocate(code, a, b) == Ok(moved)
    ensures Relocate(moved, b, a) == Ok(code)
  {
    MovesOn(code, a, b, a, moved);
  }
}
