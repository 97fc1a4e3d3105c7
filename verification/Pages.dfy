/** `memory::alloc_page_near` and `MemPage`: a page for the trampolines, near the target. */
module Pages {
  import opened Words
  import opened Memories
  import opened Wrappers
  import opened Encoders

  function Taken(r: Option<Word>): set<Word> {
    if r.Some? then {r.value} else {}
  }

  predicate IsPowerOfTwo(n: nat) {
    n == 1 || (n > 0 && n % 2 == 0 && IsPowerOfTwo(n / 2))
  }

  /** What `page_size()` accepts, up to the largest pages that x86-64 has. */
  type PageSize = p: nat | 0x100 <= p <= 0x4000_0000 && IsPowerOfTwo(p) witness 0x100

  const MAX_SEARCH_DIST: nat := 1_000_000_000

  /** `a` is a whole number of pages of size `p`. */
  predicate Aligned(a: int, p: nat)
    requires p > 0
  {
    a % p == 0
  }

  lemma MultipleOf(p: nat, k: int)
    requires p > 0
    ensures Aligned(p * k, p)
  {
    var over := k - p * k / p;
    assert 0 <= p * over < p;
  }

  lemma MultiplesAdd(a: int, b: int, p: nat)
    requires p > 0 && Aligned(a, p) && Aligned(b, p)
    ensures Aligned(a + b, p) && Aligned(a - b, p)
  {
    var i, j := a / p, b / p;
    assert p * (i + j) == p * i + p * j && p * (i - j) == p * i - p * j;
    assert a == p * i && b == p * j;
    MultipleOf(p, i + j);
    MultipleOf(p, i - j);
  }

  lemma DoubledMultiple(a: nat, p: nat)
    requires p > 0 && Aligned(a, p)
    ensures Aligned(2 * a, 2 * p)
  {
    assert a == p * (a / p);
    assert 2 * a == (2 * p) * (a / p);
    MultipleOf(2 * p, a / p);
  }

  /** `a & ~(p - 1)`: the last multiple of `p` that is not above `a`. */
  function AlignDown(a: nat, p: nat): (r: nat)
    requires IsPowerOfTwo(p)
    ensures r <= a < r + p && Aligned(r, p)
    decreases p
  {
    if p == 1 then a
    else
      DoubledMultiple(AlignDown(a / 2, p / 2), p / 2);
      2 * AlignDown(a / 2, p / 2)
  }

  function Min(a: nat, b: nat): nat {
    if a <= b then a else b
  }

  function Pow2(e: nat): nat {
    if e == 0 then 1 else 2 * Pow2(e - 1)
  }

  lemma Pow2Positive(e: nat)
    ensures Pow2(e) >= 1
  {}

  /** How many pages further the next probe is, after probe number `iter`. */
  function StepFactor(iter: nat): (f: nat)
    ensures 1 <= f <= 100
  {
    Pow2Positive(Min(iter / 100, 16));
    Min(Pow2(Min(iter / 100, 16)), 100)
  }

  lemma {:induction false} PowersOfTwo(e: nat)
    ensures IsPowerOfTwo(Pow2(e))
  {
    if e > 0 {
      PowersOfTwo(e - 1);
      Pow2Positive(e - 1);
    }
  }

  lemma {:induction false} PowersGrow(d: nat, e: nat)
    requires d <= e
    ensures Pow2(d) <= Pow2(e)
    decreases e - d
  {
    if d < e {
      PowersGrow(d + 1, e);
    }
  }

  /** Every power of two from 2^8 to 2^30 is a page size. */
  lemma PageSizes(e: nat) returns (p: PageSize)
    requires 8 <= e <= 30
    ensures p == Pow2(e)
  {
    PowersOfTwo(e);
    PowersGrow(8, e);
    PowersGrow(e, 30);
    assert Pow2(8) == 0x100 && Pow2(30) == 0x4000_0000 by {
      assert Pow2(4) == 16 && Pow2(8) == 0x100 && Pow2(12) == 0x1000 && Pow2(16) == 0x1_0000;
      assert Pow2(20) == 0x10_0000 && Pow2(24) == 0x100_0000 && Pow2(28) == 0x1000_0000;
    }
    p := Pow2(e);
  }

  lemma MoreThanOnce(p: nat, f: nat)
    requires f >= 1
    ensures p * f >= p
  {}

  function StepSize(p: PageSize, iter: nat): (step: nat)
    ensures step >= p
  {
    MoreThanOnce(p, StepFactor(iter));
    p * StepFactor(iter)
  }

  /** A step is a whole number of pages, as `alloc_page_near` asserts. */
  lemma StepIsMultiple(p: PageSize, iter: nat)
    ensures Aligned(StepSize(p, iter), p)
  {
    hide Aligned, StepFactor, IsPowerOfTwo;
    MultipleOf(p, StepFactor(iter));
  }

  /** The distance of probe number `k` from the aligned base. */
  function ProbeDist(p: PageSize, k: nat): nat {
    if k == 0 then 0 else ProbeDist(p, k - 1) + StepSize(p, k - 1)
  }

  lemma {:induction false} DistIsMultiple(p: PageSize, k: nat)
    ensures Aligned(ProbeDist(p, k), p)
  {
    hide Aligned, StepSize, IsPowerOfTwo;
    if k == 0 {
      MultipleOf(p, 0);
    } else {
      DistIsMultiple(p, k - 1);
      StepIsMultiple(p, k - 1);
      MultiplesAdd(ProbeDist(p, k - 1), StepSize(p, k - 1), p);
    }
  }

  /** Both addresses of every probe near `near` are page-aligned. */
  lemma ProbesAreAligned(near: Word, p: PageSize, k: nat)
    ensures Aligned(AlignDown(near, p) - ProbeDist(p, k), p)
    ensures Aligned(AlignDown(near, p) + ProbeDist(p, k), p)
  {
    DistIsMultiple(p, k);
    MultiplesAdd(AlignDown(near, p), ProbeDist(p, k), p);
  }

  predicate Usable(free: set<Word>, a: Word) {
    a in free && a != 0
  }

  /** The page that a probe at distance `d` gets: below the base first, then above. */
  function PickAt(free: set<Word>, base: Word, d: nat): Option<Word> {
    if d <= base && Usable(free, base - d) then Some(base - d)
    else if base + d < TWO64 && Usable(free, base + d) then Some(base + d)
    else None
  }

  ghost predicate NoneBefore(free: set<Word>, base: Word, p: PageSize, k: nat) {
    forall j: nat {:trigger ProbeDist(p, j)} | j < k :: PickAt(free, base, ProbeDist(p, j)) == None
  }

  /** Whether page 0 is free makes no difference. */
  lemma SamePick(free: set<Word>, free': set<Word>, base: Word, d: nat)
    requires free - {0} <= free' <= free
    ensures PickAt(free', base, d) == PickAt(free, base, d)
  {}

  ghost predicate FoundBy(free: set<Word>, base: Word, p: PageSize, r: Option<Word>, k: nat) {
    && ProbeDist(p, k) < MAX_SEARCH_DIST
    && PickAt(free, base, ProbeDist(p, k)) == r
    && NoneBefore(free, base, p, k)
  }

  /** `r` is what the first successful probe gets, or `None` when no probe succeeds. */
  ghost predicate FirstFound(free: set<Word>, base: Word, p: PageSize, r: Option<Word>) {
    if r.Some? then
      exists k: nat :: FoundBy(free, base, p, r, k)
    else
      forall k: nat {:trigger ProbeDist(p, k)} | ProbeDist(p, k) < MAX_SEARCH_DIST ::
        PickAt(free, base, ProbeDist(p, k)) == None
  }

  function Distance(a: Word, b: Word): nat {
    if a >= b then a - b else b - a
  }

  lemma {:induction false} ProbesIncrease(p: PageSize, j: nat, k: nat)
    requires j < k
    ensures ProbeDist(p, j) < ProbeDist(p, k)
  {
    if j < k - 1 {
      ProbesIncrease(p, j, k - 1);
    }
  }

  lemma AllProbesBefore(p: PageSize, iter: nat)
    requires ProbeDist(p, iter) >= MAX_SEARCH_DIST
    ensures forall k: nat {:trigger ProbeDist(p, k)} | ProbeDist(p, k) < MAX_SEARCH_DIST :: k < iter
  {
    forall k: nat {:trigger ProbeDist(p, k)} | ProbeDist(p, k) < MAX_SEARCH_DIST ensures k < iter {
      if k > iter { ProbesIncrease(p, iter, k); }
    }
  }

  lemma {:induction false} FirstHundredProbes(p: PageSize, k: nat)
    requires k <= 100
    ensures ProbeDist(p, k) == k * p
  {
    if k > 0 {
      FirstHundredProbes(p, k - 1);
      assert StepFactor(k - 1) == 1;
      assert k * p == (k - 1) * p + p;
    }
  }

  /** The process: its memory, and the pages the system is willing to map. */
  class Process {
    var mem: Memory
    var free: set<Word>
    const pageSize: PageSize

    constructor (mem: Memory, free: set<Word>, pageSize: PageSize)
      ensures this.mem == mem && this.free == free && this.pageSize == pageSize
    {
      this.mem, this.free, this.pageSize := mem, free, pageSize;
    }

    /**
     * Maps exactly the page at `exact`, or returns null. Mapping page 0 returns null too. The
     * system maps at page boundaries only.
     */
    method TryAllocPageAt(exact: Word) returns (ptr: Word)
      requires Aligned(exact, pageSize)
      modifies this`free
      ensures free == old(free) - {exact}
      ensures ptr == if exact in old(free) then exact else 0
    {
      ptr := if exact in free then exact else 0;
      free := free - {exact};
    }

    method OverwriteExecutableMem(bytes: seq<Byte>, to: Word)
      requires |bytes| < TWO64
      modifies this`mem
      ensures mem == Write(old(mem), to, bytes)
    {
      mem := Write(mem, to, bytes);
    }

    /** One distance: the page below, then the page above, unless that wraps around. */
    method TryBothSides(alignedBase: Word, curSearchDist: nat) returns (r: Option<Word>)
      requires curSearchDist < MAX_SEARCH_DIST
      requires Aligned(alignedBase, pageSize) && Aligned(curSearchDist, pageSize)
      modifies this`free
      ensures r.Some? ==> Aligned(r.value, pageSize)
      ensures r == PickAt(old(free), alignedBase, curSearchDist)
      ensures old(free) - {0} - Taken(r) <= free <= old(free) - Taken(r)
    {
      MultiplesAdd(alignedBase, curSearchDist, pageSize);
      for isAbove := 0 to 2
        invariant old(free) - {0} <= free <= old(free)
        invariant isAbove > 0 && curSearchDist <= alignedBase ==> !Usable(old(free), alignedBase - curSearchDist)
        invariant isAbove > 1 && alignedBase + curSearchDist < TWO64 ==>
                    !Usable(old(free), alignedBase + curSearchDist)
      {
        var target: Word;
        if isAbove == 1 {
          target := Plus(alignedBase, curSearchDist);
          if target < alignedBase { continue; }
        } else {
          target := Minus(alignedBase, curSearchDist);
          if target > alignedBase { continue; }
        }
        var allocPtr := TryAllocPageAt(target);
        if allocPtr != 0 {
          return Some(allocPtr);
        }
      }
      return None;
    }

    /** `None` is a throw: a null address, or nothing free at any distance that is probed. */
    method AllocPageNear(near: Word) returns (r: Option<Word>)
      modifies this`free
      ensures near == 0 ==> r == None && free == old(free)
      ensures near != 0 ==> FirstFound(old(free), AlignDown(near, pageSize), pageSize, r)
      ensures r.Some? ==> Aligned(r.value, pageSize)
      ensures old(free) - {0} - Taken(r) <= free <= old(free) - Taken(r)
    {
      if near == 0 {
        return None;
      }
      var alignedBase := AlignDown(near, pageSize);
      var curSearchDist, iter: nat := 0, 0;
      while curSearchDist < MAX_SEARCH_DIST
        invariant curSearchDist == ProbeDist(pageSize, iter)
        invariant old(free) - {0} <= free <= old(free)
        invariant NoneBefore(old(free), alignedBase, pageSize, iter)
        decreases MAX_SEARCH_DIST - curSearchDist
      {
        SamePick(old(free), free, alignedBase, curSearchDist);
        DistIsMultiple(pageSize, iter);
        var page := TryBothSides(alignedBase, curSearchDist);
        if page.Some? {
          assert FoundBy(old(free), alignedBase, pageSize, page, iter);
          return page;
        }
        var curStepSize := StepSize(pageSize, iter);
        StepIsMultiple(pageSize, iter);
        assert curStepSize % pageSize == 0 && curStepSize >= pageSize;
        curSearchDist := curSearchDist + curStepSize;
        iter := iter + 1;
      }
      AllProbesBefore(pageSize, iter);
      return None;
    }
  }

  // ----- how near the page is

  /** A usable page that no usable page is nearer than. */
  ghost predicate Nearest(free: set<Word>, base: Word, a: Word) {
    && Usable(free, a)
    && forall b: Word | Usable(free, b) :: Distance(a, base) <= Distance(b, base)
  }

  predicate UsableAt(free: set<Word>, base: Word, a: Word, d: nat) {
    Usable(free, a) && Distance(a, base) == d
  }

  /** A probe at distance `d` gets the lower of the usable pages at that distance. */
  lemma PickSome(free: set<Word>, base: Word, d: nat)
    requires PickAt(free, base, d).Some?
    ensures var a := PickAt(free, base, d).value;
            Usable(free, a) && Distance(a, base) == d && forall b: Word | UsableAt(free, base, b, d) :: a <= b
  {}

  lemma PickNone(free: set<Word>, base: Word, d: nat, a: Word)
    requires PickAt(free, base, d) == None
    ensures !UsableAt(free, base, a, d)
  {}

  /** Some probe has distance `d`. */
  ghost predicate Probed(p: PageSize, d: nat) {
    d < MAX_SEARCH_DIST && exists k: nat :: ProbeDist(p, k) == d
  }

  lemma FoundIsProbed(free: set<Word>, base: Word, p: PageSize, r: Option<Word>)
    requires FirstFound(free, base, p, r) && r.Some?
    ensures Usable(free, r.value) && Probed(p, Distance(r.value, base))
    ensures forall b: Word | UsableAt(free, base, b, Distance(r.value, base)) :: r.value <= b
  {
    var k: nat :| FoundBy(free, base, p, r, k);
    PickSome(free, base, ProbeDist(p, k));
  }

  /** If the nearest page is at a probed distance, the search stops there. */
  lemma ProbedIsFound(free: set<Word>, base: Word, p: PageSize, r: Option<Word>, a: Word)
    requires FirstFound(free, base, p, r) && Nearest(free, base, a) && Probed(p, Distance(a, base))
    ensures r.Some? && Distance(r.value, base) == Distance(a, base)
  {
    var i: nat :| ProbeDist(p, i) == Distance(a, base);
    if r.None? {
      PickNone(free, base, ProbeDist(p, i), a);
      assert false;
    } else {
      var k: nat :| FoundBy(free, base, p, r, k);
      PickSome(free, base, ProbeDist(p, k));
      if i < k { PickNone(free, base, ProbeDist(p, i), a); }
      if k < i { ProbesIncrease(p, k, i); }
    }
  }

  lemma AsNearIsNearest(free: set<Word>, base: Word, a: Word, b: Word)
    requires Nearest(free, base, a) && Usable(free, b) && Distance(b, base) == Distance(a, base)
    ensures Nearest(free, base, b)
  {
    forall c: Word | Usable(free, c) ensures Distance(b, base) <= Distance(c, base) {
      assert Usable(free, c);
    }
  }

  lemma SameDistance(free: set<Word>, base: Word, a: Word, b: Word)
    requires Nearest(free, base, a) && Nearest(free, base, b)
    ensures Distance(a, base) == Distance(b, base)
  {
    assert Usable(free, a) && Usable(free, b);
  }

  /**
   * The page found is a nearest one exactly when the distance of the nearest usable page is
   * among the distances probed. Of two nearest pages the lower is taken.
   */
  lemma FindsNearestExactlyWhenProbed(free: set<Word>, base: Word, p: PageSize, r: Option<Word>, a: Word)
    requires FirstFound(free, base, p, r) && Nearest(free, base, a)
    ensures r.Some? && Nearest(free, base, r.value) <==> Probed(p, Distance(a, base))
    ensures r.Some? && Nearest(free, base, r.value) ==> forall b: Word | Nearest(free, base, b) :: r.value <= b
  {
    hide ProbeDist, FirstFound, Probed, AlignDown;
    if r.Some? {
      FoundIsProbed(free, base, p, r);
      if Nearest(free, base, r.value) {
        SameDistance(free, base, r.value, a);
        forall b: Word | Nearest(free, base, b) ensures r.value <= b {
          SameDistance(free, base, r.value, b);
          assert UsableAt(free, base, b, Distance(r.value, base));
        }
      }
    }
    if Probed(p, Distance(a, base)) {
      ProbedIsFound(free, base, p, r, a);
      AsNearIsNearest(free, base, a, r.value);
    }
  }

  /** A nearest page that is at most 100 pages away is found. */
  lemma FindsNearestWithinHundredPages(free: set<Word>, base: Word, p: PageSize, r: Option<Word>, a: Word, pages: nat)
    requires FirstFound(free, base, p, r) && Nearest(free, base, a)
    requires pages <= 100 && Distance(a, base) == pages * p < MAX_SEARCH_DIST
    ensures r.Some? && Nearest(free, base, r.value)
  {
    FirstHundredProbes(p, pages);
    FindsNearestExactlyWhenProbed(free, base, p, r, a);
  }

  lemma Page101IsNotProbed(p: PageSize)
    ensures !Probed(p, 101 * p)
  {
    FirstHundredProbes(p, 100);
    assert Pow2(1) == 2 && StepFactor(100) == 2 && StepSize(p, 100) == 2 * p;
    assert ProbeDist(p, 101) == 102 * p;
    if k: nat :| ProbeDist(p, k) == 101 * p {
      if k < 100 { ProbesIncrease(p, k, 100); }
      if k > 101 { ProbesIncrease(p, 101, k); }
    }
  }

  /** The search skips pages: with only the page 101 pages above the base free, it throws. */
  lemma SkipsPage101(base: Word, p: PageSize, r: Option<Word>)
    requires base + 101 * p < TWO64
    requires FirstFound({base + 101 * p}, base, p, r)
    ensures r == None
  {
    if r.Some? {
      FoundIsProbed({base + 101 * p}, base, p, r);
      Page101IsNotProbed(p);
      assert false;
    }
  }

  // ----- reach

  /** The page is less than 1 GB from the page of the address it was wanted near. */
  ghost predicate Near(page: Word, near: Word, p: PageSize) {
    Distance(page, AlignDown(near, p)) < MAX_SEARCH_DIST
  }

  lemma FoundIsNear(free: set<Word>, near: Word, p: PageSize, r: Option<Word>)
    requires FirstFound(free, AlignDown(near, p), p, r) && r.Some?
    ensures Near(r.value, near, p) && Usable(free, r.value)
  {
    FoundIsProbed(free, AlignDown(near, p), p, r);
  }

  /** From `near`, everything in the first 256 bytes of the page is within a `jmp rel32`. */
  lemma NearIsReachable(page: Word, near: Word, p: PageSize, offset: nat)
    requires Near(page, near, p) && offset <= 0x100
    ensures RelJmp(near, Plus(page, offset)).Some?
  {
    assert 0 <= near - AlignDown(near, p) < p;
  }

  class MemPage {
    const size: nat
    const memory: Word
    var writeOffset: nat

    constructor (size: nat, memory: Word)
      ensures this.size == size && this.memory == memory && writeOffset == 0
    {
      this.size, this.memory, this.writeOffset := size, memory, 0;
    }

    function NextWritePtr(): Word
      requires writeOffset <= size < TWO64
      reads this
    {
      Plus(memory, writeOffset)
    }

    /** `None` is a throw: the bytes do not fit what is left of the page. */
    method WriteBytes(proc: Process, bytes: seq<Byte>) returns (at: Option<Word>)
      requires writeOffset <= size < TWO64
      modifies proc`mem, this`writeOffset
      ensures at.None? <==> old(writeOffset) + |bytes| > size
      ensures at.None? ==> proc.mem == old(proc.mem) && writeOffset == old(writeOffset)
      ensures at.Some? ==>
                && at.value == old(NextWritePtr())
                && proc.mem == Write(old(proc.mem), at.value, bytes)
                && writeOffset == old(writeOffset) + |bytes| <= size
    {
      if writeOffset + |bytes| > size {
        return None;
      }
      var writeTarget := Plus(memory, writeOffset);
      proc.mem := Write(proc.mem, writeTarget, bytes);
      writeOffset := writeOffset + |bytes|;
      return Some(writeTarget);
    }
  }
}
