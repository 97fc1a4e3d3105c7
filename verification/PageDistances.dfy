/** At which distances `memory::alloc_page_near` looks for a page, in plain numbers. */
module PageDistances {
  import opened Words
  import opened Wrappers
  import opened Pages

  /** `q` is reached from `start` in steps of `step`. */
  predicate InSteps(q: nat, start: nat, step: nat)
    requires step > 0
  {
    (q - start) % step == 0
  }

  /**
   * The distances probed, counted in pages: every one up to 100, then every second up to 300,
   * every fourth up to 700, and so on; from 12700 on every hundredth.
   */
  predicate SearchedPages(q: nat) {
    if q <= 100 then true
    else if q <= 300 then InSteps(q, 100, 2)
    else if q <= 700 then InSteps(q, 300, 4)
    else if q <= 1500 then InSteps(q, 700, 8)
    else if q <= 3100 then InSteps(q, 1500, 16)
    else if q <= 6300 then InSteps(q, 3100, 32)
    else if q <= 12700 then InSteps(q, 6300, 64)
    else InSteps(q, 12700, 100)
  }

  /** The distance `d` in bytes is one that is probed with pages of size `p`. */
  ghost predicate Searched(p: PageSize, d: nat) {
    d < 1_000_000_000 && exists q: nat :: SearchedPages(q) && d == p * q
  }

  /** The distance in pages of probe number `k`. */
  function PagesAt(k: nat): nat {
    if k <= 100 then k
    else if k <= 200 then 100 + 2 * (k - 100)
    else if k <= 300 then 300 + 4 * (k - 200)
    else if k <= 400 then 700 + 8 * (k - 300)
    else if k <= 500 then 1500 + 16 * (k - 400)
    else if k <= 600 then 3100 + 32 * (k - 500)
    else if k <= 700 then 6300 + 64 * (k - 600)
    else 12700 + 100 * (k - 700)
  }

  lemma {:induction false} BigPowers(e: nat)
    requires e >= 7
    ensures Pow2(e) >= 128
  {
    if e == 7 {
      assert Pow2(3) == 8 && Pow2(5) == 32;
    } else {
      BigPowers(e - 1);
    }
  }

  lemma SmallPowers()
    ensures Pow2(0) == 1 && Pow2(1) == 2 && Pow2(2) == 4 && Pow2(3) == 8
    ensures Pow2(4) == 16 && Pow2(5) == 32 && Pow2(6) == 64
  {
    assert Pow2(2) == 4;
    assert Pow2(4) == 16;
  }

  lemma StepsBetween(k: nat)
    ensures PagesAt(k + 1) == PagesAt(k) + StepFactor(k)
  {
    SmallPowers();
    hide Pow2;
    if k >= 700 {
      BigPowers(Min(k / 100, 16));
    }
  }

  lemma NoPagesAtFirst()
    ensures PagesAt(0) == 0
  {}

  lemma {:induction false} DistAt(p: PageSize, k: nat)
    ensures ProbeDist(p, k) == p * PagesAt(k)
  {
    hide PagesAt, StepFactor, IsPowerOfTwo;
    if k == 0 {
      NoPagesAtFirst();
    } else {
      DistAt(p, k - 1);
      StepsBetween(k - 1);
      assert p * (PagesAt(k - 1) + StepFactor(k - 1)) == p * PagesAt(k - 1) + p * StepFactor(k - 1);
    }
  }

  lemma StepsFrom(start: nat, step: nat, j: nat)
    requires step > 0
    ensures InSteps(start + step * j, start, step)
  {
    MultipleOf(step, j);
  }

  lemma ProbesAreSearched(k: nat)
    ensures SearchedPages(PagesAt(k))
  {
    hide InSteps;
    if 100 < k <= 200 { StepsFrom(100, 2, k - 100); }
    if 200 < k <= 300 { StepsFrom(300, 4, k - 200); }
    if 300 < k <= 400 { StepsFrom(700, 8, k - 300); }
    if 400 < k <= 500 { StepsFrom(1500, 16, k - 400); }
    if 500 < k <= 600 { StepsFrom(3100, 32, k - 500); }
    if 600 < k <= 700 { StepsFrom(6300, 64, k - 600); }
    if 700 < k { StepsFrom(12700, 100, k - 700); }
  }

  lemma StepsTo(q: nat, start: nat, step: nat) returns (j: nat)
    requires step > 0 && q >= start && InSteps(q, start, step)
    ensures q == start + step * j
  {
    j := (q - start) / step;
  }

  lemma SearchedIsAProbe(q: nat) returns (k: nat)
    requires SearchedPages(q)
    ensures PagesAt(k) == q
  {
    hide InSteps;
    var j: nat;
    if q <= 100 { k := q; }
    else if q <= 300 { j := StepsTo(q, 100, 2); k := 100 + j; }
    else if q <= 700 { j := StepsTo(q, 300, 4); k := 200 + j; }
    else if q <= 1500 { j := StepsTo(q, 700, 8); k := 300 + j; }
    else if q <= 3100 { j := StepsTo(q, 1500, 16); k := 400 + j; }
    else if q <= 6300 { j := StepsTo(q, 3100, 32); k := 500 + j; }
    else if q <= 12700 { j := StepsTo(q, 6300, 64); k := 600 + j; }
    else { j := StepsTo(q, 12700, 100); k := 700 + j; }
  }

  /** The loop probes exactly the distances above. */
  lemma ProbedExactlyWhen(p: PageSize, d: nat)
    ensures Probed(p, d) <==> Searched(p, d)
  {
    hide ProbeDist, PagesAt, SearchedPages, IsPowerOfTwo;
    if Probed(p, d) {
      var k: nat :| ProbeDist(p, k) == d;
      DistAt(p, k);
      ProbesAreSearched(k);
      assert d == p * PagesAt(k);
    }
    if Searched(p, d) {
      var q: nat :| SearchedPages(q) && d == p * q;
      var k := SearchedIsAProbe(q);
      DistAt(p, k);
    }
  }

  /** `a` is usable and at a distance that is probed. */
  ghost predicate Findable(free: set<Word>, base: Word, p: PageSize, a: Word) {
    Usable(free, a) && Searched(p, Distance(a, base))
  }

  /** `a` comes before `b`: it is nearer to the base, or as near and below. */
  predicate Before(base: Word, a: Word, b: Word) {
    Distance(a, base) < Distance(b, base) || (Distance(a, base) == Distance(b, base) && a <= b)
  }

  lemma FoundComesFirst(free: set<Word>, base: Word, p: PageSize, r: Option<Word>, b: Word)
    requires FirstFound(free, base, p, r) && Findable(free, base, p, b)
    ensures r.Some? && Before(base, r.value, b)
  {
    hide ProbeDist, Searched, IsPowerOfTwo;
    ProbedExactlyWhen(p, Distance(b, base));
    var i: nat :| ProbeDist(p, i) == Distance(b, base);
    if r.None? {
      PickNone(free, base, ProbeDist(p, i), b);
      assert false;
    } else {
      var k: nat :| FoundBy(free, base, p, r, k);
      PickSome(free, base, ProbeDist(p, k));
      if i < k {
        PickNone(free, base, ProbeDist(p, i), b);
        assert false;
      } else if k < i {
        ProbesIncrease(p, k, i);
      } else {
        assert UsableAt(free, base, b, ProbeDist(p, k));
      }
    }
  }

  /**
   * The search succeeds exactly when some usable page lies at one of these distances below
   * 1,000,000,000 bytes; it returns the first such page, and of two at the same distance the lower.
   */
  lemma SearchFindsExactly(free: set<Word>, base: Word, p: PageSize, r: Option<Word>)
    requires FirstFound(free, base, p, r)
    ensures r.Some? <==> exists a: Word :: Findable(free, base, p, a)
    ensures r.Some? ==> Findable(free, base, p, r.value)
    ensures r.Some? ==> forall b: Word | Findable(free, base, p, b) :: Before(base, r.value, b)
  {
    hide FirstFound, Searched;
    if r.Some? {
      FoundIsProbed(free, base, p, r);
      ProbedExactlyWhen(p, Distance(r.value, base));
      assert Findable(free, base, p, r.value);
    }
    forall b: Word | Findable(free, base, p, b) ensures r.Some? && Before(base, r.value, b) {
      FoundComesFirst(free, base, p, r, b);
    }
  }

  /** A lone free page is found exactly when it lies at one of these distances. */
  lemma LonePageExactlyWhen(a: Word, base: Word, p: PageSize, r: Option<Word>)
    requires a != 0 && FirstFound({a}, base, p, r)
    ensures r == if Searched(p, Distance(a, base)) then Some(a) else None
  {
    hide FirstFound, Searched;
    SearchFindsExactly({a}, base, p, r);
    assert Findable({a}, base, p, a) <==> Searched(p, Distance(a, base));
  }
}
