/** `memory::signed_pattern_scan_region`: a scan that hops from candidate to candidate. */
module Scans {
  import opened Words
  import opened Memories
  import opened Wrappers

  const WILDCARD := -1

  /** An offset into a region: no region is 2^63 bytes long. */
  type Offset = o: int | 0 <= o < 0x8000_0000_0000_0000

  /** A byte, or the wildcard. */
  type PatternByte = b: int | -1 <= b < 256

  /** The byte at offset `o` from `base`; the memory goes on behind the region. */
  function ByteAt(m: Memory, base: Word, o: nat): Byte
    requires o < TWO64
  {
    m(Plus(base, o))
  }

  predicate MatchesAt(m: Memory, base: Word, pattern: seq<PatternByte>, o: nat)
    requires o + |pattern| < TWO64
  {
    forall i: nat {:trigger pattern[i]} | i < |pattern| ::
      pattern[i] == WILDCARD || pattern[i] == ByteAt(m, base, o + i)
  }

  // ----- the naive scan

  /** All matches that start from `lo` up to `hi`, tried one after the other. */
  function NaiveScan(m: Memory, base: Word, pattern: seq<PatternByte>, lo: nat, hi: nat): seq<Offset>
    requires hi <= TWO63 && hi + |pattern| < TWO64
    decreases hi - lo
  {
    if lo >= hi then []
    else (if MatchesAt(m, base, pattern, lo) then [lo] else []) + NaiveScan(m, base, pattern, lo + 1, hi)
  }

  predicate Increasing(s: seq<Offset>) {
    forall i: nat, j: nat {:trigger s[i], s[j]} | i < j < |s| :: s[i] < s[j]
  }

  lemma {:induction false} NaiveFindsAll(m: Memory, base: Word, pattern: seq<PatternByte>, lo: nat, hi: nat)
    requires hi <= TWO63 && hi + |pattern| < TWO64
    ensures Increasing(NaiveScan(m, base, pattern, lo, hi))
    ensures forall o: nat :: o in NaiveScan(m, base, pattern, lo, hi)
                        <==> lo <= o < hi && MatchesAt(m, base, pattern, o)
    decreases hi - lo
  {
    if lo < hi {
      NaiveFindsAll(m, base, pattern, lo + 1, hi);
      var rest := NaiveScan(m, base, pattern, lo + 1, hi);
      assert forall i: nat | i < |rest| :: rest[i] in rest;
    }
  }

  // ----- what the hopping scan finds

  predicate NoCandidate(m: Memory, base: Word, b: Byte, c: nat, d: nat)
    requires d < TWO64
  {
    forall o: nat {:trigger ByteAt(m, base, o)} | c <= o < d :: ByteAt(m, base, o) != b
  }

  /** The first offset from `lo` up to `hi` that holds `b`. */
  function FirstByte(m: Memory, base: Word, b: Byte, lo: nat, hi: nat): (r: Option<nat>)
    requires hi < TWO64
    ensures r.Some? ==> lo <= r.value < hi && ByteAt(m, base, r.value) == b
    ensures NoCandidate(m, base, b, lo, if r.Some? then r.value else hi)
    decreases hi - lo
  {
    if lo >= hi then None
    else if ByteAt(m, base, lo) == b then Some(lo)
    else FirstByte(m, base, b, lo + 1, hi)
  }

  /** `lead` is where the first byte of the pattern is. */
  predicate Leads(pattern: seq<PatternByte>, lead: nat) {
    && lead < |pattern| && pattern[lead] != WILDCARD
    && forall i: nat {:trigger pattern[i]} | i < lead :: pattern[i] == WILDCARD
  }

  /** A pattern with a byte in it, no longer than the region. */
  predicate Scannable(size: nat, pattern: seq<PatternByte>, lead: nat) {
    |pattern| <= size < TWO63 && Leads(pattern, lead)
  }

  /** The last offset at which the first byte of a match inside the region can be. */
  function LastCandidate(size: nat, pattern: seq<PatternByte>, lead: nat): (n: nat)
    requires Scannable(size, pattern, lead)
    ensures lead <= n < size
  {
    size - |pattern| + lead
  }

  /**
   * At most one match that crosses the end of the region: the one at the first candidate byte
   * behind the last possible position, unless there is a candidate at that very position.
   */
  function Straddler(m: Memory, base: Word, size: nat, pattern: seq<PatternByte>, lead: nat): (r: seq<Offset>)
    requires Scannable(size, pattern, lead)
    ensures |r| <= 1
    ensures r != [] ==> size < r[0] + |pattern| && r[0] < size && MatchesAt(m, base, pattern, r[0])
  {
    var last := LastCandidate(size, pattern, lead);
    if ByteAt(m, base, last) == pattern[lead] then []
    else match FirstByte(m, base, pattern[lead], last + 1, size)
      case None => []
      case Some(q) => if MatchesAt(m, base, pattern, q - lead) then [q - lead] else []
  }

  /** What is still to be found when the search for the first byte continues at `cur`. */
  function ScanFrom(m: Memory, base: Word, size: nat, pattern: seq<PatternByte>, lead: nat, cur: nat): seq<Offset>
    requires Scannable(size, pattern, lead) && lead <= cur
  {
    if cur > LastCandidate(size, pattern, lead) then []
    else NaiveScan(m, base, pattern, cur - lead, size - |pattern| + 1) + Straddler(m, base, size, pattern, lead)
  }

  function Addresses(base: Word, offsets: seq<Offset>): (r: seq<Word>)
    ensures |r| == |offsets|
    ensures forall i: nat {:trigger r[i]} | i < |r| :: r[i] == Plus(base, offsets[i])
  {
    if offsets == [] then []
    else Addresses(base, offsets[..|offsets| - 1]) + [Plus(base, offsets[|offsets| - 1])]
  }

  /** What a candidate for the first byte, at `q`, contributes. */
  function Here(m: Memory, base: Word, pattern: seq<PatternByte>, lead: nat, q: nat): (r: seq<Offset>)
    requires lead <= q < TWO63 && q + |pattern| < TWO64
    ensures MatchesAt(m, base, pattern, q - lead) ==> r == [q - lead]
    ensures !MatchesAt(m, base, pattern, q - lead) ==> r == []
  {
    if MatchesAt(m, base, pattern, q - lead) then [q - lead] else []
  }

  // ----- hopping over positions without a candidate

  lemma {:induction false} NothingBetween(m: Memory, base: Word, pattern: seq<PatternByte>, lead: nat,
                                           c: nat, d: nat, end: nat)
    requires Leads(pattern, lead) && end <= TWO63 && end + |pattern| < TWO64 && lead <= c <= d <= end + lead
    requires NoCandidate(m, base, pattern[lead], c, d)
    ensures NaiveScan(m, base, pattern, c - lead, end) == NaiveScan(m, base, pattern, d - lead, end)
    decreases d - c
  {
    if c < d {
      assert ByteAt(m, base, c - lead + lead) != pattern[lead];
      assert !MatchesAt(m, base, pattern, c - lead);
      hide MatchesAt;
      NothingBetween(m, base, pattern, lead, c + 1, d, end);
    }
  }

  lemma HopInside(m: Memory, base: Word, size: nat, pattern: seq<PatternByte>, lead: nat, cur: nat, q: nat)
    requires Scannable(size, pattern, lead) && lead <= cur <= q <= LastCandidate(size, pattern, lead)
    requires NoCandidate(m, base, pattern[lead], cur, q) && ByteAt(m, base, q) == pattern[lead]
    ensures ScanFrom(m, base, size, pattern, lead, cur)
         == Here(m, base, pattern, lead, q) + ScanFrom(m, base, size, pattern, lead, q + 1)
  {
    hide ByteAt, MatchesAt, Leads, FirstByte, NoCandidate;
    var end := size - |pattern| + 1;
    NothingBetween(m, base, pattern, lead, cur, q, end);
    var rest := NaiveScan(m, base, pattern, q - lead + 1, end);
    assert NaiveScan(m, base, pattern, q - lead, end)
        == Here(m, base, pattern, lead, q) + rest;
    if q == LastCandidate(size, pattern, lead) {
      assert Straddler(m, base, size, pattern, lead) == [] && rest == [];
    }
    hide Straddler, NaiveScan;
  }

  lemma HopOut(m: Memory, base: Word, size: nat, pattern: seq<PatternByte>, lead: nat, cur: nat)
    requires Scannable(size, pattern, lead) && lead <= cur <= LastCandidate(size, pattern, lead)
    requires NoCandidate(m, base, pattern[lead], cur, LastCandidate(size, pattern, lead) + 1)
    ensures ScanFrom(m, base, size, pattern, lead, cur) == Straddler(m, base, size, pattern, lead)
  {
    hide Straddler, MatchesAt, ByteAt, Leads, NoCandidate;
    var end := size - |pattern| + 1;
    NothingBetween(m, base, pattern, lead, cur, end + lead, end);
    assert NaiveScan(m, base, pattern, end, end) == [];
  }

  lemma ScanEnds(m: Memory, base: Word, size: nat, pattern: seq<PatternByte>, lead: nat, cur: nat)
    requires Scannable(size, pattern, lead) && cur > LastCandidate(size, pattern, lead)
    ensures ScanFrom(m, base, size, pattern, lead, cur) == []
  {}

  lemma StraddlerIsFirst(m: Memory, base: Word, size: nat, pattern: seq<PatternByte>, lead: nat)
    requires Scannable(size, pattern, lead)
    requires ByteAt(m, base, LastCandidate(size, pattern, lead)) != pattern[lead]
    ensures var found := FirstByte(m, base, pattern[lead], LastCandidate(size, pattern, lead) + 1, size);
            Straddler(m, base, size, pattern, lead)
            == if found.Some? then Here(m, base, pattern, lead, found.value) else []
  {
    hide MatchesAt, FirstByte, ByteAt;
  }

  lemma NothingMore(s: seq<Offset>)
    ensures s + [] == s
  {}

  lemma {:induction false} SameFirst(m: Memory, base: Word, b: Byte, lo: nat, mid: nat, hi: nat)
    requires lo <= mid <= hi < TWO64 && NoCandidate(m, base, b, lo, mid)
    ensures FirstByte(m, base, b, lo, hi) == FirstByte(m, base, b, mid, hi)
    decreases mid - lo
  {
    if lo < mid {
      assert ByteAt(m, base, lo) != b;
      SameFirst(m, base, b, lo + 1, mid, hi);
    }
  }

  /** One hop, from `cur` to the next candidate `q`. */
  lemma Hop(m: Memory, base: Word, size: nat, pattern: seq<PatternByte>, lead: nat, cur: nat, next: Option<nat>)
    requires Scannable(size, pattern, lead) && lead <= cur <= LastCandidate(size, pattern, lead)
    requires next == FirstByte(m, base, pattern[lead], cur, size)
    ensures next.None? ==> ScanFrom(m, base, size, pattern, lead, cur) == []
    ensures next.Some? ==>
              ScanFrom(m, base, size, pattern, lead, cur)
              == Here(m, base, pattern, lead, next.value) + ScanFrom(m, base, size, pattern, lead, next.value + 1)
  {
    hide FirstByte, ScanFrom, Straddler, Here, NaiveScan, MatchesAt;
    var last := LastCandidate(size, pattern, lead);
    if next.Some? && next.value <= last {
      HopInside(m, base, size, pattern, lead, cur, next.value);
    } else {
      assert NoCandidate(m, base, pattern[lead], cur, last + 1);
      assert ByteAt(m, base, last) != pattern[lead];
      HopOut(m, base, size, pattern, lead, cur);
      SameFirst(m, base, pattern[lead], cur, last + 1, size);
      StraddlerIsFirst(m, base, size, pattern, lead);
      if next.Some? {
        ScanEnds(m, base, size, pattern, lead, next.value + 1);
        NothingMore(Here(m, base, pattern, lead, next.value));
      }
    }
  }

  /** `memchr`: the first of the `n` bytes at `start` that is `b`. */
  method Memchr(m: Memory, start: Word, b: Byte, n: nat) returns (r: Option<nat>)
    requires n < TWO64
    ensures r == FirstByte(m, start, b, 0, n)
  {
    for i := 0 to n
      invariant FirstByte(m, start, b, 0, n) == FirstByte(m, start, b, i, n)
    {
      if m(Plus(start, i)) == b {
        return Some(i);
      }
    }
    return None;
  }

  lemma {:induction false} FirstByteShifts(m: Memory, base: Word, cur: nat, b: Byte, lo: nat, n: nat)
    requires cur + n < TWO64 && lo <= n
    ensures FirstByte(m, base, b, cur + lo, cur + n).Some? <==> FirstByte(m, Plus(base, cur), b, lo, n).Some?
    ensures FirstByte(m, base, b, cur + lo, cur + n).Some? ==>
              FirstByte(m, base, b, cur + lo, cur + n).value == cur + FirstByte(m, Plus(base, cur), b, lo, n).value
    decreases n - lo
  {
    if lo < n {
      PlusOfPlus(base, cur, lo);
      FirstByteShifts(m, base, cur, b, lo + 1, n);
    }
  }

  /** The bytes behind a candidate for the first byte of the pattern match too. */
  predicate RestMatches(m: Memory, candidate: Word, pattern: seq<PatternByte>, lead: nat)
    requires |pattern| < TWO64
  {
    forall i: nat {:trigger pattern[i]} | lead < i < |pattern| ::
      pattern[i] == WILDCARD || pattern[i] == m(Plus(candidate, i - lead))
  }

  method CheckRest(m: Memory, candidate: Word, pattern: seq<PatternByte>, lead: nat) returns (matches: bool)
    requires lead < |pattern| < TWO64
    ensures matches <==> RestMatches(m, candidate, pattern, lead)
  {
    matches := true;
    var i, j := lead + 1, 1;
    while i < |pattern|
      invariant lead < i <= |pattern| && j == i - lead
      invariant forall k: nat {:trigger pattern[k]} | lead < k < i ::
                  pattern[k] == WILDCARD || pattern[k] == m(Plus(candidate, k - lead))
    {
      if pattern[i] != WILDCARD && pattern[i] != m(Plus(candidate, j)) {
        return false;
      }
      i, j := i + 1, j + 1;
    }
  }

  lemma CheckedMatches(m: Memory, base: Word, pattern: seq<PatternByte>, q: nat, lead: nat)
    requires Leads(pattern, lead) && lead <= q && q + |pattern| < TWO64
    requires ByteAt(m, base, q) == pattern[lead]
    ensures MatchesAt(m, base, pattern, q - lead) <==> RestMatches(m, Plus(base, q), pattern, lead)
  {
    if RestMatches(m, Plus(base, q), pattern, lead) {
      forall i: nat {:trigger pattern[i]} | i < |pattern|
        ensures pattern[i] == WILDCARD || pattern[i] == ByteAt(m, base, q - lead + i)
      {
        if i > lead { PlusOfPlus(base, q, i - lead); }
      }
    }
    if MatchesAt(m, base, pattern, q - lead) {
      forall i: nat {:trigger pattern[i]} | lead < i < |pattern|
        ensures pattern[i] == WILDCARD || pattern[i] == m(Plus(Plus(base, q), i - lead))
      {
        PlusOfPlus(base, q, i - lead);
      }
    }
  }

  /** `results` are the addresses of everything there is to be found. */
  predicate Found(m: Memory, base: Word, size: nat, pattern: seq<PatternByte>, lead: nat, results: seq<Word>)
    requires Scannable(size, pattern, lead)
  {
    results == Addresses(base, ScanFrom(m, base, size, pattern, lead, lead))
  }

  /** One call's arguments, and where the first byte of the pattern is. */
  datatype Search = Search(mem: Memory, base: Word, size: nat, pattern: seq<PatternByte>, lead: nat)

  predicate Valid(s: Search) {
    Scannable(s.size, s.pattern, s.lead)
  }

  /** What was found, and what is still to be found from `cur` on, is what there is to be found. */
  ghost predicate FoundSoFar(s: Search, cur: nat, results: seq<Word>)
    requires Valid(s) && s.lead <= cur
  {
    results + Addresses(s.base, ScanFrom(s.mem, s.base, s.size, s.pattern, s.lead, cur))
    == Addresses(s.base, ScanFrom(s.mem, s.base, s.size, s.pattern, s.lead, s.lead))
  }

  /** The loop invariant: the scan stands at `cur`, somewhere in the region. */
  ghost predicate Progress(s: Search, cur: nat, results: seq<Word>) {
    Valid(s) && s.lead <= cur <= s.size && FoundSoFar(s, cur, results)
  }

  lemma FoundAtStart(s: Search)
    requires Valid(s)
    ensures Progress(s, s.lead, [])
  {}

  /** Nothing is left to be found behind the last candidate. */
  lemma FoundAtEnd(s: Search, cur: nat, results: seq<Word>)
    requires Progress(s, cur, results) && s.size - cur < |s.pattern| - s.lead
    ensures Found(s.mem, s.base, s.size, s.pattern, s.lead, results)
  {}

  lemma FoundAll(s: Search, cur: nat, results: seq<Word>)
    requires Valid(s) && s.lead <= cur <= LastCandidate(s.size, s.pattern, s.lead) && FoundSoFar(s, cur, results)
    requires FirstByte(s.mem, s.base, s.pattern[s.lead], cur, s.size) == None
    ensures Found(s.mem, s.base, s.size, s.pattern, s.lead, results)
  {
    hide FirstByte, Leads;
    Hop(s.mem, s.base, s.size, s.pattern, s.lead, cur, None);
  }

  /** What the candidate `q` adds to the results. */
  function Hits(m: Memory, base: Word, pattern: seq<PatternByte>, lead: nat, q: nat): seq<Word>
    requires lead <= q < TWO63 && q + |pattern| < TWO64
  {
    if MatchesAt(m, base, pattern, q - lead) then [Plus(base, q - lead)] else []
  }

  lemma Regroup(a: seq<Word>, b: seq<Word>, c: seq<Word>)
    ensures a + (b + c) == a + b + c
  {}

  lemma {:induction false} AddressesAppend(base: Word, xs: seq<Offset>, ys: seq<Offset>)
    ensures Addresses(base, xs + ys) == Addresses(base, xs) + Addresses(base, ys)
  {
    assert forall i: nat {:trigger (xs + ys)[i]} | i < |xs| + |ys| ::
        (xs + ys)[i] == if i < |xs| then xs[i] else ys[i - |xs|];
  }

  lemma FoundNext(s: Search, cur: nat, q: nat, results: seq<Word>)
    requires Valid(s) && s.lead <= cur <= LastCandidate(s.size, s.pattern, s.lead) && FoundSoFar(s, cur, results)
    requires FirstByte(s.mem, s.base, s.pattern[s.lead], cur, s.size) == Some(q)
    ensures FoundSoFar(s, q + 1, results + Hits(s.mem, s.base, s.pattern, s.lead, q))
  {
    hide ScanFrom, FirstByte, MatchesAt, Leads, Here;
    Hop(s.mem, s.base, s.size, s.pattern, s.lead, cur, Some(q));
    var here := Here(s.mem, s.base, s.pattern, s.lead, q);
    var rest := ScanFrom(s.mem, s.base, s.size, s.pattern, s.lead, q + 1);
    assert Addresses(s.base, here) == Hits(s.mem, s.base, s.pattern, s.lead, q);
    hide Addresses, Hits;
    AddressesAppend(s.base, here, rest);
    Regroup(results, Hits(s.mem, s.base, s.pattern, s.lead, q), Addresses(s.base, rest));
  }

  /** The next place from `base + cur` on, in the `remaining` bytes of the region, that holds `b`. */
  method NextCandidate(m: Memory, base: Word, cur: nat, b: Byte, remaining: nat, ghost size: nat)
    returns (q: Option<nat>)
    requires cur + remaining == size < TWO64
    ensures q == FirstByte(m, base, b, cur, size)
  {
    FirstByteShifts(m, base, cur, b, 0, remaining);
    var next := Memchr(m, Plus(base, cur), b, remaining);
    q := if next.None? then None else Some(cur + next.value);
  }

  /** The address to report for the candidate `q`, if the rest of the pattern matches. */
  method CheckCandidate(m: Memory, base: Word, q: nat, pattern: seq<PatternByte>, leading: nat)
    returns (hits: seq<Word>)
    requires Leads(pattern, leading) && leading <= q < TWO63 && q + |pattern| < TWO64
    requires ByteAt(m, base, q) == pattern[leading]
    ensures hits == Hits(m, base, pattern, leading, q)
  {
    var matches := CheckRest(m, Plus(base, q), pattern, leading);
    CheckedMatches(m, base, pattern, q, leading);
    hits := if matches then [Plus(base, q - leading)] else [];
  }

  /** One round of the loop: the next candidate and what it adds, or `None` if there is none. */
  method NextHits(m: Memory, base: Word, pattern: seq<PatternByte>, leading: nat, cur: nat, remaining: nat,
                  ghost s: Search, ghost results: seq<Word>)
    returns (q: Option<nat>, hits: seq<Word>)
    requires s == Search(m, base, cur + remaining, pattern, leading) && Progress(s, cur, results)
    requires remaining >= |pattern| - leading
    ensures q.None? ==> Found(m, base, s.size, pattern, leading, results)
    ensures q.Some? ==> cur <= q.value < s.size && Progress(s, q.value + 1, results + hits)
  {
    hide FoundSoFar, Found, FirstByte, NoCandidate, Hits;
    q := NextCandidate(m, base, cur, pattern[leading], remaining, s.size);
    hits := [];
    if q.None? {
      FoundAll(s, cur, results);
    } else {
      FoundNext(s, cur, q.value, results);
      hits := CheckCandidate(m, base, q.value, pattern, leading);
    }
  }

  /** The loop over the candidates for the first byte, which stands at `leading`. */
  method ScanForByte(m: Memory, base: Word, size: nat, pattern: seq<PatternByte>, leading: nat)
    returns (results: seq<Word>)
    requires Scannable(size, pattern, leading)
    ensures Found(m, base, size, pattern, leading, results)
  {
    results := [];
    var cur := leading;
    var remaining, minSize := size - leading, |pattern| - leading;
    ghost var s := Search(m, base, size, pattern, leading);
    FoundAtStart(s);
    hide Progress, Found, Leads;
    while remaining >= minSize
      invariant cur + remaining == size && remaining >= 0 && Progress(s, cur, results)
    {
      var q, hits := NextHits(m, base, pattern, leading, cur, remaining, s, results);
      if q.None? {
        return;
      }
      results := results + hits;
      remaining := remaining - (q.value + 1 - cur);
      cur := q.value + 1;
    }
    FoundAtEnd(s, cur, results);
  }

  /**
   * `Err` is the throw for a pattern of wildcards only. Otherwise the result is the naive list of
   * all matches inside the region, followed by the match across its end that `Straddler` describes.
   */
  method ScanRegion(m: Memory, base: Word, size: nat, pattern: seq<PatternByte>)
    returns (r: Result<seq<Word>, ()>, ghost lead: nat)
    requires size < TWO63
    ensures |pattern| == 0 || size < |pattern| ==> r == Ok([])
    ensures 0 < |pattern| <= size ==>
              if r.Err? then forall i: nat {:trigger pattern[i]} | i < |pattern| :: pattern[i] == WILDCARD
              else Scannable(size, pattern, lead) && Found(m, base, size, pattern, lead, r.value)
  {
    lead := 0;
    if |pattern| == 0 || size < |pattern| {
      return Ok([]), lead;
    }
    var leading: nat := 0;
    while leading < |pattern| && pattern[leading] == WILDCARD
      invariant leading <= |pattern|
      invariant forall i: nat {:trigger pattern[i]} | i < leading :: pattern[i] == WILDCARD
    {
      leading := leading + 1;
    }
    if leading == |pattern| {
      return Err(()), lead;
    }
    var results := ScanForByte(m, base, size, pattern, leading);
    return Ok(results), leading;
  }

  // ----- what the result means

  /**
   * The offsets found are strictly increasing; each is a match; every match inside the region is
   * among them; and at most the last one is not inside.
   */
  lemma ScanFindsAll(m: Memory, base: Word, size: nat, pattern: seq<PatternByte>, lead: nat)
    requires Scannable(size, pattern, lead)
    ensures var found := ScanFrom(m, base, size, pattern, lead, lead);
            && Increasing(found)
            && (forall o: nat | o + |pattern| <= size :: o in found <==> MatchesAt(m, base, pattern, o))
            && (forall i: nat {:trigger found[i]} | i < |found| ::
                  && found[i] < size && MatchesAt(m, base, pattern, found[i])
                  && (i + 1 < |found| ==> found[i] + |pattern| <= size))
  {
    NaiveFindsAll(m, base, pattern, 0, size - |pattern| + 1);
    var naive, extra := NaiveScan(m, base, pattern, 0, size - |pattern| + 1), Straddler(m, base, size, pattern, lead);
    var found := ScanFrom(m, base, size, pattern, lead, lead);
    assert found == naive + extra;
    forall i: nat | i < |naive| ensures found[i] == naive[i] && naive[i] in naive {}
    hide NaiveScan, Straddler, ScanFrom, MatchesAt;
    forall o: nat | o + |pattern| <= size ensures o in found <==> o in naive {
      assert extra == [] || extra == [extra[0]];
    }
  }

  /**
   * The first byte of the pattern does not stand at the last place where a match inside the
   * region can have it, and at the next place after that, still in the region, a match starts.
   */
  ghost predicate CrossesTheEnd(m: Memory, base: Word, size: nat, pattern: seq<PatternByte>, lead: nat)
    requires Scannable(size, pattern, lead)
  {
    var last, b := LastCandidate(size, pattern, lead), pattern[lead];
    && ByteAt(m, base, last) != b
    && exists q: nat {:trigger ByteAt(m, base, q)} ::
         && last < q < size && ByteAt(m, base, q) == b && NoCandidate(m, base, b, last + 1, q)
         && MatchesAt(m, base, pattern, q - lead)
  }

  lemma FirstIs(m: Memory, base: Word, b: Byte, lo: nat, hi: nat, q: nat)
    requires lo <= q < hi < TWO64 && ByteAt(m, base, q) == b && NoCandidate(m, base, b, lo, q)
    ensures FirstByte(m, base, b, lo, hi) == Some(q)
  {
    var r := FirstByte(m, base, b, lo, hi);
    hide FirstByte, ByteAt;
  }

  lemma CrossingIsReported(m: Memory, base: Word, size: nat, pattern: seq<PatternByte>, lead: nat)
    requires Scannable(size, pattern, lead) && CrossesTheEnd(m, base, size, pattern, lead)
    ensures |Straddler(m, base, size, pattern, lead)| == 1
  {
    hide MatchesAt, ByteAt, FirstByte, NoCandidate, Leads;
    var last, b := LastCandidate(size, pattern, lead), pattern[lead];
    var q: nat :| last < q < size && ByteAt(m, base, q) == b && NoCandidate(m, base, b, last + 1, q)
                  && MatchesAt(m, base, pattern, q - lead);
    FirstIs(m, base, b, last + 1, size, q);
  }

  lemma ReportedCrosses(m: Memory, base: Word, size: nat, pattern: seq<PatternByte>, lead: nat)
    requires Scannable(size, pattern, lead) && |Straddler(m, base, size, pattern, lead)| == 1
    ensures CrossesTheEnd(m, base, size, pattern, lead)
  {
    hide MatchesAt, ByteAt, FirstByte, NoCandidate, Leads;
    var last, b := LastCandidate(size, pattern, lead), pattern[lead];
    var q := FirstByte(m, base, b, last + 1, size).value;
    assert ByteAt(m, base, q) == b && MatchesAt(m, base, pattern, q - lead);
  }

  /** Exactly when everything the scan reports lies inside the region. */
  lemma AllInsideExactlyWhen(m: Memory, base: Word, size: nat, pattern: seq<PatternByte>, lead: nat)
    requires Scannable(size, pattern, lead)
    ensures (forall o | o in ScanFrom(m, base, size, pattern, lead, lead) :: o + |pattern| <= size)
       <==> !CrossesTheEnd(m, base, size, pattern, lead)
  {
    if |Straddler(m, base, size, pattern, lead)| == 1 {
      ReportedCrosses(m, base, size, pattern, lead);
    } else if CrossesTheEnd(m, base, size, pattern, lead) {
      CrossingIsReported(m, base, size, pattern, lead);
    }
    NaiveFindsAll(m, base, pattern, 0, size - |pattern| + 1);
    var naive, extra := NaiveScan(m, base, pattern, 0, size - |pattern| + 1), Straddler(m, base, size, pattern, lead);
    assert ScanFrom(m, base, size, pattern, lead, lead) == naive + extra;
    hide NaiveScan, Straddler, ScanFrom, MatchesAt, CrossesTheEnd;
    if extra != [] {
      assert extra[0] in naive + extra;
    }
  }

  /**
   * The scan reports a match that is not inside the region: here the pattern is two bytes long,
   * the region holds its first byte only, at its end, and the second byte stands behind it.
   */
  lemma ReportsMatchAcrossTheEnd(m: Memory, base: Word)
    requires m(base) == 0x00 && m(Plus(base, 1)) == 0x41 && m(Plus(base, 2)) == 0x42
    ensures Scannable(2, [0x41, 0x42], 0) && ScanFrom(m, base, 2, [0x41, 0x42], 0, 0) == [1]
  {
    var pattern: seq<PatternByte> := [0x41, 0x42];
    assert ByteAt(m, base, 0) == 0x00 && ByteAt(m, base, 1) == 0x41 && ByteAt(m, base, 1 + 1) == 0x42;
    assert !MatchesAt(m, base, pattern, 0) by { assert ByteAt(m, base, 0 + 0) != pattern[0]; }
    assert NaiveScan(m, base, pattern, 0, 1) == [];
    assert FirstByte(m, base, 0x41, 1, 2) == Some(1);
    assert MatchesAt(m, base, pattern, 1);
  }
}
