/** Which strings spell a pattern, which do not, and what scanning for a spelled pattern finds. */
module PatternSpellings {
  import opened Words
  import opened Wrappers
  import opened Memories
  import opened Scans
  import opened Patterns

  // ----- spelling one byte

  /** `c` is a digit for `n`, of either case. */
  predicate IsDigitFor(c: char, n: nat) {
    n < 16 && (IsUpperDigit(c, n) || (n >= 10 && c as int == 87 + n))
  }

  /** One or two question marks for a wildcard, one or two hex digits for a byte. */
  predicate Spells(word: string, v: PatternByte) {
    if v == -1 then word == "?" || word == "??"
    else
      || (|word| == 1 && IsDigitFor(word[0], v))
      || (|word| == 2 && IsDigitFor(word[0], v / 16) && IsDigitFor(word[1], v % 16))
  }

  predicate Blank(c: char) {
    c as int == 32 || 9 <= c as int <= 13
  }

  lemma DigitIsHex(c: char, n: nat)
    requires IsDigitFor(c, n)
    ensures IsHex(c) && HexValue(c) == n && !Blank(c) && c !in {'?', '+', '-', 'x', 'X'}
  {}

  lemma OneDigit(s: string)
    requires |s| == 1 && IsHex(s[0])
    ensures DigitsLength(s) == 1 && DigitsValue(s) == HexValue(s[0])
  {
    assert s[1..] == "" && s[..0] == "";
  }

  lemma TwoDigits(s: string)
    requires |s| == 2 && IsHex(s[0]) && IsHex(s[1])
    ensures DigitsLength(s) == 2 && DigitsValue(s) == 16 * HexValue(s[0]) + HexValue(s[1])
  {
    assert s[1..] == [s[1]] && s[..1] == [s[0]];
    OneDigit(s[1..]);
    OneDigit(s[..1]);
  }

  lemma SpellingIsRead(word: string, v: PatternByte)
    requires Spells(word, v)
    ensures TokenValue(word) == Some(v)
  {
    if v != -1 {
      if |word| == 1 {
        DigitIsHex(word[0], v);
        OneDigit(word);
      } else {
        DigitIsHex(word[0], v / 16);
        DigitIsHex(word[1], v % 16);
        TwoDigits(word);
      }
      hide DigitsLength, DigitsValue;
      assert word[..|word|] == word;
    }
  }

  lemma SpellingHasNoBlank(word: string, v: PatternByte)
    requires Spells(word, v)
    ensures word != "" && forall k: nat | k < |word| :: !IsSpace(word[k])
  {}

  // ----- spelling a pattern

  predicate AllBlank(s: string) {
    forall k: nat | k < |s| :: Blank(s[k])
  }

  /** After blanks up to `i`, a word up to `j` that spells `v`. */
  predicate StartsWithSpelling(s: string, v: PatternByte, i: nat, j: nat) {
    i < j <= |s| && AllBlank(s[..i]) && Spells(s[i..j], v) && (j < |s| ==> Blank(s[j]))
  }

  /** The bytes in their order, each spelled in one of its ways, with blanks between and around. */
  ghost predicate SpellsPattern(s: string, pattern: seq<PatternByte>)
    decreases |pattern|
  {
    if pattern == [] then AllBlank(s)
    else exists i: nat, j: nat :: StartsWithSpelling(s, pattern[0], i, j) && SpellsPattern(s[j..], pattern[1..])
  }

  lemma {:induction false} BlanksAreSkipped(s: string, i: nat)
    requires i <= |s| && AllBlank(s[..i])
    ensures Parsed(s) == Parsed(s[i..])
    decreases i
  {
    if i == 0 {
      assert s[0..] == s;
    } else {
      assert Blank(s[..i][0]);
      var less := s[1..][..i - 1];
      forall k: nat | k < |less| ensures Blank(less[k]) {
        assert Blank(s[..i][k + 1]);
      }
      BlanksAreSkipped(s[1..], i - 1);
      assert s[1..][i - 1..] == s[i..];
    }
  }

  lemma {:induction false} WordEnds(s: string, n: nat)
    requires n <= |s| && (forall k: nat | k < n :: !IsSpace(s[k])) && (n < |s| ==> IsSpace(s[n]))
    ensures WordLength(s) == n
    decreases n
  {
    if n > 0 {
      WordEnds(s[1..], n - 1);
    }
  }

  lemma FirstSpellingIsRead(s: string, v: PatternByte, i: nat, j: nat)
    requires StartsWithSpelling(s, v, i, j)
    ensures Parsed(s) == Continued([v], Parsed(s[j..]))
  {
    hide Parsed, TokenValue, Continued, Spells;
    BlanksAreSkipped(s, i);
    var rest, word := s[i..], s[i..j];
    SpellingHasNoBlank(word, v);
    forall k: nat | k < j - i ensures !IsSpace(rest[k]) {
      assert rest[k] == word[k];
    }
    WordEnds(rest, j - i);
    assert rest[..j - i] == word && rest[j - i..] == s[j..];
    SpellingIsRead(word, v);
    TokensOfWord(rest);
  }

  /** Reading any spelling of a pattern gives the pattern. */
  lemma {:induction false} SpelledIsParsed(s: string, pattern: seq<PatternByte>)
    requires SpellsPattern(s, pattern)
    ensures Parsed(s) == Some(pattern)
    decreases |pattern|
  {
    if pattern == [] {
      assert s[..|s|] == s && s[|s|..] == "";
      BlanksAreSkipped(s, |s|);
    } else {
      var i: nat, j: nat :| StartsWithSpelling(s, pattern[0], i, j) && SpellsPattern(s[j..], pattern[1..]);
      FirstSpellingIsRead(s, pattern[0], i, j);
      hide Parsed, StartsWithSpelling;
      SpelledIsParsed(s[j..], pattern[1..]);
      assert [pattern[0]] + pattern[1..] == pattern;
    }
  }

  // ----- words that spell nothing

  /** A longest run of characters that are not blank. */
  predicate IsWordAt(s: string, i: nat, j: nat) {
    && i < j <= |s| && (forall k: nat | i <= k < j :: !Blank(s[k]))
    && (i > 0 ==> Blank(s[i - 1])) && (j < |s| ==> Blank(s[j]))
  }

  /** A word of the string is neither a wildcard nor a byte. */
  ghost predicate HasBadWord(s: string) {
    exists i: nat, j: nat :: IsWordAt(s, i, j) && TokenValue(s[i..j]).None?
  }

  lemma {:induction false} WordIsLongest(s: string)
    ensures var n := WordLength(s);
            (forall k: nat | k < n :: !Blank(s[k])) && (n < |s| ==> Blank(s[n]))
  {
    if s != "" && !IsSpace(s[0]) {
      WordIsLongest(s[1..]);
      var n := WordLength(s);
      forall k: nat | k < n ensures !Blank(s[k]) {
        if k > 0 { assert s[k] == s[1..][k - 1]; }
      }
    }
  }

  /** The bad words behind the first `n` characters, which end where a word ends or a blank stands. */
  lemma BadWordsBehind(s: string, n: nat)
    requires 0 < n <= |s| && (Blank(s[n - 1]) || n == |s| || Blank(s[n]))
    ensures HasBadWord(s[n..]) ==> HasBadWord(s)
  {
    hide TokenValue;
    if HasBadWord(s[n..]) {
      var i: nat, j: nat :| IsWordAt(s[n..], i, j) && TokenValue(s[n..][i..j]).None?;
      assert s[n..][i..j] == s[n + i..n + j];
      assert IsWordAt(s, n + i, n + j) by {
        forall k: nat | n + i <= k < n + j ensures !Blank(s[k]) {
          assert s[k] == s[n..][k - n];
        }
      }
    }
  }

  lemma ShiftedWord(s: string, n: nat, i: nat, j: nat)
    requires n <= i && IsWordAt(s, i, j)
    ensures IsWordAt(s[n..], i - n, j - n) && s[n..][i - n..j - n] == s[i..j]
  {}

  lemma {:induction false} ThrowsExactlyForBadWords(s: string)
    ensures Parsed(s).None? <==> HasBadWord(s)
    decreases |s|
  {
    hide TokenValue;
    if s != "" {
      var n := if IsSpace(s[0]) then 1 else WordLength(s);
      WordIsLongest(s);
      BadWordsBehind(s, n);
      if IsSpace(s[0]) {
        assert Parsed(s) == Parsed(s[n..]);
      } else {
        TokensOfWord(s);
        assert s[0..n] == s[..n] && IsWordAt(s, 0, n);
      }
      ThrowsExactlyForBadWords(s[n..]);
      hide Parsed;
      if i: nat, j: nat :| IsWordAt(s, i, j) && TokenValue(s[i..j]).None? {
        if i >= n {
          ShiftedWord(s, n, i, j);
        } else {
          assert i == 0 && j == n;
          assert s[0..n] == s[..n];
        }
      }
    }
  }

  // ----- what a word is read as, exactly

  predicate AllHex(s: string) {
    forall k: nat | k < |s| :: IsHex(s[k])
  }

  /** `word` is a sign, a prefix, as many hex digits as follow, and something that is ignored. */
  predicate IsNumeral(word: string, sign: string, prefix: string, digits: string, rest: string) {
    && word == sign + prefix + digits + rest
    && (sign == "" || sign == "+" || sign == "-")
    && (prefix == "" || prefix == "0x" || prefix == "0X")
    && digits != "" && AllHex(digits) && (rest != "" ==> !IsHex(rest[0]))
    && !(prefix == "" && digits == "0" && |rest| >= 2 && rest[0] in {'x', 'X'} && IsHex(rest[1]))
  }

  /** What a numeral stands for: a minus negates modulo 2^64. */
  function Signify(sign: string, value: Word): Word {
    if sign == "-" then Minus(0, value) else value
  }

  lemma {:induction false} DigitsEnd(s: string, n: nat)
    requires n <= |s| && AllHex(s[..n]) && (n < |s| ==> !IsHex(s[n]))
    ensures DigitsLength(s) == n
    decreases n
  {
    if n > 0 {
      assert IsHex(s[..n][0]);
      var less := s[1..][..n - 1];
      forall k: nat | k < |less| ensures IsHex(less[k]) {
        assert IsHex(s[..n][k + 1]);
      }
      DigitsEnd(s[1..], n - 1);
    }
  }

  lemma {:induction false} DigitsAreLongest(s: string)
    ensures DigitsLength(s) < |s| ==> !IsHex(s[DigitsLength(s)])
  {
    if s != "" && IsHex(s[0]) {
      DigitsAreLongest(s[1..]);
    }
  }

  lemma PrefixIsSkipped(prefix: string, digits: string, rest: string)
    requires IsNumeral(prefix + digits + rest, "", prefix, digits, rest)
    ensures WithoutPrefix(prefix + digits + rest) == digits + rest
  {
    var s := prefix + digits + rest;
    assert IsHex(digits[0]);
    if prefix == "" {
      assert s == digits + rest;
    } else {
      assert s[0] == '0' && s[1] == prefix[1] && s[2] == digits[0];
      assert s[2..] == digits + rest;
    }
  }

  /** The sign is what the word starts with, if it is a sign at all. */
  lemma SignIsSplit(word: string, sign: string, prefix: string, digits: string, rest: string)
    requires IsNumeral(word, sign, prefix, digits, rest)
    ensures word != "" && (word[0] == '-' <==> sign == "-")
    ensures (if word[0] in {'+', '-'} then word[1..] else word) == prefix + digits + rest
  {
    assert IsHex(digits[0]);
    if sign == "" {
      assert word[0] == if prefix == "" then digits[0] else '0';
      assert "" + prefix + digits + rest == prefix + digits + rest;
    } else {
      assert word[0] == sign[0];
      assert word[1..] == prefix + digits + rest;
    }
  }

  lemma NumeralIsUnsigned(word: string, sign: string, prefix: string, digits: string, rest: string)
    requires IsNumeral(word, sign, prefix, digits, rest)
    ensures IsNumeral(prefix + digits + rest, "", prefix, digits, rest) && AllHex(digits)
    ensures digits != "" && (rest != "" ==> !IsHex(rest[0]))
  {
    hide IsHex, AllHex;
    assert "" + prefix + digits + rest == prefix + digits + rest;
  }

  lemma NumeralIsRead(word: string, sign: string, prefix: string, digits: string, rest: string)
    requires IsNumeral(word, sign, prefix, digits, rest)
    ensures Stoul(word) == if DigitsValue(digits) >= TWO64 then None else Some(Signify(sign, DigitsValue(digits)))
  {
    hide DigitsValue, DigitsLength, WithoutPrefix;
    var unsigned := prefix + digits + rest;
    SignIsSplit(word, sign, prefix, digits, rest);
    NumeralIsUnsigned(word, sign, prefix, digits, rest);
    PrefixIsSkipped(prefix, digits, rest);
    var s := digits + rest;
    hide IsNumeral, IsHex;
    assert s[..|digits|] == digits;
    DigitsEnd(s, |digits|);
  }

  /** What `WithoutPrefix` leaves, and what it skips. */
  lemma SplitPrefix(s: string) returns (prefix: string)
    ensures s == prefix + WithoutPrefix(s) && (prefix == "" || prefix == "0x" || prefix == "0X")
    ensures prefix == "" ==> !(|s| >= 3 && s[0] == '0' && s[1] in {'x', 'X'} && IsHex(s[2]))
  {
    if |s| >= 3 && s[0] == '0' && s[1] in {'x', 'X'} && IsHex(s[2]) {
      prefix := [s[0], s[1]];
      assert s == prefix + s[2..];
    } else {
      prefix := "";
      assert s == "" + s;
    }
  }

  lemma SplitSign(word: string) returns (sign: string, unsigned: string)
    requires word != ""
    ensures word == sign + unsigned && (sign == "" || sign == "+" || sign == "-")
    ensures unsigned == if word[0] in {'+', '-'} then word[1..] else word
  {
    if word[0] in {'+', '-'} {
      sign, unsigned := [word[0]], word[1..];
    } else {
      sign, unsigned := "", word;
    }
  }

  lemma FourParts(a: string, b: string, c: string, d: string)
    ensures a + (b + (c + d)) == a + b + c + d
  {
    assert a + (b + (c + d)) == (a + b) + (c + d);
  }

  lemma ZeroAndRest(rest: string)
    requires |rest| >= 2
    ensures var s := "" + ("0" + rest); |s| >= 3 && s[0] == '0' && s[1] == rest[0] && s[2] == rest[1]
  {}

  lemma JoinNumeral(word: string, sign: string, unsigned: string, prefix: string, digits: string, rest: string)
    requires word == sign + unsigned && unsigned == prefix + (digits + rest)
    requires sign == "" || sign == "+" || sign == "-"
    requires prefix == "" || prefix == "0x" || prefix == "0X"
    requires prefix == "" ==>
               !(|unsigned| >= 3 && unsigned[0] == '0' && unsigned[1] in {'x', 'X'} && IsHex(unsigned[2]))
    requires digits != "" && AllHex(digits) && (rest != "" ==> !IsHex(rest[0]))
    ensures IsNumeral(word, sign, prefix, digits, rest)
  {
    hide IsHex, AllHex;
    FourParts(sign, prefix, digits, rest);
    if prefix == "" && digits == "0" && |rest| >= 2 {
      ZeroAndRest(rest);
    }
  }

  lemma StoulNeedsDigits(word: string)
    requires Stoul(word).Some?
    ensures word != ""
    ensures DigitsLength(WithoutPrefix(if word[0] in {'+', '-'} then word[1..] else word)) > 0
  {}

  lemma SplitDigits(s: string) returns (digits: string, rest: string)
    ensures s == digits + rest && |digits| == DigitsLength(s)
    ensures AllHex(digits) && (rest != "" ==> !IsHex(rest[0]))
  {
    hide IsHex;
    DigitsAreLongest(s);
    digits, rest := s[..DigitsLength(s)], s[DigitsLength(s)..];
  }

  lemma ReadIsNumeral(word: string) returns (sign: string, prefix: string, digits: string, rest: string)
    requires Stoul(word).Some?
    ensures IsNumeral(word, sign, prefix, digits, rest)
  {
    hide DigitsValue, DigitsLength, WithoutPrefix, IsHex;
    StoulNeedsDigits(word);
    hide Stoul;
    var unsigned: string;
    sign, unsigned := SplitSign(word);
    prefix := SplitPrefix(unsigned);
    var s := WithoutPrefix(unsigned);
    digits, rest := SplitDigits(s);
    hide IsNumeral, AllHex;
    JoinNumeral(word, sign, unsigned, prefix, digits, rest);
  }

  /** `word` is a numeral whose value, taken modulo 2^64 if it is negated, is `v`. */
  ghost predicate IsNumeralFor(word: string, v: int, sign: string, prefix: string, digits: string, rest: string) {
    && IsNumeral(word, sign, prefix, digits, rest)
    && DigitsValue(digits) < TWO64 && Signify(sign, DigitsValue(digits)) == v
  }

  lemma NumeralForIsRead(word: string, v: PatternByte, sign: string, prefix: string, digits: string, rest: string)
    requires IsNumeralFor(word, v, sign, prefix, digits, rest) && word != "?" && word != "??"
    ensures TokenValue(word) == Some(v)
  {
    NumeralIsRead(word, sign, prefix, digits, rest);
    hide Stoul, DigitsValue;
  }

  /**
   * A word is read as a wildcard only if it is one of the two, and as a byte exactly when it is a
   * numeral for at most 0xFF. Nothing else is read.
   */
  lemma TokenExactlyWhen(word: string, v: PatternByte)
    ensures TokenValue(word) == Some(v)
       <==> if word == "?" || word == "??" then v == -1
            else v >= 0 && exists sign: string, prefix: string, digits: string, rest: string ::
                   IsNumeralFor(word, v, sign, prefix, digits, rest)
  {
    hide IsNumeral, DigitsValue, Stoul;
    if word != "?" && word != "??" {
      if TokenValue(word) == Some(v) {
        var sign, prefix, digits, rest := ReadIsNumeral(word);
        NumeralIsRead(word, sign, prefix, digits, rest);
        assert IsNumeralFor(word, v, sign, prefix, digits, rest);
      }
      hide IsNumeralFor, TokenValue;
      if v >= 0 {
        forall sign: string, prefix: string, digits: string, rest: string
          | IsNumeralFor(word, v, sign, prefix, digits, rest)
          ensures TokenValue(word) == Some(v)
        {
          NumeralForIsRead(word, v, sign, prefix, digits, rest);
        }
      }
    }
  }

  function Pow16(n: nat): nat {
    if n == 0 then 1 else 16 * Pow16(n - 1)
  }

  lemma NoDigits()
    ensures DigitsValue("") == 0
  {}

  lemma LastDigit(s: string)
    requires s != "" && AllHex(s)
    ensures AllHex(s[..|s| - 1])
    ensures DigitsValue(s) == 16 * DigitsValue(s[..|s| - 1]) + HexValue(s[|s| - 1])
  {}

  /** Digits count to base 16, the last one least. */
  lemma {:induction false} DigitsValueSplits(xs: string, ys: string)
    requires AllHex(xs) && AllHex(ys)
    ensures AllHex(xs + ys) && DigitsValue(xs + ys) == Pow16(|ys|) * DigitsValue(xs) + DigitsValue(ys)
    decreases |ys|
  {
    hide IsHex, DigitsValue;
    assert xs + ys == xs || ys != "";
    if ys == "" {
      NoDigits();
    } else {
      var most, last := ys[..|ys| - 1], ys[|ys| - 1];
      assert (xs + ys)[..|xs + ys| - 1] == xs + most && ys == most + [last];
      DigitsValueSplits(xs, most);
      LastDigit(xs + ys);
      LastDigit(ys);
      var p, x, y := Pow16(|most|), DigitsValue(xs), DigitsValue(most);
      assert 16 * (p * x + y) == 16 * p * x + 16 * y;
    }
  }

  // ----- scanning for what was spelled

  /** Every byte of the pattern that is not a wildcard stands at its place from `base + o` on. */
  ghost predicate StandsAt(m: Memory, base: Word, pattern: seq<PatternByte>, o: nat)
    requires o + |pattern| < TWO64
  {
    forall i: nat {:trigger pattern[i]} | i < |pattern| && pattern[i] >= 0 :: m(Plus(base, o + i)) == pattern[i]
  }

  lemma StandsIsMatch(m: Memory, base: Word, pattern: seq<PatternByte>, o: nat)
    requires o + |pattern| < TWO64
    ensures StandsAt(m, base, pattern, o) <==> MatchesAt(m, base, pattern, o)
  {}

  /**
   * Scanning for a pattern string finds exactly the places inside the region where all its bytes
   * stand, wildcards standing for anything, in order, and at most one more, the last, across its end.
   */
  lemma ScanningForSpelledPattern(m: Memory, base: Word, size: nat, s: string, pattern: seq<PatternByte>, lead: nat)
    requires SpellsPattern(s, pattern) && |pattern| <= size < TWO63 && Leads(pattern, lead)
    ensures Parsed(s) == Some(pattern) && Scannable(size, pattern, lead)
    ensures var found := ScanFrom(m, base, size, pattern, lead, lead);
            && Increasing(found)
            && (forall o: nat {:trigger StandsAt(m, base, pattern, o)} | o + |pattern| <= size ::
                  o in found <==> StandsAt(m, base, pattern, o))
            && (forall i: nat {:trigger found[i]} | i < |found| ::
                  && found[i] < size && StandsAt(m, base, pattern, found[i])
                  && (i + 1 < |found| ==> found[i] + |pattern| <= size))
  {
    SpelledIsParsed(s, pattern);
    ScanFindsAll(m, base, size, pattern, lead);
    hide ScanFrom, StandsAt, MatchesAt, SpellsPattern, Parsed, Increasing;
    forall o: nat {:trigger StandsAt(m, base, pattern, o)} | o < size
      ensures StandsAt(m, base, pattern, o) <==> MatchesAt(m, base, pattern, o)
    {
      StandsIsMatch(m, base, pattern, o);
    }
  }
}
