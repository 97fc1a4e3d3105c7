/** Printing bytes, `__ztour_bytes_to_str`, and reading patterns, `memory::parse_pattern_str`. */
module Patterns {
  import opened Words
  import opened Wrappers
  import opened Memories
  import opened Scans

  // ----- printing

  function HexDigit(n: nat): char
    requires n < 16
  {
    "0123456789ABCDEF"[n]
  }

  /** Two upper-case hex digits. */
  function HexByte(b: Byte): (s: string)
    ensures |s| == 2
  {
    [HexDigit(b / 16), HexDigit(b % 16)]
  }

  /** The bytes in hex, with one blank between them. */
  function Printed(bytes: seq<Byte>): string {
    if bytes == [] then ""
    else if |bytes| == 1 then HexByte(bytes[0])
    else HexByte(bytes[0]) + " " + Printed(bytes[1..])
  }

  lemma {:induction false} PrintedAppend(bytes: seq<Byte>, b: Byte)
    ensures Printed(bytes + [b]) == Printed(bytes) + (if bytes == [] then "" else " ") + HexByte(b)
  {
    if bytes == [] {
      assert bytes + [b] == [b];
    } else {
      assert (bytes + [b])[1..] == bytes[1..] + [b];
      PrintedAppend(bytes[1..], b);
    }
  }

  method BytesToStr(bytes: seq<Byte>) returns (stream: string)
    ensures stream == Printed(bytes)
  {
    stream := "";
    for i := 0 to |bytes|
      invariant stream == Printed(bytes[..i])
    {
      PrintedAppend(bytes[..i], bytes[i]);
      assert bytes[..i + 1] == bytes[..i] + [bytes[i]];
      if i > 0 {
        stream := stream + " ";
      }
      stream := stream + HexByte(bytes[i]);
    }
    assert bytes[..|bytes|] == bytes;
  }

  // ----- reading one token

  predicate IsSpace(c: char) {
    c == ' ' || '\t' <= c <= '\r'
  }

  predicate IsHex(c: char) {
    '0' <= c <= '9' || 'A' <= c <= 'F' || 'a' <= c <= 'f'
  }

  function HexValue(c: char): (n: nat)
    requires IsHex(c)
    ensures n < 16
  {
    if c <= '9' then c as int - '0' as int
    else if c <= 'F' then c as int - 'A' as int + 10
    else c as int - 'a' as int + 10
  }

  /** How many hex digits `s` starts with. */
  function DigitsLength(s: string): (n: nat)
    ensures n <= |s|
    ensures forall i: nat | i < n :: IsHex(s[i])
  {
    if s == "" || !IsHex(s[0]) then 0 else 1 + DigitsLength(s[1..])
  }

  function DigitsValue(s: string): nat
    requires forall i: nat | i < |s| :: IsHex(s[i])
  {
    if s == "" then 0 else 16 * DigitsValue(s[..|s| - 1]) + HexValue(s[|s| - 1])
  }

  /** `0x` is skipped only where a digit follows. */
  function WithoutPrefix(s: string): string {
    if |s| >= 3 && s[0] == '0' && s[1] in {'x', 'X'} && IsHex(s[2]) then s[2..] else s
  }

  /**
   * `std::stoul(s, nullptr, 16)` for a string without white space, with a 64-bit `unsigned long`:
   * an optional sign, then as many hex digits as there are; what follows is ignored, and a minus
   * negates modulo 2^64. `None` is an exception.
   */
  function Stoul(s: string): Option<Word> {
    var unsigned := WithoutPrefix(if |s| > 0 && s[0] in {'+', '-'} then s[1..] else s);
    var digits := unsigned[..DigitsLength(unsigned)];
    if digits == "" || DigitsValue(digits) >= TWO64 then None
    else if s[0] == '-' then Some(Minus(0, DigitsValue(digits)))
    else Some(DigitsValue(digits))
  }

  /** One token: a wildcard, or a byte; `None` is the throw. */
  function TokenValue(token: string): Option<PatternByte> {
    if token == "?" || token == "??" then Some(WILDCARD)
    else
      var v := Stoul(token);
      if v.None? || v.value > 0xFF then None else Some(v.value)
  }

  // ----- reading a pattern

  /** How many characters the word that `s` starts with has. */
  function WordLength(s: string): (n: nat)
    ensures n <= |s|
  {
    if s == "" || IsSpace(s[0]) then 0 else 1 + WordLength(s[1..])
  }

  /** The words between white space, as `>>` reads them. */
  function Tokens(s: string): seq<string>
    decreases |s|
  {
    if s == "" then []
    else if IsSpace(s[0]) then Tokens(s[1..])
    else [s[..WordLength(s)]] + Tokens(s[WordLength(s)..])
  }

  function ParseTokens(tokens: seq<string>): Option<seq<PatternByte>> {
    if tokens == [] then Some([])
    else
      var first, rest := TokenValue(tokens[0]), ParseTokens(tokens[1..]);
      if first.None? || rest.None? then None else Some([first.value] + rest.value)
  }

  function Parsed(pattern: string): Option<seq<PatternByte>> {
    ParseTokens(Tokens(pattern))
  }

  function Continued(bytes: seq<PatternByte>, rest: Option<seq<PatternByte>>): Option<seq<PatternByte>> {
    if rest.None? then None else Some(bytes + rest.value)
  }

  lemma ContinuedFromNothing(r: Option<seq<PatternByte>>)
    ensures Continued([], r) == r
  {
    assert r.Some? ==> [] + r.value == r.value;
  }

  lemma ContinuedTwice(bytes: seq<PatternByte>, b: PatternByte, r: Option<seq<PatternByte>>)
    ensures Continued(bytes, Continued([b], r)) == Continued(bytes + [b], r)
  {
    assert r.Some? ==> bytes + ([b] + r.value) == bytes + [b] + r.value;
  }

  lemma TokensOfWord(s: string)
    requires s != "" && !IsSpace(s[0])
    ensures WordLength(s) > 0
    ensures var v := TokenValue(s[..WordLength(s)]);
            Parsed(s) == if v.None? then None else Continued([v.value], Parsed(s[WordLength(s)..]))
  {
    var word, rest := s[..WordLength(s)], Tokens(s[WordLength(s)..]);
    assert Tokens(s) == [word] + rest;
    assert ([word] + rest)[1..] == rest;
  }

  method ParsePatternStr(pattern: string) returns (r: Option<seq<PatternByte>>)
    ensures r == Parsed(pattern)
  {
    var rest := pattern;
    var bytes: seq<PatternByte> := [];
    ContinuedFromNothing(Parsed(pattern));
    hide TokenValue;
    while true
      invariant Parsed(pattern) == Continued(bytes, Parsed(rest))
      decreases |rest|
    {
      if rest == "" {
        assert bytes + [] == bytes;
        return Some(bytes);
      }
      if IsSpace(rest[0]) {
        rest := rest[1..];
      } else {
        var n := WordLength(rest);
        var token := TokenValue(rest[..n]);
        TokensOfWord(rest);
        if token.None? {
          return None;
        }
        ContinuedTwice(bytes, token.value, Parsed(rest[n..]));
        bytes := bytes + [token.value];
        rest := rest[n..];
      }
    }
  }

  // ----- the round trip

  lemma HexDigitsRead(n: nat)
    requires n < 16
    ensures IsHex(HexDigit(n)) && HexValue(HexDigit(n)) == n
    ensures HexDigit(n) !in {'?', '+', '-', 'x', 'X'} && !IsSpace(HexDigit(n))
  {}

  /** A printed byte is read as that byte. */
  lemma HexByteRead(b: Byte)
    ensures TokenValue(HexByte(b)) == Some(b)
  {
    var s := HexByte(b);
    HexDigitsRead(b / 16);
    HexDigitsRead(b % 16);
    assert s[1..] == [s[1]] && s[1..][1..] == [];
    assert DigitsLength(s[1..]) == 1 && DigitsLength(s) == 2;
    assert s[..2] == s && s[..1] == [s[0]];
    assert DigitsValue([s[0]]) == HexValue(s[0]) by { assert [s[0]][..0] == ""; }
    assert DigitsValue(s) == 16 * HexValue(s[0]) + HexValue(s[1]);
  }

  lemma HexByteIsWord(b: Byte, rest: string)
    requires rest == "" || rest[0] == ' '
    ensures WordLength(HexByte(b) + rest) == 2
  {
    var s := HexByte(b) + rest;
    HexDigitsRead(b / 16);
    HexDigitsRead(b % 16);
    assert s[1..][1..] == rest;
    assert WordLength(rest) == 0;
    assert WordLength(s[1..]) == 1;
  }

  /** Reading what was printed gives the bytes back. */
  lemma {:induction false} PrintedIsParsed(bytes: seq<Byte>)
    ensures Parsed(Printed(bytes)) == Some(bytes)
  {
    if bytes != [] {
      var rest := if |bytes| == 1 then "" else " " + Printed(bytes[1..]);
      var s := HexByte(bytes[0]) + rest;
      assert Printed(bytes) == s;
      HexDigitsRead(bytes[0] / 16);
      HexByteIsWord(bytes[0], rest);
      HexByteRead(bytes[0]);
      TokensOfWord(s);
      assert s[..2] == HexByte(bytes[0]) && s[2..] == rest;
      PrintedIsParsed(bytes[1..]);
      if |bytes| > 1 {
        assert rest[1..] == Printed(bytes[1..]);
        assert Tokens(rest) == Tokens(rest[1..]);
      } else {
        assert bytes[1..] == [];
      }
      assert [bytes[0]] + bytes[1..] == bytes;
    }
  }

  // ----- what is printed

  /** `c` is the upper-case digit for `n`. */
  predicate IsUpperDigit(c: char, n: nat) {
    c as int == if n < 10 then 48 + n else 55 + n
  }

  lemma HexDigitIsUpper(n: nat)
    requires n < 16
    ensures IsUpperDigit(HexDigit(n), n)
    ensures '0' <= HexDigit(n) <= '9' || 'A' <= HexDigit(n) <= 'F'
  {}

  /** Three characters a byte: its two digits, and a blank if another byte follows. */
  lemma {:induction false} PrintedShape(bytes: seq<Byte>)
    ensures |Printed(bytes)| == if bytes == [] then 0 else 3 * |bytes| - 1
    ensures forall i: nat {:trigger bytes[i]} | i < |bytes| ::
              && IsUpperDigit(Printed(bytes)[3 * i], bytes[i] / 16)
              && IsUpperDigit(Printed(bytes)[3 * i + 1], bytes[i] % 16)
              && (i + 1 < |bytes| ==> Printed(bytes)[3 * i + 2] == ' ')
  {
    hide HexDigit, IsUpperDigit;
    if bytes != [] {
      var s, rest := Printed(bytes), bytes[1..];
      HexDigitIsUpper(bytes[0] / 16);
      HexDigitIsUpper(bytes[0] % 16);
      PrintedShape(rest);
      forall i: nat {:trigger bytes[i]} | i < |bytes|
        ensures IsUpperDigit(s[3 * i], bytes[i] / 16) && IsUpperDigit(s[3 * i + 1], bytes[i] % 16)
        ensures i + 1 < |bytes| ==> s[3 * i + 2] == ' '
      {
        if i > 0 {
          assert bytes[i] == rest[i - 1];
          assert s[3..] == Printed(rest);
          assert s[3 * i] == s[3..][3 * (i - 1)] && s[3 * i + 1] == s[3..][3 * (i - 1) + 1];
          assert i + 1 < |bytes| ==> s[3 * i + 2] == s[3..][3 * (i - 1) + 2];
        }
      }
    }
  }

  /** `bytes` stand at offset `o` from `base`. */
  ghost predicate Occurs(m: Memory, base: Word, bytes: seq<Byte>, o: nat)
    requires o + |bytes| < TWO64
  {
    forall i: nat {:trigger bytes[i]} | i < |bytes| :: ByteAt(m, base, o + i) == bytes[i]
  }

  lemma OccursIsMatch(m: Memory, base: Word, bytes: seq<Byte>, o: nat)
    requires o + |bytes| < TWO64
    ensures Occurs(m, base, bytes, o) <==> MatchesAt(m, base, bytes, o)
  {}

  /**
   * Scanning for printed bytes finds exactly their occurrences inside the region, in order, and
   * at most one more, the last, across its end.
   */
  lemma ScanningForPrintedBytes(m: Memory, base: Word, size: nat, bytes: seq<Byte>)
    requires 0 < |bytes| <= size < TWO63
    ensures Parsed(Printed(bytes)) == Some(bytes) && Scannable(size, bytes, 0)
    ensures var found := ScanFrom(m, base, size, bytes, 0, 0);
            && Increasing(found)
            && (forall o: nat {:trigger Occurs(m, base, bytes, o)} | o + |bytes| <= size ::
                  o in found <==> Occurs(m, base, bytes, o))
            && (forall i: nat {:trigger found[i]} | i < |found| ::
                  && found[i] < size && Occurs(m, base, bytes, found[i])
                  && (i + 1 < |found| ==> found[i] + |bytes| <= size))
  {
    PrintedIsParsed(bytes);
    assert Scannable(size, bytes, 0);
    ScanFindsAll(m, base, size, bytes, 0);
    hide ScanFrom;
    forall o: nat {:trigger Occurs(m, base, bytes, o)} | o < size
      ensures Occurs(m, base, bytes, o) <==> MatchesAt(m, base, bytes, o)
    {
      OccursIsMatch(m, base, bytes, o);
    }
  }
}
