/** The range overload of `FindPattern`: a wildcard byte-pattern scan over
    [start, end) with a naive restart on mismatch. */
module PatternScan {
  import opened Machine
  import opened Hex

  /** The character at index i of a NUL-terminated pattern string; every
      index at or past the end reads the terminator. */
  function CharAt(p: string, i: nat): char
  {
    if i < |p| then p[i] else '\0'
  }

  /** One pattern token: `?` accepts any byte, a hex pair exactly one. */
  datatype Token = Wildcard | Exact(value: Byte)

  predicate Accepts(t: Token, b: Byte)
  {
    t.Wildcard? || t.value == b
  }

  /** The token the cursor at index i denotes. */
  function TokenAt(p: string, i: nat): Token
  {
    if CharAt(p, i) == '?' then Wildcard else Exact(GetByte(CharAt(p, i), CharAt(p, i + 1)))
  }

  /** The cursor step after a match: 3 characters past a hex pair and its
      separator, 2 past `?` and its separator. */
  function Advance(p: string, i: nat): nat
  {
    i + (if CharAt(p, i) != '?' then 3 else 2)
  }

  /** A pattern as the scanner walks it: its tokens in order, and whether the
      walk completes on the terminator at the top of the next iteration
      (`deferred`) rather than by finding the terminator two characters after
      the last token. */
  datatype Parsed = Parsed(tokens: seq<Token>, deferred: bool)

  /** The tokens the cursor visits from index i on. */
  function ParseFrom(p: string, i: nat): (r: Parsed)
    ensures r.tokens == [] <==> CharAt(p, i) == '\0'
    ensures r.tokens == [] ==> r.deferred
    decreases |p| - i
  {
    if CharAt(p, i) == '\0' then Parsed([], true)
    else if CharAt(p, i + 2) == '\0' then Parsed([TokenAt(p, i)], false)
    else
      var rest := ParseFrom(p, Advance(p, i));
      Parsed([TokenAt(p, i)] + rest.tokens, rest.deferred)
  }

  function Parse(p: string): Parsed
  {
    ParseFrom(p, 0)
  }

  /** The tokens accept the bytes laid out from address s on. */
  ghost predicate MatchesAt(mem: Memory, s: int, tokens: seq<Token>)
  {
    forall i :: 0 <= i < |tokens| ==> AcceptsAt(mem, s, tokens, i)
  }

  /** Token i accepts the byte at address s + i. */
  ghost predicate AcceptsAt(mem: Memory, s: int, tokens: seq<Token>, i: nat)
    requires i < |tokens|
  {
    0 <= s + i < ADDRESS_SPACE && s + i in mem && Accepts(tokens[i], mem[s + i])
  }

  /** The scan loop as a function of its state: the position, the number k
      of tokens matched in the current attempt, and the provisional match
      `first` (0 standing for "none"). */
  function Run(mem: Memory, end: Addr, pat: Parsed, pos: Addr, k: nat, first: Addr): Addr
    requires k <= |pat.tokens|
    requires Readable(mem, pos, end)
    decreases end - pos
  {
    if pos >= end then 0
    else if k == |pat.tokens| then first
    else if Accepts(pat.tokens[k], mem[pos]) then
      var f := if first == 0 then pos else first;
      if k + 1 == |pat.tokens| && !pat.deferred then f
      else Run(mem, end, pat, pos + 1, k + 1, f)
    else Run(mem, end, pat, pos + 1, 0, 0)
  }

  /** What the range scan returns; a null pattern is `None`. */
  function ScanSpec(mem: Memory, start: Addr, end: Addr, pattern: Option<string>): Addr
    requires Readable(mem, start, end)
  {
    if pattern.None? || start >= end then 0
    else Run(mem, end, Parse(pattern.value), start, 0, 0)
  }

  /** `FindPattern(start_address, end_address, target_pattern)`. */
  method FindPattern(mem: Memory, startAddress: Addr, endAddress: Addr, targetPattern: Option<string>)
    returns (r: Addr)
    requires Readable(mem, startAddress, endAddress)
    ensures r == ScanSpec(mem, startAddress, endAddress, targetPattern)
    ensures targetPattern.None? || startAddress >= endAddress ==> r == 0
    ensures FoundInside(mem, startAddress, endAddress, targetPattern, r)
  {
    ScanSound(mem, startAddress, endAddress, targetPattern);
    if targetPattern.None? || startAddress >= endAddress {
      return 0;
    }
    var p := targetPattern.value;
    ghost var pat := Parse(p);
    var cursor: nat := 0;
    var firstMatch: Addr := 0;
    ghost var k: nat := 0;
    var position := startAddress;
    while position < endAddress
      invariant startAddress <= position <= endAddress
      invariant k <= |pat.tokens|
      invariant Readable(mem, position, endAddress)
      invariant ParseFrom(p, cursor) == Parsed(pat.tokens[k..], pat.deferred)
      invariant Run(mem, endAddress, pat, position, k, firstMatch) == Run(mem, endAddress, pat, startAddress, 0, 0)
      decreases endAddress - position
    {
      if CharAt(p, cursor) == '\0' {
        return firstMatch;
      }
      LoopStep(mem, endAddress, p, pat, cursor, position, k, firstMatch);
      var patternCurrent := CharAt(p, cursor);
      var memoryCurrent := mem[position];
      if patternCurrent == '?' || memoryCurrent == GetByte(patternCurrent, CharAt(p, cursor + 1)) {
        if firstMatch == 0 {
          firstMatch := position;
        }
        if CharAt(p, cursor + 2) == '\0' {
          return firstMatch;
        }
        cursor := cursor + (if patternCurrent != '?' then 3 else 2);
        k := k + 1;
      } else {
        cursor := 0;
        firstMatch := 0;
        k := 0;
      }
      position := position + 1;
    }
    return 0;
  }

  /** What the loop needs to know about the cursor: while the text from the
      cursor on parses to the tokens still to match, the character there
      decides the current token, its acceptance test and the next cursor. */
  lemma CursorStep(p: string, cursor: nat, pat: Parsed, k: nat)
    requires k <= |pat.tokens|
    requires ParseFrom(p, cursor) == Parsed(pat.tokens[k..], pat.deferred)
    requires CharAt(p, cursor) != '\0'
    ensures k < |pat.tokens| && pat.tokens[k] == TokenAt(p, cursor)
    ensures forall b: Byte :: Accepts(pat.tokens[k], b) <==>
      (CharAt(p, cursor) == '?' || b == GetByte(CharAt(p, cursor), CharAt(p, cursor + 1)))
    ensures CharAt(p, cursor + 2) == '\0' ==> k + 1 == |pat.tokens| && !pat.deferred
    ensures CharAt(p, cursor + 2) != '\0' ==>
      ParseFrom(p, Advance(p, cursor)) == Parsed(pat.tokens[k + 1..], pat.deferred)
  {
    assert pat.tokens[k..][0] == pat.tokens[k];
    if CharAt(p, cursor + 2) != '\0' {
      assert pat.tokens[k..][1..] == pat.tokens[k + 1..];
    }
  }

  /** One iteration of the scan loop is one step of `Run`. */
  lemma LoopStep(mem: Memory, end: Addr, p: string, pat: Parsed, cursor: nat, position: Addr, k: nat, first: Addr)
    requires pat == Parse(p)
    requires position < end && k <= |pat.tokens| && Readable(mem, position, end)
    requires ParseFrom(p, cursor) == Parsed(pat.tokens[k..], pat.deferred)
    requires CharAt(p, cursor) != '\0'
    ensures k < |pat.tokens|
    ensures var c := CharAt(p, cursor);
      var f := if first == 0 then position else first;
      var before := Run(mem, end, pat, position, k, first);
      if c == '?' || mem[position] == GetByte(c, CharAt(p, cursor + 1)) then
        if CharAt(p, cursor + 2) == '\0' then before == f
        else
          before == Run(mem, end, pat, position + 1, k + 1, f) &&
          ParseFrom(p, Advance(p, cursor)) == Parsed(pat.tokens[k + 1..], pat.deferred)
      else
        before == Run(mem, end, pat, position + 1, 0, 0) &&
        ParseFrom(p, 0) == Parsed(pat.tokens[0..], pat.deferred)
  {
    CursorStep(p, cursor, pat, k);
    assert pat.tokens[0..] == pat.tokens;
  }

  /** Soundness of the automaton: while the current attempt started at a
      non-zero address and has matched its first k tokens, any non-zero result
      is an address from which every token accepts its byte, inside the
      range. */
  lemma {:induction false} RunSound(mem: Memory, end: Addr, pat: Parsed, pos: Addr, k: nat, first: Addr)
    requires k <= |pat.tokens| && Readable(mem, pos, end)
    requires pos - k > 0
    requires k == 0 ==> first == 0
    requires k > 0 ==> first == pos - k && MatchesAt(mem, first, pat.tokens[..k])
    ensures var r := Run(mem, end, pat, pos, k, first);
      r != 0 ==> pos - k <= r && r + |pat.tokens| <= end && MatchesAt(mem, r, pat.tokens)
    decreases end - pos
  {
    if pos >= end {
    } else if k == |pat.tokens| {
      assert pat.tokens[..k] == pat.tokens;
    } else if Accepts(pat.tokens[k], mem[pos]) {
      var f := if first == 0 then pos else first;
      assert f == pos - k;
      var done := pat.tokens[..k];
      var more := pat.tokens[..k + 1];
      assert MatchesAt(mem, f, more) by {
        forall i | 0 <= i < k + 1
          ensures AcceptsAt(mem, f, more, i)
        {
          if i < k {
            assert AcceptsAt(mem, f, done, i);
          }
        }
      }
      if k + 1 == |pat.tokens| && !pat.deferred {
        assert pat.tokens[..k + 1] == pat.tokens;
      } else {
        RunSound(mem, end, pat, pos + 1, k + 1, f);
      }
    } else {
      RunSound(mem, end, pat, pos + 1, 0, 0);
    }
  }

  /** A non-zero result r from a non-zero start lies in the range and the
      whole pattern matches there, one token per consecutive byte. */
  ghost predicate FoundInside(mem: Memory, start: Addr, end: Addr, pattern: Option<string>, r: Addr)
  {
    r != 0 && start > 0 ==>
      pattern.Some? && start <= r && r + |Parse(pattern.value).tokens| <= end &&
      MatchesAt(mem, r, Parse(pattern.value).tokens)
  }

  /** Every result of the scan is sound in the sense of `FoundInside`. */
  lemma ScanSound(mem: Memory, start: Addr, end: Addr, pattern: Option<string>)
    requires Readable(mem, start, end)
    ensures FoundInside(mem, start, end, pattern, ScanSpec(mem, start, end, pattern))
  {
    if pattern.Some? && start < end && start > 0 {
      RunSound(mem, end, Parse(pattern.value), start, 0, 0);
    }
  }

  // ---- Writing patterns: the partner the parser is checked against ----

  /** A token as written: `?`, or two upper-case hex digits. */
  function FormatToken(t: Token): (s: string)
    ensures |s| == (if t.Wildcard? then 1 else 2) && s[0] != '\0' && s[0] != ' '
  {
    match t
    case Wildcard => "?"
    case Exact(b) => HexPair(b, true)
  }

  /** Tokens written out separated by single spaces, as in
      `48 8B ? 88 00 00 00 E8`. */
  function FormatPattern(t: seq<Token>): (s: string)
    ensures t != [] ==> |s| > 0 && s[0] != '\0' && s[0] != ' '
  {
    if t == [] then ""
    else if |t| == 1 then FormatToken(t[0])
    else FormatToken(t[0]) + " " + FormatPattern(t[1..])
  }

  /** Round trip: a written pattern walks back into the tokens it was
      written from, and never ends in a deferred step. */
  lemma {:induction false} ParseFormatted(t: seq<Token>)
    requires t != []
    ensures Parse(FormatPattern(t)) == Parsed(t, false)
    decreases |t|
  {
    if |t| == 1 {
      if t[0].Exact? {
        GetByteHexPair(t[0].value, true);
      }
    } else {
      ParseFormatted(t[1..]);
      ParseAfterHead(t[0], FormatPattern(t[1..]));
      assert [t[0]] + t[1..] == t;
    }
  }

  /** A written pattern followed by one more space: after a final hex pair
      the cursor lands on the terminator, so acceptance is deferred to the
      next position; after a final `?` it does not. */
  lemma {:induction false} ParseTrailingSpace(t: seq<Token>)
    requires t != []
    ensures Parse(FormatPattern(t) + " ") == Parsed(t, t[|t| - 1].Exact?)
    decreases |t|
  {
    if |t| == 1 {
      LastTokenTrailingSpace(t[0]);
    } else {
      var rest := FormatPattern(t[1..]) + " ";
      ParseTrailingSpace(t[1..]);
      ParseAfterHead(t[0], rest);
      SplitTrailing(t);
      assert [t[0]] + t[1..] == t;
      assert t[1..][|t[1..]| - 1] == t[|t| - 1];
    }
  }

  lemma SplitTrailing(t: seq<Token>)
    requires |t| > 1
    ensures FormatPattern(t) + " " == FormatToken(t[0]) + " " + (FormatPattern(t[1..]) + " ")
  {
    AppendAssoc(FormatToken(t[0]) + " ", FormatPattern(t[1..]), " ");
  }

  /** After a written token and a space, the walk goes on with `rest`. */
  lemma ParseAfterHead(tok: Token, rest: string)
    requires CharAt(rest, 0) != '\0'
    ensures ParseFrom(FormatToken(tok) + " " + rest, 0) ==
      Parsed([tok] + ParseFrom(rest, 0).tokens, ParseFrom(rest, 0).deferred)
  {
    var a := FormatToken(tok) + " ";
    HeadStep(tok, rest);
    ParseShift(a, rest, 0);
    ConsParse(a + rest);
  }

  /** One written token and a space. */
  lemma LastTokenTrailingSpace(tok: Token)
    ensures Parse(FormatToken(tok) + " ") == Parsed([tok], tok.Exact?)
  {
    var s := FormatToken(tok) + " ";
    HeadStep(tok, []);
    assert s == FormatToken(tok) + " " + [];
    if tok.Exact? {
      assert CharAt(s, 3) == '\0';
    }
  }

  /** A written token and a space in front of `rest`: the cursor at 0
      denotes that token and steps past the space. */
  lemma HeadStep(tok: Token, rest: string)
    ensures var s := FormatToken(tok) + " " + rest;
      TokenAt(s, 0) == tok && CharAt(s, 0) != '\0' && Advance(s, 0) == |FormatToken(tok)| + 1
    ensures var s := FormatToken(tok) + " " + rest;
      tok.Exact? ==> CharAt(s, 2) == ' '
    ensures var s := FormatToken(tok) + " " + rest;
      tok.Wildcard? ==> CharAt(s, 2) == CharAt(rest, 0)
  {
    if tok.Exact? {
      GetByteHexPair(tok.value, true);
    }
  }

  /** `ParseFrom` at 0 when the pattern goes on past the first token. */
  lemma ConsParse(s: string)
    requires CharAt(s, 0) != '\0' && CharAt(s, 2) != '\0'
    ensures ParseFrom(s, 0) ==
      Parsed([TokenAt(s, 0)] + ParseFrom(s, Advance(s, 0)).tokens, ParseFrom(s, Advance(s, 0)).deferred)
  {
  }

  /** The walk over a suffix does not depend on what precedes it. */
  lemma {:induction false} ParseShift(a: string, b: string, i: nat)
    ensures ParseFrom(a + b, |a| + i) == ParseFrom(b, i)
    decreases |b| - i
  {
    var s := a + b;
    assert forall j: nat :: CharAt(s, |a| + j) == CharAt(b, j);
    if CharAt(b, i) != '\0' && CharAt(b, i + 2) != '\0' {
      assert Advance(s, |a| + i) == |a| + Advance(b, i);
      ParseShift(a, b, Advance(b, i));
    }
  }

  /** Soundness in terms of the pattern as written: a non-zero result from a
      non-zero start is the first address of a run of bytes, inside the
      range, that the written tokens accept one by one. */
  lemma FormattedScanSound(mem: Memory, start: Addr, end: Addr, t: seq<Token>)
    requires Readable(mem, start, end) && start > 0 && t != []
    ensures var r := ScanSpec(mem, start, end, Some(FormatPattern(t)));
      r != 0 ==> start <= r && r + |t| <= end && MatchesAt(mem, r, t)
  {
    ParseFormatted(t);
    ScanSound(mem, start, end, Some(FormatPattern(t)));
  }

  /** Completeness at the start of the range for a written pattern: it is
      found there whenever it matches and fits. */
  lemma FormattedMatchAtStart(mem: Memory, start: Addr, end: Addr, t: seq<Token>)
    requires Readable(mem, start, end) && start > 0 && t != []
    requires start + |t| <= end && MatchesAt(mem, start, t)
    ensures ScanSpec(mem, start, end, Some(FormatPattern(t))) == start
  {
    ParseFormatted(t);
    MatchAtStartIsFound(mem, start, end, FormatPattern(t));
  }

  /** From an idle state at a position where the whole pattern matches, with
      room for the walk to complete, the scan reports exactly that position. */
  lemma {:induction false} RunCompletes(mem: Memory, end: Addr, pat: Parsed, s: Addr, k: nat)
    requires 0 < s && |pat.tokens| > 0 && k <= |pat.tokens|
    requires k < |pat.tokens| || pat.deferred
    requires s + |pat.tokens| + (if pat.deferred then 1 else 0) <= end
    requires Readable(mem, s + k, end)
    requires MatchesAt(mem, s, pat.tokens)
    ensures Run(mem, end, pat, s + k, k, if k == 0 then 0 else s) == s
    decreases |pat.tokens| - k
  {
    if k < |pat.tokens| {
      assert AcceptsAt(mem, s, pat.tokens, k);
      if !(k + 1 == |pat.tokens| && !pat.deferred) {
        RunCompletes(mem, end, pat, s, k + 1);
      }
    }
  }

  /** A pattern that matches at the start of the range is found there. */
  lemma MatchAtStartIsFound(mem: Memory, start: Addr, end: Addr, pattern: string)
    requires Readable(mem, start, end) && start > 0
    requires |Parse(pattern).tokens| > 0
    requires start + |Parse(pattern).tokens| + (if Parse(pattern).deferred then 1 else 0) <= end
    requires MatchesAt(mem, start, Parse(pattern).tokens)
    ensures ScanSpec(mem, start, end, Some(pattern)) == start
  {
    RunCompletes(mem, end, Parse(pattern), start, 0);
  }

  /** A pattern made only of wildcards is found at the first address of any
      range long enough to hold it. */
  lemma AllWildcardsFoundAtStart(mem: Memory, start: Addr, end: Addr, pattern: string)
    requires Readable(mem, start, end) && start > 0
    requires |Parse(pattern).tokens| > 0
    requires forall i :: 0 <= i < |Parse(pattern).tokens| ==> Parse(pattern).tokens[i] == Wildcard
    requires start + |Parse(pattern).tokens| + (if Parse(pattern).deferred then 1 else 0) <= end
    ensures ScanSpec(mem, start, end, Some(pattern)) == start
  {
    var tokens := Parse(pattern).tokens;
    assert MatchesAt(mem, start, tokens) by {
      forall i | 0 <= i < |tokens|
        ensures AcceptsAt(mem, start, tokens, i)
      {
        assert start + i < end;
      }
    }
    MatchAtStartIsFound(mem, start, end, pattern);
  }

  /** An attempt that cannot complete before the end of the range yields 0:
      a partial match still open when the position reaches the end is
      discarded, and a restart only needs more room. */
  lemma {:induction false} RunNeedsRoom(mem: Memory, end: Addr, pat: Parsed, pos: Addr, k: nat, first: Addr)
    requires k <= |pat.tokens| && Readable(mem, pos, end)
    requires end - pos < |pat.tokens| - k + (if pat.deferred then 1 else 0)
    ensures Run(mem, end, pat, pos, k, first) == 0
    decreases end - pos
  {
    if pos < end && k < |pat.tokens| {
      var f := if first == 0 then pos else first;
      if Accepts(pat.tokens[k], mem[pos]) {
        RunNeedsRoom(mem, end, pat, pos + 1, k + 1, f);
      } else {
        RunNeedsRoom(mem, end, pat, pos + 1, 0, 0);
      }
    }
  }

  /** A range shorter than the walk of the pattern never yields a match; in
      particular the empty pattern is never found. */
  lemma ShortRangeNotFound(mem: Memory, start: Addr, end: Addr, pattern: string)
    requires Readable(mem, start, end)
    requires end - start < |Parse(pattern).tokens| + (if Parse(pattern).deferred then 1 else 0)
      || Parse(pattern).tokens == []
    ensures ScanSpec(mem, start, end, Some(pattern)) == 0
  {
    if start < end {
      var pat := Parse(pattern);
      if pat.tokens == [] {
        assert Run(mem, end, pat, start, 0, 0) == 0;
      } else {
        RunNeedsRoom(mem, end, pat, start, 0, 0);
      }
    }
  }

  /** Memory holding `bytes` from address `base` on, and nothing else. */
  function LoadAt(base: Addr, bytes: seq<Byte>): (mem: Memory)
    requires base + |bytes| <= ADDRESS_SPACE
    ensures Readable(mem, base, base + |bytes|)
  {
    map a: Addr | Loaded(base, |bytes|, a) :: bytes[a - base]
  }

  predicate Loaded(base: Addr, n: nat, a: Addr)
  {
    base <= a < base + n
  }

  /** `AA ? CC` over 01 AA BB CC 02 is found at offset 1. */
  lemma WildcardScenario()
    ensures ScanSpec(LoadAt(0x10000, [0x01, 0xAA, 0xBB, 0xCC, 0x02]), 0x10000, 0x10005, Some("AA ? CC")) == 0x10001
  {
    var mem := LoadAt(0x10000, [0x01, 0xAA, 0xBB, 0xCC, 0x02]);
    var pat := Parse("AA ? CC");
    assert GetByte('A', 'A') == 0xAA && GetByte('C', 'C') == 0xCC;
    assert pat == Parsed([Exact(0xAA), Wildcard, Exact(0xCC)], false);
    assert Run(mem, 0x10005, pat, 0x10000, 0, 0) == Run(mem, 0x10005, pat, 0x10001, 0, 0);
  }

  /** `AA BB` over AA 01 AA BB: the first full match, at offset 2, wins over
      the earlier partial one. */
  lemma FirstFullMatchScenario()
    ensures ScanSpec(LoadAt(0x10000, [0xAA, 0x01, 0xAA, 0xBB]), 0x10000, 0x10004, Some("AA BB")) == 0x10002
  {
    var mem := LoadAt(0x10000, [0xAA, 0x01, 0xAA, 0xBB]);
    var pat := Parse("AA BB");
    assert GetByte('A', 'A') == 0xAA && GetByte('B', 'B') == 0xBB;
    assert pat == Parsed([Exact(0xAA), Exact(0xBB)], false);
    assert Run(mem, 0x10004, pat, 0x10001, 1, 0x10000) == Run(mem, 0x10004, pat, 0x10002, 0, 0);
  }

  /** The restart is naive: in AA AA BB the second AA is consumed as the
      mismatch for BB and never retried as a start, so `AA BB` is not found
      although it occurs at offset 1. The scan is not a substring search. */
  lemma NaiveRestartMissesOverlap()
    ensures var mem := LoadAt(0x10000, [0xAA, 0xAA, 0xBB]);
      MatchesAt(mem, 0x10001, Parse("AA BB").tokens) &&
      ScanSpec(mem, 0x10000, 0x10003, Some("AA BB")) == 0
  {
    var mem := LoadAt(0x10000, [0xAA, 0xAA, 0xBB]);
    var pat := Parse("AA BB");
    assert GetByte('A', 'A') == 0xAA && GetByte('B', 'B') == 0xBB;
    assert pat == Parsed([Exact(0xAA), Exact(0xBB)], false);
    assert Run(mem, 0x10003, pat, 0x10001, 1, 0x10000) == Run(mem, 0x10003, pat, 0x10002, 0, 0);
  }

  /** Address 0 is also the "no provisional match" value: scanning from
      address 0, a one-token pattern that matches the byte there is reported
      as not found. */
  lemma ZeroStartCollision()
    ensures var mem := LoadAt(0, [0xAA]);
      MatchesAt(mem, 0, Parse("AA").tokens) && ScanSpec(mem, 0, 1, Some("AA")) == 0
  {
    assert GetByte('A', 'A') == 0xAA;
    assert Parse("AA") == Parsed([Exact(0xAA)], false);
  }
}
