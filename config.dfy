/** The fixed configuration of the overlay hook: the module it targets, the
    byte signatures of the Present and Reset call sites, and the toggle key. */
module TF2Config {
  import opened Machine
  import opened Hex
  import opened PatternScan

  const STEAM_OVERLAY_DLL: string := "gameoverlayrenderer64.dll"
  const PRESENT_PATTERN: string := "48 8B ? 88 00 00 00 E8"
  const RESET_PATTERN: string := "48 8B ? 80 00 00 00 E8"
  /** `VK_F1`. */
  const OVERLAY_TOGGLE_KEY: int := 0x70

  /** The token sequence of a signature `48 8B ? <b> 00 00 00 E8`. */
  function CallSiteTokens(b: Byte): seq<Token>
  {
    [Exact(0x48), Exact(0x8B), Wildcard, Exact(b), Exact(0x00), Exact(0x00), Exact(0x00), Exact(0xE8)]
  }

  /** Eight tokens, the only wildcard third, the last one the call opcode. */
  predicate CallSiteShape(t: seq<Token>)
  {
    |t| == 8 && t[7] == Exact(0xE8) && forall i :: 0 <= i < |t| ==> (t[i].Wildcard? <==> i == 2)
  }

  /** Both signatures decode to eight tokens with the wildcard third and the
      call opcode `E8` last; they differ only in the fourth byte, the vtable
      slot offset (0x88 for Present, 0x80 for Reset). Neither ends on a
      wildcard, so a match is reported as soon as its last byte is read. */
  lemma ConfigPatternsParse()
    ensures Parse(PRESENT_PATTERN) == Parsed(CallSiteTokens(0x88), false)
    ensures Parse(RESET_PATTERN) == Parsed(CallSiteTokens(0x80), false)
    ensures CallSiteShape(Parse(PRESENT_PATTERN).tokens) && CallSiteShape(Parse(RESET_PATTERN).tokens)
  {
    PresentPatternParse();
    ResetPatternParse();
    CallSiteTokensShape(0x88);
    CallSiteTokensShape(0x80);
  }

  lemma CallSiteTokensShape(b: Byte)
    ensures CallSiteShape(CallSiteTokens(b))
  {
  }

  lemma PresentPatternParse()
    ensures Parse(PRESENT_PATTERN) == Parsed(CallSiteTokens(0x88), false)
  {
    var p := PRESENT_PATTERN;
    assert p[11..20] == "00 00 00 ";
    assert GetByte(p[8], p[9]) == 0x88;
    SignatureParse(p, 0x88);
  }

  lemma ResetPatternParse()
    ensures Parse(RESET_PATTERN) == Parsed(CallSiteTokens(0x80), false)
  {
    var p := RESET_PATTERN;
    assert p[11..20] == "00 00 00 ";
    assert GetByte(p[8], p[9]) == 0x80;
    SignatureParse(p, 0x80);
  }

  /** A signature `48 8B ? <hi><lo> 00 00 00 E8` parses, cursor step by
      cursor step, into `CallSiteTokens`. */
  lemma SignatureParse(p: string, b: Byte)
    requires |p| == 22
    requires p[0] == '4' && p[1] == '8' && p[2] == ' ' && p[3] == '8' && p[4] == 'B' && p[5] == ' '
    requires p[6] == '?' && p[7] == ' ' && IsHexDigit(p[8]) && GetByte(p[8], p[9]) == b && p[10] == ' '
    requires p[11..20] == "00 00 00 " && p[20] == 'E' && p[21] == '8'
    ensures Parse(p) == Parsed(CallSiteTokens(b), false)
  {
    var t := CallSiteTokens(b);
    SignatureTail(p, b);
    ConsStep(p, 6, t, 2);
    TokenExact(p, 3, 0x8B);
    ConsStep(p, 3, t, 1);
    TokenExact(p, 0, 0x48);
    ConsStep(p, 0, t, 0);
    assert t[0..] == t;
  }

  /** The signature from its fourth token on. */
  lemma SignatureTail(p: string, b: Byte)
    requires |p| == 22
    requires IsHexDigit(p[8]) && GetByte(p[8], p[9]) == b && p[10] == ' '
    requires p[11..20] == "00 00 00 " && p[20] == 'E' && p[21] == '8'
    ensures ParseFrom(p, 8) == Parsed(CallSiteTokens(b)[3..], false)
  {
    var t := CallSiteTokens(b);
    assert p[11] == '0' && p[12] == '0' && p[13] == ' ';
    assert p[14] == '0' && p[15] == '0' && p[16] == ' ' && p[17] == '0' && p[18] == '0' && p[19] == ' ';
    CallTail(p, b);
    TokenExact(p, 11, 0);
    ConsStep(p, 11, t, 4);
    TokenExact(p, 8, b);
    ConsStep(p, 8, t, 3);
  }

  /** The last three tokens, `00 00 E8`. */
  lemma CallTail(p: string, b: Byte)
    requires |p| == 22
    requires p[14] == '0' && p[15] == '0' && p[16] == ' ' && p[17] == '0' && p[18] == '0' && p[19] == ' '
    requires p[20] == 'E' && p[21] == '8'
    ensures ParseFrom(p, 14) == Parsed(CallSiteTokens(b)[5..], false)
  {
    var t := CallSiteTokens(b);
    CallOpcode(p);
    assert t[7..] == [Exact(0xE8)];
    TokenExact(p, 17, 0);
    ConsStep(p, 17, t, 6);
    TokenExact(p, 14, 0);
    ConsStep(p, 14, t, 5);
  }

  /** The call opcode `E8` closes the signature. */
  lemma CallOpcode(p: string)
    requires |p| == 22 && p[20] == 'E' && p[21] == '8'
    ensures ParseFrom(p, 20) == Parsed([Exact(0xE8)], false)
  {
    TokenExact(p, 20, 0xE8);
  }

  /** The token at a hex pair is the byte it spells. */
  lemma TokenExact(p: string, i: nat, b: Byte)
    requires i + 1 < |p| && p[i] != '?' && GetByte(p[i], p[i + 1]) == b
    ensures TokenAt(p, i) == Exact(b)
  {
  }

  /** One cursor step of `ParseFrom` when the pattern goes on past it. */
  lemma ConsStep(p: string, i: nat, t: seq<Token>, k: nat)
    requires i + 2 < |p| && p[i] != '\0' && p[i + 2] != '\0'
    requires k < |t| && TokenAt(p, i) == t[k]
    requires ParseFrom(p, Advance(p, i)) == Parsed(t[k + 1..], false)
    ensures ParseFrom(p, i) == Parsed(t[k..], false)
  {
    assert [t[k]] + t[k + 1..] == t[k..];
  }
}
