/** Decoding the `LEA RDX, [RIP + disp32]` instruction that precedes the
    Steam overlay's call sites, and the function address it loads. The
    encoding follows the Intel 64 and IA-32 Architectures Software
    Developer's Manual, Volume 2A: the REX prefix (section 2.2.1), ModR/M
    (section 2.1.3) and RIP-relative addressing (section 2.2.1.6). */
module Lea {
  import opened Machine
  import opened Executable

  /** 2^31 and 2^32: the bounds of an `int32_t` displacement. */
  const TWO_31: int := 0x8000_0000
  const TWO_32: int := 0x1_0000_0000

  /** Length of `48 8D 15 disp32`: the displacement is relative to the
      address just past it. */
  const LEA_LENGTH: int := 7

  const REX_W: int := 0x48
  const LEA_OPCODE: int := 0x8D
  const MODRM_RDX_RIP: int := 0x15

  type Int32 = d: int | -TWO_31 <= d < TWO_31

  /** The byte `j` places past `addr`. */
  function ByteAt(mem: Memory, addr: Addr, j: int): Byte
    requires Offset(addr, j) in mem
  {
    mem[Offset(addr, j)]
  }

  /** A REX prefix with W set and R, X, B clear, the LEA opcode, and a ModR/M
      byte with mod 00, reg 010 (RDX) and r/m 101 (RIP + disp32 in 64-bit
      mode). */
  predicate IsLeaRdxRipRelative(rex: Byte, opcode: Byte, modrm: Byte)
  {
    rex / 16 == 4 && (rex / 8) % 2 == 1 && rex % 8 == 0 &&
    opcode == LEA_OPCODE &&
    modrm / 64 == 0 && (modrm / 8) % 8 == 2 && modrm % 8 == 5
  }

  /** The three bytes the extractor compares against are exactly that
      instruction form, and no other byte triple is. */
  lemma LeaBytesAreRdxRipRelative(rex: Byte, opcode: Byte, modrm: Byte)
    ensures IsLeaRdxRipRelative(rex, opcode, modrm) <==>
      rex == REX_W && opcode == LEA_OPCODE && modrm == MODRM_RDX_RIP
  {
  }

  /** The reads the prefix comparison makes, which stop at the first byte
      that differs (`&&` short-circuits), and the displacement read when all
      three match. */
  ghost predicate LeaReadable(mem: Memory, lea: Addr)
  {
    && Offset(lea, 0) in mem
    && (ByteAt(mem, lea, 0) == REX_W ==>
          && Offset(lea, 1) in mem
          && (ByteAt(mem, lea, 1) == LEA_OPCODE ==>
                && Offset(lea, 2) in mem
                && (ByteAt(mem, lea, 2) == MODRM_RDX_RIP ==> Mapped(mem, lea, LEA_LENGTH))))
  }

  predicate HasLeaPrefix(mem: Memory, lea: Addr)
    requires LeaReadable(mem, lea)
  {
    ByteAt(mem, lea, 0) == REX_W && ByteAt(mem, lea, 1) == LEA_OPCODE &&
    ByteAt(mem, lea, 2) == MODRM_RDX_RIP
  }

  /** Little-endian unsigned value of four bytes. */
  function Le32(b0: Byte, b1: Byte, b2: Byte, b3: Byte): (v: nat)
    ensures v < TWO_32
  {
    b0 + 256 * b1 + 65536 * b2 + 16777216 * b3
  }

  /** Two's-complement reinterpretation as `int32_t`. */
  function Signed32(v: nat): (d: Int32)
    requires v < TWO_32
    ensures d == v || d == v - TWO_32
  {
    if v < TWO_31 then v else v - TWO_32
  }

  /** `*reinterpret_cast<int32_t*>(leaAddr + 3)`. */
  function Displacement(mem: Memory, lea: Addr): Int32
    requires LeaReadable(mem, lea) && HasLeaPrefix(mem, lea)
  {
    Signed32(Le32(ByteAt(mem, lea, 3), ByteAt(mem, lea, 4), ByteAt(mem, lea, 5), ByteAt(mem, lea, 6)))
  }

  /** `(uintptr_t)(leaAddr + 7) + relativeOffset`, the sign-extended
      displacement added modulo 2^64. */
  function LeaTarget(mem: Memory, lea: Addr): Addr
    requires LeaReadable(mem, lea) && HasLeaPrefix(mem, lea)
  {
    Offset(Offset(lea, LEA_LENGTH), Displacement(mem, lea))
  }

  /** `ExtractFunctionFromLEA(patternAddr, leaOffset)`: the address the LEA
      at `patternAddr + leaOffset` loads when the bytes there are that LEA
      and the target is valid executable memory, otherwise 0. */
  function ExtractFunctionFromLEA(mem: Memory, query: PageQuery, patternAddr: Addr, leaOffset: int): (r: Addr)
    requires patternAddr != 0 ==> LeaReadable(mem, Offset(patternAddr, leaOffset))
    ensures patternAddr == 0 ==> r == 0
    ensures r != 0 ==>
      var lea := Offset(patternAddr, leaOffset);
      HasLeaPrefix(mem, lea) && r == Offset(lea, LEA_LENGTH + Displacement(mem, lea)) &&
      IsValidExecutableAddress(query, r)
    ensures (patternAddr != 0 && HasLeaPrefix(mem, Offset(patternAddr, leaOffset)) &&
             IsValidExecutableAddress(query, LeaTarget(mem, Offset(patternAddr, leaOffset)))) ==> r != 0
  {
    if patternAddr == 0 then 0
    else
      var lea := Offset(patternAddr, leaOffset);
      if HasLeaPrefix(mem, lea) then
        var target := LeaTarget(mem, lea);
        OffsetAdd(lea, LEA_LENGTH, Displacement(mem, lea));
        if IsValidExecutableAddress(query, target) then target else 0
      else 0
  }

  // ---- The encoder: the partner the decoder is checked against ----

  /** The four little-endian bytes of a displacement. */
  function EncodeDisp(d: Int32): (bytes: seq<Byte>)
    ensures |bytes| == 4
  {
    var u := if d < 0 then d + TWO_32 else d;
    [u % 256, (u / 256) % 256, (u / 65536) % 256, u / 16777216]
  }

  /** `LEA RDX, [RIP + d]` as the seven bytes an assembler emits. */
  function EncodeLeaRdx(d: Int32): (bytes: seq<Byte>)
    ensures |bytes| == LEA_LENGTH
  {
    [REX_W, LEA_OPCODE, MODRM_RDX_RIP] + EncodeDisp(d)
  }

  /** Decoding an encoded displacement gives it back. */
  lemma {:induction false} DecodeEncodeDisp(d: Int32)
    ensures var b := EncodeDisp(d); Signed32(Le32(b[0], b[1], b[2], b[3])) == d
  {
    var u := if d < 0 then d + TWO_32 else d;
    var b := EncodeDisp(d);
    ByteDigits(u);
    assert Le32(b[0], b[1], b[2], b[3]) == u;
  }

  /** Encoding the decoding of any four bytes gives them back. */
  lemma {:induction false} EncodeDecodeDisp(b0: Byte, b1: Byte, b2: Byte, b3: Byte)
    ensures EncodeDisp(Signed32(Le32(b0, b1, b2, b3))) == [b0, b1, b2, b3]
  {
    var v := Le32(b0, b1, b2, b3);
    var d := Signed32(v);
    assert (if d < 0 then d + TWO_32 else d) == v;
    DigitsOfLe32(b0, b1, b2, b3);
  }

  lemma ByteDigits(u: nat)
    requires u < TWO_32
    ensures u % 256 + 256 * ((u / 256) % 256) + 65536 * ((u / 65536) % 256) + 16777216 * (u / 16777216) == u
  {
  }

  lemma DigitsOfLe32(b0: Byte, b1: Byte, b2: Byte, b3: Byte)
    ensures var u := Le32(b0, b1, b2, b3);
      u % 256 == b0 && (u / 256) % 256 == b1 && (u / 65536) % 256 == b2 && u / 16777216 == b3
  {
    var u := Le32(b0, b1, b2, b3);
    assert u == b0 + 256 * (b1 + 256 * (b2 + 256 * b3));
    assert u / 256 == b1 + 256 * (b2 + 256 * b3);
    assert u / 65536 == (u / 256) / 256;
    assert u / 16777216 == (u / 65536) / 256;
  }

  /** Memory holds `bytes` from `addr` onwards. */
  ghost predicate Holds(mem: Memory, addr: Addr, bytes: seq<Byte>)
  {
    forall j :: 0 <= j < |bytes| ==> Offset(addr, j) in mem && mem[Offset(addr, j)] == bytes[j]
  }

  /** Where an assembler placed `LEA RDX, [RIP + d]`, the decoder recognises
      the instruction and computes the address just past it plus `d`. */
  lemma {:induction false} DecodeEncodedLea(mem: Memory, lea: Addr, d: Int32)
    requires Holds(mem, lea, EncodeLeaRdx(d))
    ensures LeaReadable(mem, lea) && HasLeaPrefix(mem, lea)
    ensures Displacement(mem, lea) == d
    ensures LeaTarget(mem, lea) == Offset(lea, LEA_LENGTH + d)
  {
    var bytes := EncodeLeaRdx(d);
    forall j | 0 <= j < LEA_LENGTH
      ensures Offset(lea, j) in mem && ByteAt(mem, lea, j) == bytes[j]
    {
    }
    assert Mapped(mem, lea, LEA_LENGTH);
    DecodeEncodeDisp(d);
    OffsetAdd(lea, LEA_LENGTH, d);
  }

  /** Extraction through an encoded LEA: the pattern address minus seven
      holding `LEA RDX, [RIP + d]` yields the pattern address plus `d`
      whenever that address is valid executable memory, and 0 otherwise. */
  lemma {:induction false} ExtractEncodedLea(mem: Memory, query: PageQuery, patternAddr: Addr, d: Int32)
    requires patternAddr != 0
    requires Holds(mem, Offset(patternAddr, -LEA_LENGTH), EncodeLeaRdx(d))
    ensures LeaReadable(mem, Offset(patternAddr, -LEA_LENGTH))
    ensures var target := Offset(patternAddr, d);
      ExtractFunctionFromLEA(mem, query, patternAddr, -LEA_LENGTH) ==
        if IsValidExecutableAddress(query, target) then target else 0
  {
    var lea := Offset(patternAddr, -LEA_LENGTH);
    DecodeEncodedLea(mem, lea, d);
    OffsetAdd(patternAddr, -LEA_LENGTH, LEA_LENGTH + d);
  }
}
