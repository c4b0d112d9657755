/** `ExtractSteamFunction`: find a call-site signature in the Steam overlay
    module, then look for the `LEA RDX, [RIP + disp32]` in front of it,
    first seven bytes back and then at every offset from -15 to -3. */
module SteamResolver {
  import opened Machine
  import opened Executable
  import opened Lea
  import opened ModuleScan
  import opened TF2Config

  /** What the resolver reads of the process: the loaded modules, the
      readable memory and the page-protection oracle. */
  datatype Process = Process(modules: ModuleTable, mem: Memory, query: PageQuery)

  const STANDARD_OFFSET: int := -7
  const FALLBACK_FIRST: int := -15
  const FALLBACK_LAST: int := -3

  /** The fallback offsets in the order the loop tries them. */
  function FallbackOffsets(): (r: seq<int>)
    ensures |r| == FALLBACK_LAST - FALLBACK_FIRST + 1
    ensures forall i :: 0 <= i < |r| ==> r[i] == FALLBACK_FIRST + i
  {
    seq(FALLBACK_LAST - FALLBACK_FIRST + 1, i => FALLBACK_FIRST + i)
  }

  /** Every offset the resolver tries, in order. The standard offset is
      tried first and, as it lies in the fallback range, once more there. */
  function SearchOrder(): seq<int>
  {
    [STANDARD_OFFSET] + FallbackOffsets()
  }

  /** The bytes an LEA check at any offset in [-15, -3] reads are mapped. */
  ghost predicate WindowReadable(mem: Memory, patternAddr: Addr)
  {
    forall o :: FALLBACK_FIRST <= o <= FALLBACK_LAST ==> LeaReadable(mem, Offset(patternAddr, o))
  }

  /** The memory the resolver reads for `pattern` can be read: the module
      image it scans, and the LEA window in front of a match. */
  ghost predicate ResolverReadable(proc: Process, pattern: string)
  {
    ImageReadable(proc.modules, proc.mem, Some(STEAM_OVERLAY_DLL)) &&
    var pa := ModuleScanSpec(proc.modules, proc.mem, Some(STEAM_OVERLAY_DLL), Some(pattern));
    pa != 0 ==> WindowReadable(proc.mem, pa)
  }

  /** Each offset in the list can be checked for an LEA. */
  ghost predicate OffsetsReadable(mem: Memory, patternAddr: Addr, offsets: seq<int>)
  {
    forall i :: 0 <= i < |offsets| ==> LeaReadable(mem, Offset(patternAddr, offsets[i]))
  }

  /** The first non-zero extraction over `offsets`, in order, or 0. */
  function FirstDecode(mem: Memory, query: PageQuery, patternAddr: Addr, offsets: seq<int>): (r: Addr)
    requires patternAddr != 0 && OffsetsReadable(mem, patternAddr, offsets)
    ensures r != 0 ==> IsValidExecutableAddress(query, r)
    decreases |offsets|
  {
    if offsets == [] then 0
    else
      var f := ExtractFunctionFromLEA(mem, query, patternAddr, offsets[0]);
      if f != 0 then f
      else
        assert forall i :: 0 <= i < |offsets[1..]| ==> offsets[1..][i] == offsets[i + 1];
        FirstDecode(mem, query, patternAddr, offsets[1..])
  }

  /** `FirstDecode` is 0 exactly when every offset extracts 0, and otherwise
      the extraction at the first offset that does not. */
  lemma {:induction false} FirstDecodeIsFirstSuccess(mem: Memory, query: PageQuery, patternAddr: Addr, offsets: seq<int>)
    requires patternAddr != 0 && OffsetsReadable(mem, patternAddr, offsets)
    ensures var r := FirstDecode(mem, query, patternAddr, offsets);
      r == 0 <==> forall i :: 0 <= i < |offsets| ==> ExtractFunctionFromLEA(mem, query, patternAddr, offsets[i]) == 0
    ensures var r := FirstDecode(mem, query, patternAddr, offsets);
      r != 0 ==> exists i :: 0 <= i < |offsets| && FirstSuccessAt(mem, query, patternAddr, offsets, i, r)
    decreases |offsets|
  {
    if offsets != [] {
      var r := FirstDecode(mem, query, patternAddr, offsets);
      DecodeHead(mem, query, patternAddr, offsets);
      if ExtractFunctionFromLEA(mem, query, patternAddr, offsets[0]) != 0 {
        assert FirstSuccessAt(mem, query, patternAddr, offsets, 0, r);
      } else {
        FirstDecodeIsFirstSuccess(mem, query, patternAddr, offsets[1..]);
        if r != 0 {
          FirstSuccessShift(mem, query, patternAddr, offsets, r);
        }
      }
    }
  }

  /** A first success in the tail, after a failure at the head, is a first
      success of the whole list one place later. */
  lemma FirstSuccessShift(mem: Memory, query: PageQuery, patternAddr: Addr, offsets: seq<int>, r: Addr)
    requires patternAddr != 0 && OffsetsReadable(mem, patternAddr, offsets) && offsets != []
    requires ExtractFunctionFromLEA(mem, query, patternAddr, offsets[0]) == 0
    requires OffsetsReadable(mem, patternAddr, offsets[1..])
    requires exists k :: 0 <= k < |offsets[1..]| && FirstSuccessAt(mem, query, patternAddr, offsets[1..], k, r)
    ensures exists i :: 0 <= i < |offsets| && FirstSuccessAt(mem, query, patternAddr, offsets, i, r)
  {
    var k :| 0 <= k < |offsets[1..]| && FirstSuccessAt(mem, query, patternAddr, offsets[1..], k, r);
    assert FirstSuccessAt(mem, query, patternAddr, offsets, k + 1, r);
  }

  /** Offset `offsets[i]` yields `r`, and every earlier offset yields 0. */
  ghost predicate FirstSuccessAt(mem: Memory, query: PageQuery, patternAddr: Addr, offsets: seq<int>, i: nat, r: Addr)
    requires patternAddr != 0 && OffsetsReadable(mem, patternAddr, offsets) && i < |offsets|
  {
    ExtractFunctionFromLEA(mem, query, patternAddr, offsets[i]) == r &&
    forall j :: 0 <= j < i ==> ExtractFunctionFromLEA(mem, query, patternAddr, offsets[j]) == 0
  }

  /** Where the signature is found, or 0. */
  function PatternAddress(proc: Process, pattern: string): Addr
    requires ImageReadable(proc.modules, proc.mem, Some(STEAM_OVERLAY_DLL))
  {
    ModuleScanSpec(proc.modules, proc.mem, Some(STEAM_OVERLAY_DLL), Some(pattern))
  }

  lemma SearchOrderReadable(mem: Memory, patternAddr: Addr)
    requires WindowReadable(mem, patternAddr)
    ensures OffsetsReadable(mem, patternAddr, SearchOrder())
    ensures OffsetsReadable(mem, patternAddr, FallbackOffsets())
  {
    var order := SearchOrder();
    forall i | 0 <= i < |order|
      ensures LeaReadable(mem, Offset(patternAddr, order[i]))
    {
      assert FALLBACK_FIRST <= order[i] <= FALLBACK_LAST;
    }
  }

  /** What `ExtractSteamFunction` returns: the first decode over the search
      order when the signature is found and the result is valid executable
      memory, otherwise 0. */
  function Resolve(proc: Process, pattern: string): Addr
    requires ResolverReadable(proc, pattern)
  {
    var pa := PatternAddress(proc, pattern);
    if pa == 0 then 0
    else
      SearchOrderReadable(proc.mem, pa);
      var f := FirstDecode(proc.mem, proc.query, pa, SearchOrder());
      if f != 0 && IsValidExecutableAddress(proc.query, f) then f else 0
  }

  /** `ExtractSteamFunction(pattern, patternName)`; the name only feeds the
      log. */
  method ExtractSteamFunction(proc: Process, pattern: string) returns (r: Addr)
    requires ResolverReadable(proc, pattern)
    ensures r == Resolve(proc, pattern)
  {
    var patternAddr := FindPatternInModule(proc.modules, proc.mem, Some(STEAM_OVERLAY_DLL), Some(pattern));
    if patternAddr == 0 {
      return 0;
    }
    SearchOrderReadable(proc.mem, patternAddr);
    var functionAddr := ExtractFunctionFromLEA(proc.mem, proc.query, patternAddr, STANDARD_OFFSET);
    if functionAddr == 0 {
      functionAddr := TryFallbackOffsets(proc.mem, proc.query, patternAddr);
    }
    DecodeHead(proc.mem, proc.query, patternAddr, SearchOrder());
    assert SearchOrder()[1..] == FallbackOffsets();
    if functionAddr != 0 && IsValidExecutableAddress(proc.query, functionAddr) {
      return functionAddr;
    }
    return 0;
  }

  /** The fallback loop: offsets -15 to -3 in turn, stopping at the first
      non-zero extraction. */
  method TryFallbackOffsets(mem: Memory, query: PageQuery, patternAddr: Addr) returns (functionAddr: Addr)
    requires patternAddr != 0 && WindowReadable(mem, patternAddr)
    ensures OffsetsReadable(mem, patternAddr, FallbackOffsets())
    ensures functionAddr == FirstDecode(mem, query, patternAddr, FallbackOffsets())
  {
    SearchOrderReadable(mem, patternAddr);
    ghost var fallback := FallbackOffsets();
    functionAddr := 0;
    var offset := FALLBACK_FIRST;
    while offset <= FALLBACK_LAST
      invariant FALLBACK_FIRST <= offset <= FALLBACK_LAST + 1
      invariant functionAddr == 0
      invariant OffsetsReadable(mem, patternAddr, fallback[offset - FALLBACK_FIRST..])
      invariant FirstDecode(mem, query, patternAddr, fallback) ==
                FirstDecode(mem, query, patternAddr, fallback[offset - FALLBACK_FIRST..])
    {
      ghost var rest := fallback[offset - FALLBACK_FIRST..];
      DecodeHead(mem, query, patternAddr, rest);
      assert rest[0] == offset && rest[1..] == fallback[offset - FALLBACK_FIRST + 1..];
      functionAddr := ExtractFunctionFromLEA(mem, query, patternAddr, offset);
      if functionAddr != 0 {
        return;
      }
      offset := offset + 1;
    }
  }

  /** One step of `FirstDecode`. */
  lemma DecodeHead(mem: Memory, query: PageQuery, patternAddr: Addr, offsets: seq<int>)
    requires patternAddr != 0 && OffsetsReadable(mem, patternAddr, offsets) && offsets != []
    ensures OffsetsReadable(mem, patternAddr, offsets[1..])
    ensures var f := ExtractFunctionFromLEA(mem, query, patternAddr, offsets[0]);
      FirstDecode(mem, query, patternAddr, offsets) ==
        if f != 0 then f else FirstDecode(mem, query, patternAddr, offsets[1..])
  {
    assert forall i :: 0 <= i < |offsets[1..]| ==> offsets[1..][i] == offsets[i + 1];
  }

  /** The final validity check never rejects anything: every decode the
      search returns already passed it. */
  lemma RevalidationRedundant(proc: Process, pattern: string)
    requires ResolverReadable(proc, pattern)
    ensures var pa := PatternAddress(proc, pattern);
      pa != 0 ==> (OffsetsReadable(proc.mem, pa, SearchOrder()) &&
                   Resolve(proc, pattern) == FirstDecode(proc.mem, proc.query, pa, SearchOrder()))
  {
    var pa := PatternAddress(proc, pattern);
    if pa != 0 {
      SearchOrderReadable(proc.mem, pa);
    }
  }

  /** A non-zero result comes from a found signature and the first offset,
      in search order, whose bytes are the LEA and whose target is valid
      executable memory; it is that LEA's target. */
  lemma {:induction false} ResolveSound(proc: Process, pattern: string)
    requires ResolverReadable(proc, pattern)
    ensures var r := Resolve(proc, pattern); var pa := PatternAddress(proc, pattern);
      r != 0 ==>
        pa != 0 && IsValidExecutableAddress(proc.query, r) &&
        OffsetsReadable(proc.mem, pa, SearchOrder()) &&
        exists i :: 0 <= i < |SearchOrder()| && FirstSuccessAt(proc.mem, proc.query, pa, SearchOrder(), i, r)
    ensures PatternAddress(proc, pattern) == 0 ==> Resolve(proc, pattern) == 0
  {
    RevalidationRedundant(proc, pattern);
    var pa := PatternAddress(proc, pattern);
    if pa != 0 {
      FirstDecodeIsFirstSuccess(proc.mem, proc.query, pa, SearchOrder());
    }
  }

  /** The standard offset wins whenever it decodes. */
  lemma StandardOffsetFirst(proc: Process, pattern: string)
    requires ResolverReadable(proc, pattern)
    requires PatternAddress(proc, pattern) != 0
    ensures LeaReadable(proc.mem, Offset(PatternAddress(proc, pattern), STANDARD_OFFSET))
    ensures var pa := PatternAddress(proc, pattern);
      var f := ExtractFunctionFromLEA(proc.mem, proc.query, pa, STANDARD_OFFSET);
      f != 0 ==> Resolve(proc, pattern) == f
  {
    var pa := PatternAddress(proc, pattern);
    SearchOrderReadable(proc.mem, pa);
    assert SearchOrder()[0] == STANDARD_OFFSET;
  }

  /** When no offset decodes, the resolver reports failure. */
  lemma NoLeaNoFunction(proc: Process, pattern: string)
    requires ResolverReadable(proc, pattern)
    requires var pa := PatternAddress(proc, pattern);
      pa != 0 ==> forall o :: FALLBACK_FIRST <= o <= FALLBACK_LAST ==> !HasLeaPrefix(proc.mem, Offset(pa, o))
    ensures Resolve(proc, pattern) == 0
  {
    var pa := PatternAddress(proc, pattern);
    if pa != 0 {
      SearchOrderReadable(proc.mem, pa);
      var order := SearchOrder();
      forall i | 0 <= i < |order|
        ensures ExtractFunctionFromLEA(proc.mem, proc.query, pa, order[i]) == 0
      {
        assert FALLBACK_FIRST <= order[i] <= FALLBACK_LAST;
      }
      FirstDecodeIsFirstSuccess(proc.mem, proc.query, pa, order);
    }
  }
}
