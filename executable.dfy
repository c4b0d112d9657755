/** Page-protection checks: the executable-address validator of the scanner
    header and the gate the hook wrapper applies before creating a hook. */
module Executable {
  import opened Machine

  /** The three protection flags both checks accept (winnt.h values). */
  const PAGE_EXECUTE: bv32 := 0x10
  const PAGE_EXECUTE_READ: bv32 := 0x20
  const PAGE_EXECUTE_READWRITE: bv32 := 0x40
  /** Executable copy-on-write pages: not among the accepted flags. */
  const PAGE_EXECUTE_WRITECOPY: bv32 := 0x80

  const EXECUTE_MASK: bv32 := PAGE_EXECUTE | PAGE_EXECUTE_READ | PAGE_EXECUTE_READWRITE

  /** `VirtualQuery` as an oracle: an address that is a key is one the query
      succeeds for, and its value is the `Protect` field it reports. */
  type PageQuery = map<Addr, bv32>

  predicate HasFlag(protect: bv32, flag: bv32)
  {
    protect & flag != 0
  }

  /** `(Protect & (PAGE_EXECUTE | PAGE_EXECUTE_READ | PAGE_EXECUTE_READWRITE)) != 0`. */
  function ExecuteProtection(protect: bv32): (ok: bool)
    ensures ok <==> HasFlag(protect, PAGE_EXECUTE) || HasFlag(protect, PAGE_EXECUTE_READ) ||
                    HasFlag(protect, PAGE_EXECUTE_READWRITE)
  {
    MaskSplits(protect);
    protect & EXECUTE_MASK != 0
  }

  lemma MaskSplits(p: bv32)
    ensures p & EXECUTE_MASK != 0 <==>
      p & PAGE_EXECUTE != 0 || p & PAGE_EXECUTE_READ != 0 || p & PAGE_EXECUTE_READWRITE != 0
  {
  }

  /** `IsValidExecutableAddress`: nonzero, outside the first 64 KiB, the
      query succeeds, and the page is executable. */
  function IsValidExecutableAddress(query: PageQuery, address: Addr): (ok: bool)
    ensures ok <==>
      address != 0 && MIN_VALID_ADDRESS <= address && address in query &&
      ExecuteProtection(query[address])
  {
    if address == 0 || address < MIN_VALID_ADDRESS then false
    else if address !in query then false
    else ExecuteProtection(query[address])
  }

  /** The hook wrapper's check on the target: the query succeeds and the page
      is executable. It has no lower-address bound of its own. */
  predicate PassesHookGate(query: PageQuery, target: Addr)
  {
    target in query && ExecuteProtection(query[target])
  }

  /** An address the validator accepts always passes the hook gate, so a
      resolved function is never refused by the wrapper for its protection. */
  lemma ValidatedPassesHookGate(query: PageQuery, address: Addr)
    requires IsValidExecutableAddress(query, address)
    ensures PassesHookGate(query, address)
  {
  }

  /** The gate is strictly weaker: a low address the validator refuses can
      still pass the wrapper's gate. */
  lemma HookGateAcceptsLowAddress()
    ensures var q: PageQuery := map[0x1000 := PAGE_EXECUTE_READ];
      PassesHookGate(q, 0x1000) && !IsValidExecutableAddress(q, 0x1000)
  {
  }

  /** An executable copy-on-write page alone is refused. */
  lemma WriteCopyRefused()
    ensures !ExecuteProtection(PAGE_EXECUTE_WRITECOPY)
  {
  }
}
