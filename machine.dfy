/** Machine-level vocabulary shared by every component: bytes, 64-bit
    addresses with uintptr_t wrap-around, and process memory as a map from
    address to byte. */
module Machine {

  datatype Option<+T> = None | Some(value: T)

  /** 2^64: addresses are uintptr_t values on x64. */
  const ADDRESS_SPACE: int := 0x1_0000_0000_0000_0000

  /** Windows never maps the first 64 KiB; both the module scan and the
      executable-address gate refuse anything below this. */
  const MIN_VALID_ADDRESS: int := 0x10000

  type Byte = b: int | 0 <= b < 256

  type Addr = a: int | 0 <= a < ADDRESS_SPACE

  /** Process memory: the bytes that can be read, by address. */
  type Memory = map<Addr, Byte>

  /** uintptr_t arithmetic: the mathematical value reduced modulo 2^64. */
  function Wrap(x: int): (a: Addr)
    ensures 0 <= x < ADDRESS_SPACE ==> a == x
    ensures (a - x) % ADDRESS_SPACE == 0
  {
    x % ADDRESS_SPACE
  }

  /** `addr + delta` on uintptr_t, with a signed delta sign-extended first. */
  function Offset(addr: Addr, delta: int): Addr
  {
    Wrap(addr + delta)
  }

  /** Adding two deltas one after the other is adding their sum. */
  lemma OffsetAdd(addr: Addr, d1: int, d2: int)
    ensures Offset(Offset(addr, d1), d2) == Offset(addr, d1 + d2)
  {
    var x := addr + d1;
    assert Offset(addr, d1) == x % ADDRESS_SPACE;
    assert x % ADDRESS_SPACE + d2 == (x + d2) - (x / ADDRESS_SPACE) * ADDRESS_SPACE;
    ModSubMultiple(x + d2, x / ADDRESS_SPACE);
  }

  lemma ModSubMultiple(y: int, q: int)
    ensures (y - q * ADDRESS_SPACE) % ADDRESS_SPACE == y % ADDRESS_SPACE
  {
  }

  /** Every address in [lo, hi) can be read. */
  ghost predicate Readable(mem: Memory, lo: int, hi: int)
  {
    forall a: Addr :: lo <= a < hi ==> a in mem
  }

  /** The n bytes from addr onwards (with wrap-around) can be read. */
  ghost predicate Mapped(mem: Memory, addr: Addr, n: nat)
  {
    forall j :: 0 <= j < n ==> Offset(addr, j) in mem
  }

  /** Sequence concatenation regroups freely. */
  lemma AppendAssoc<T>(a: seq<T>, b: seq<T>, c: seq<T>)
    ensures a + (b + c) == (a + b) + c
  {
  }
}
