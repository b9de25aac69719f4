/** Fixed-width machine values and the small datatypes the other modules share. */
module Machine {
  const U64_LIMIT: nat := 0x1_0000_0000_0000_0000
  const U64_MAX: nat := 0xFFFF_FFFF_FFFF_FFFF
  const U32_MAX: nat := 0xFFFF_FFFF

  /** Executable bytes are listed in lazy pages of this size. */
  const CODE_PAGE_BYTES: nat := 4096

  type u64 = x: int | 0 <= x < 0x1_0000_0000_0000_0000
  type u32 = x: int | 0 <= x < 0x1_0000_0000
  type u8 = x: int | 0 <= x < 0x100

  datatype Option<+T> = None | Some(value: T)

  function Min(a: int, b: int): int {
    if a <= b then a else b
  }

  function Max(a: int, b: int): int {
    if a >= b then a else b
  }

  lemma Associate<T>(a: seq<T>, b: seq<T>, c: seq<T>)
    ensures a + (b + c) == (a + b) + c
  {
  }

  lemma SliceOfPrefix<T>(s: seq<T>, n: nat, from: nat, to: nat)
    requires from <= to <= n <= |s|
    ensures s[..n][from..to] == s[from..to]
  {
  }
}

/** Address arithmetic that never wraps the last virtual address back to zero. */
module AddressSpan {
  import opened Machine

  /** The checked sum exists exactly when the mathematical sum is representable. */
  function CheckedAddressAdd(base: u64, offset: u64): (r: Option<u64>)
    ensures r.Some? <==> base + offset < U64_LIMIT
    ensures r.Some? ==> r.value == base + offset
  {
    if offset > U64_MAX - base then None else Some(base + offset)
  }

  function SaturatingAdd(base: u64, offset: u64): (r: u64)
    ensures r == Min(base + offset, U64_MAX)
  {
    if offset > U64_MAX - base then U64_MAX else base + offset
  }

  /** The largest prefix of `requested` bytes at `start` whose addresses all exist. */
  function ClampAddressableBytes(start: u64, requested: u64): (count: u64)
    ensures count == Min(requested, U64_LIMIT - start)
  {
    if requested == 0 || start == 0 then requested
    else
      var room := U64_MAX - start + 1;
      if room < requested then room else requested
  }

  /** Subtractive containment equals containment in the mathematical interval. */
  predicate AddressInSpan(start: u64, byteCount: u64, address: u64)
    ensures AddressInSpan(start, byteCount, address) <==> start <= address < start + byteCount
  {
    byteCount != 0 && address >= start && address - start < byteCount
  }
}
