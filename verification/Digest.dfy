/** Cache-identity digests: length-framed byte streams folded through 64-bit FNV-1a. */
module Digest {
  import opened Machine

  const FNV_OFFSET: u64 := 1469598103934665603
  const FNV_PRIME: nat := 1099511628211
  /** FNV_PRIME * FNV_INVERSE is one more than a multiple of 2^64. */
  const FNV_INVERSE: nat := 14886173955864302971

  // ---------------------------------------------------------------------------
  // The hasher.

  /** Exclusive or of the low `bits` bits. */
  function XorBits(x: nat, y: nat, bits: nat): nat {
    if bits == 0 then 0 else (x % 2 + y % 2) % 2 + 2 * XorBits(x / 2, y / 2, bits - 1)
  }

  lemma {:induction false} XorBitsBound(x: nat, y: nat, bits: nat, limit: nat)
    requires bits <= 8 && limit == Power2(bits)
    ensures XorBits(x, y, bits) < limit
  {
    if bits > 0 {
      XorBitsBound(x / 2, y / 2, bits - 1, limit / 2);
    }
  }

  function Power2(n: nat): nat {
    if n == 0 then 1 else 2 * Power2(n - 1)
  }

  lemma SameHalves(p: nat, a: nat, q: nat, b: nat)
    requires p < 2 && q < 2 && p + 2 * a == q + 2 * b
    ensures p == q && a == b
  {
  }

  lemma {:induction false} XorBitsInjective(x: nat, y: nat, z: nat, bits: nat)
    requires y < Power2(bits) && z < Power2(bits) && XorBits(x, y, bits) == XorBits(x, z, bits)
    ensures y == z
  {
    if bits > 0 {
      SameHalves((x % 2 + y % 2) % 2, XorBits(x / 2, y / 2, bits - 1), (x % 2 + z % 2) % 2, XorBits(x / 2, z / 2, bits - 1));
      XorBitsInjective(x / 2, y / 2, z / 2, bits - 1);
    }
  }

  /** One byte folded into the state: exclusive or into its low byte, then a 64-bit multiplication. */
  function Fold(state: u64, value: u8): u64 {
    XorByte(state, value) * FNV_PRIME % U64_LIMIT
  }

  function XorByte(state: u64, value: u8): nat {
    state / 256 * 256 + XorBits(state % 256, value, 8)
  }

  lemma XorByteParts(state: u64, value: u8)
    ensures XorByte(state, value) < U64_LIMIT && XorByte(state, value) / 256 == state / 256
    ensures XorByte(state, value) % 256 == XorBits(state % 256, value, 8)
  {
    hide XorBits;
    XorBitsBound(state % 256, value, 8, 256);
  }

  function Fnv(state: u64, stream: seq<u8>): u64
    decreases |stream|
  {
    if stream == [] then state else Fnv(Fold(state, stream[0]), stream[1..])
  }

  /** An odd multiplier loses nothing modulo 2^64. */
  lemma MultiplyInvertible(x: u64)
    ensures x * FNV_PRIME % U64_LIMIT * FNV_INVERSE % U64_LIMIT == x
  {
    var q, r := x * FNV_PRIME / U64_LIMIT, x * FNV_PRIME % U64_LIMIT;
    assert x * FNV_PRIME == q * U64_LIMIT + r;
    var k := (FNV_PRIME * FNV_INVERSE - 1) / U64_LIMIT;
    assert FNV_PRIME * FNV_INVERSE == k * U64_LIMIT + 1;
    assert r * FNV_INVERSE == (x * k - q * FNV_INVERSE) * U64_LIMIT + x;
    RemainderIs(r * FNV_INVERSE, x * k - q * FNV_INVERSE, x);
  }

  lemma RemainderIs(n: int, q: int, r: u64)
    requires n == q * U64_LIMIT + r
    ensures n % U64_LIMIT == r
  {
  }

  /** For a fixed byte, folding is a bijection on states; for a fixed state, it separates bytes. */
  lemma FoldSeparates(s: u64, t: u64, x: u8, y: u8)
    ensures Fold(s, x) == Fold(t, x) ==> s == t
    ensures Fold(s, x) == Fold(s, y) ==> x == y
  {
    hide XorBits, XorByte;
    assert Power2(8) == 256;
    XorByteParts(s, x);
    XorByteParts(t, x);
    XorByteParts(s, y);
    MultiplyInvertible(XorByte(s, x));
    MultiplyInvertible(XorByte(t, x));
    MultiplyInvertible(XorByte(s, y));
    if Fold(s, x) == Fold(t, x) {
      XorBitsCommute(s % 256, x, 8);
      XorBitsCommute(t % 256, x, 8);
      XorBitsInjective(x, s % 256, t % 256, 8);
    }
    if Fold(s, x) == Fold(s, y) {
      XorBitsInjective(s % 256, x, y, 8);
    }
  }

  lemma {:induction false} XorBitsCommute(x: nat, y: nat, bits: nat)
    ensures XorBits(x, y, bits) == XorBits(y, x, bits)
  {
    if bits > 0 {
      XorBitsCommute(x / 2, y / 2, bits - 1);
    }
  }

  lemma {:induction false} FnvSeparatesStates(s: u64, t: u64, stream: seq<u8>)
    requires s != t
    ensures Fnv(s, stream) != Fnv(t, stream)
    decreases |stream|
  {
    if stream != [] {
      FoldSeparates(s, t, stream[0], stream[0]);
      FnvSeparatesStates(Fold(s, stream[0]), Fold(t, stream[0]), stream[1..]);
    }
  }

  /** Two streams that differ in exactly one byte never share a digest. */
  lemma {:induction false} OneByteChangesDigest(state: u64, before: seq<u8>, x: u8, y: u8, after: seq<u8>)
    requires x != y
    ensures Fnv(state, before + [x] + after) != Fnv(state, before + [y] + after)
    decreases |before|
  {
    if before == [] {
      assert ([] + [x] + after)[1..] == after && ([] + [y] + after)[1..] == after;
      FoldSeparates(state, state, x, y);
      FnvSeparatesStates(Fold(state, x), Fold(state, y), after);
    } else {
      OneByteChangesDigest(Fold(state, before[0]), before[1..], x, y, after);
      assert (before + [x] + after)[1..] == before[1..] + [x] + after;
      assert (before + [y] + after)[1..] == before[1..] + [y] + after;
    }
  }

  lemma {:induction false} FnvAppend(state: u64, a: seq<u8>, b: seq<u8>)
    ensures Fnv(state, a + b) == Fnv(Fnv(state, a), b)
    decreases |a|
  {
    if a == [] {
      assert a + b == b;
    } else {
      FnvAppend(Fold(state, a[0]), a[1..], b);
      assert (a + b)[1..] == a[1..] + b;
    }
  }

  // ---------------------------------------------------------------------------
  // Framing.

  /** A buffer whose length fits a machine word. */
  type Buffer = s: seq<u8> | |s| <= U64_MAX

  /** `n` bytes of `value`, least significant first. */
  function LittleEndian(value: nat, n: nat): (s: seq<u8>)
    ensures |s| == n
    decreases n
  {
    if n == 0 then [] else [value % 256] + LittleEndian(value / 256, n - 1)
  }

  function U64(value: u64): seq<u8> {
    LittleEndian(value, 8)
  }

  /** A variable field: its length, then its bytes. */
  function Frame(data: Buffer): seq<u8> {
    U64(|data|) + data
  }

  function Flag(b: bool): u8 {
    if b then 1 else 0
  }

  lemma {:induction false} LittleEndianInjective(v: nat, w: nat, n: nat)
    requires v < Power2(8 * n) && w < Power2(8 * n)
    requires LittleEndian(v, n) == LittleEndian(w, n)
    ensures v == w
    decreases n
  {
    if n > 0 {
      assert Power2(8 * n) == 256 * Power2(8 * (n - 1)) by { Power2Byte(8 * (n - 1)); }
      assert LittleEndian(v, n)[0] == v % 256 && LittleEndian(w, n)[0] == w % 256;
      assert LittleEndian(v, n)[1..] == LittleEndian(v / 256, n - 1);
      assert LittleEndian(w, n)[1..] == LittleEndian(w / 256, n - 1);
      LittleEndianInjective(v / 256, w / 256, n - 1);
    }
  }

  lemma Power2Byte(n: nat)
    ensures Power2(n + 8) == 256 * Power2(n)
  {
    assert Power2(n + 2) == 4 * Power2(n);
    assert Power2(n + 4) == 4 * Power2(n + 2);
    assert Power2(n + 6) == 4 * Power2(n + 4);
    assert Power2(n + 8) == 4 * Power2(n + 6);
  }

  lemma PrefixOfEqualLength(a: seq<u8>, r: seq<u8>, b: seq<u8>, t: seq<u8>)
    requires a + r == b + t && |a| == |b|
    ensures a == b && r == t
  {
    assert a == (a + r)[..|a|] && b == (b + t)[..|b|];
    assert r == (a + r)[|a|..] && t == (b + t)[|b|..];
  }

  lemma U64PrefixFree(v: u64, r: seq<u8>, w: u64, t: seq<u8>)
    requires U64(v) + r == U64(w) + t
    ensures v == w && r == t
  {
    PrefixOfEqualLength(U64(v), r, U64(w), t);
    assert Power2(64) == U64_LIMIT by {
      Power2Byte(0); Power2Byte(8); Power2Byte(16); Power2Byte(24);
      Power2Byte(32); Power2Byte(40); Power2Byte(48); Power2Byte(56);
    }
    LittleEndianInjective(v, w, 8);
  }

  /** Length prefixes keep adjacent variable fields apart. */
  lemma FramePrefixFree(a: Buffer, r: seq<u8>, b: Buffer, t: seq<u8>)
    requires Frame(a) + r == Frame(b) + t
    ensures a == b && r == t
  {
    hide LittleEndian;
    assert U64(|a|) + (a + r) == U64(|b|) + (b + t) by {
      assert Frame(a) + r == U64(|a|) + (a + r);
      assert Frame(b) + t == U64(|b|) + (b + t);
    }
    U64PrefixFree(|a|, a + r, |b|, b + t);
    PrefixOfEqualLength(a, r, b, t);
  }

  // ---------------------------------------------------------------------------
  // Patch history.

  datatype Patch = Patch(address: u64, orig: Buffer, bytes: Buffer, patchSetId: u64)
  {
    /** What the digest binds: everything but the presentation group. */
    function Hashed(): Patch {
      this.(patchSetId := 0)
    }
  }

  /** A patch's record is its position, its address and its two framed byte strings. */
  function PatchRecord(ordinal: u64, p: Patch): seq<u8> {
    U64(ordinal) + (U64(p.address) + (Frame(p.orig) + Frame(p.bytes)))
  }

  function PatchRecords(ps: seq<Patch>, ordinal: nat): seq<u8>
    requires ordinal + |ps| <= U64_MAX
    decreases |ps|
  {
    if ps == [] then [] else PatchRecord(ordinal, ps[0]) + PatchRecords(ps[1..], ordinal + 1)
  }

  function PatchStream(ps: seq<Patch>): seq<u8>
    requires |ps| <= U64_MAX
  {
    U64(|ps|) + PatchRecords(ps, 0)
  }

  lemma PatchRecordPrefixFree(n: u64, p: Patch, r: seq<u8>, q: Patch, t: seq<u8>)
    requires PatchRecord(n, p) + r == PatchRecord(n, q) + t
    ensures p.Hashed() == q.Hashed() && r == t
  {
    hide U64, Frame;
    Regroup(U64(n), U64(p.address), Frame(p.orig), Frame(p.bytes), r);
    Regroup(U64(n), U64(q.address), Frame(q.orig), Frame(q.bytes), t);
    U64PrefixFree(n, U64(p.address) + (Frame(p.orig) + (Frame(p.bytes) + r)),
                  n, U64(q.address) + (Frame(q.orig) + (Frame(q.bytes) + t)));
    U64PrefixFree(p.address, Frame(p.orig) + (Frame(p.bytes) + r), q.address, Frame(q.orig) + (Frame(q.bytes) + t));
    FramePrefixFree(p.orig, Frame(p.bytes) + r, q.orig, Frame(q.bytes) + t);
    FramePrefixFree(p.bytes, r, q.bytes, t);
  }

  lemma Regroup(a: seq<u8>, b: seq<u8>, c: seq<u8>, d: seq<u8>, r: seq<u8>)
    ensures (a + (b + (c + d))) + r == a + (b + (c + (d + r)))
  {
  }

  lemma {:induction false} PatchRecordsInjective(ps: seq<Patch>, qs: seq<Patch>, ordinal: nat)
    requires |ps| == |qs| && ordinal + |ps| <= U64_MAX
    requires PatchRecords(ps, ordinal) == PatchRecords(qs, ordinal)
    ensures forall k :: 0 <= k < |ps| ==> ps[k].Hashed() == qs[k].Hashed()
    decreases |ps|
  {
    hide PatchRecord;
    if ps != [] {
      PatchRecordPrefixFree(ordinal, ps[0], PatchRecords(ps[1..], ordinal + 1), qs[0], PatchRecords(qs[1..], ordinal + 1));
      PatchRecordsInjective(ps[1..], qs[1..], ordinal + 1);
      assert forall k :: 0 < k < |ps| ==> ps[k] == ps[1..][k - 1] && qs[k] == qs[1..][k - 1];
    }
  }

  /** Two histories feed the hasher the same bytes exactly when they agree record by record, groups aside. */
  lemma PatchStreamInjective(ps: seq<Patch>, qs: seq<Patch>)
    requires |ps| <= U64_MAX && |qs| <= U64_MAX
    ensures PatchStream(ps) == PatchStream(qs) <==>
            |ps| == |qs| && forall k :: 0 <= k < |ps| ==> ps[k].Hashed() == qs[k].Hashed()
  {
    hide U64;
    if PatchStream(ps) == PatchStream(qs) {
      U64PrefixFree(|ps|, PatchRecords(ps, 0), |qs|, PatchRecords(qs, 0));
      PatchRecordsInjective(ps, qs, 0);
    }
    if |ps| == |qs| && forall k :: 0 <= k < |ps| ==> ps[k].Hashed() == qs[k].Hashed() {
      PatchRecordsIgnoreGroups(ps, qs, 0);
    }
  }

  lemma {:induction false} PatchRecordsIgnoreGroups(ps: seq<Patch>, qs: seq<Patch>, ordinal: nat)
    requires |ps| == |qs| && ordinal + |ps| <= U64_MAX
    requires forall k :: 0 <= k < |ps| ==> ps[k].Hashed() == qs[k].Hashed()
    ensures PatchRecords(ps, ordinal) == PatchRecords(qs, ordinal)
    decreases |ps|
  {
    if ps != [] {
      PatchRecordsIgnoreGroups(ps[1..], qs[1..], ordinal + 1);
      assert PatchRecord(ordinal, ps[0]) == PatchRecord(ordinal, ps[0].Hashed()) == PatchRecord(ordinal, qs[0]);
    }
  }

  // ---------------------------------------------------------------------------
  // Analyst overrides.

  datatype FunctionOverride = FunctionOverride(address: u64, action: u8, exactExtentValid: bool, exactSize: u64,
                                               noreturn: u8, callingConvention: Buffer, prototype: Buffer, mode: u8)

  datatype DataOverride = DataOverride(address: u64, size: u64, kind: u8, typeName: Buffer)

  datatype Overrides = Overrides(functions: seq<FunctionOverride>, data: seq<DataOverride>)

  /** The fixed-width fields up to the first framed one, then the frames around the mode. */
  function FunctionRecord(f: FunctionOverride): seq<u8> {
    U64(f.address) + ([f.action, Flag(f.exactExtentValid)] + (U64(f.exactSize) + ([f.noreturn] +
    (Frame(f.callingConvention) + (Frame(f.prototype) + [f.mode])))))
  }

  function DataRecord(d: DataOverride): seq<u8> {
    U64(d.address) + (U64(d.size) + ([d.kind] + Frame(d.typeName)))
  }

  function FunctionRecords(fs: seq<FunctionOverride>): seq<u8> {
    if fs == [] then [] else FunctionRecord(fs[0]) + FunctionRecords(fs[1..])
  }

  function DataRecords(ds: seq<DataOverride>): seq<u8> {
    if ds == [] then [] else DataRecord(ds[0]) + DataRecords(ds[1..])
  }

  function OverrideStream(o: Overrides): seq<u8>
    requires |o.functions| <= U64_MAX && |o.data| <= U64_MAX
  {
    U64(|o.functions|) + (FunctionRecords(o.functions) + (U64(|o.data|) + DataRecords(o.data)))
  }

  lemma FunctionRecordPrefixFree(f: FunctionOverride, r: seq<u8>, g: FunctionOverride, t: seq<u8>)
    requires FunctionRecord(f) + r == FunctionRecord(g) + t
    ensures f == g && r == t
  {
    hide U64, Frame;
    var f5, g5 := [f.mode] + r, [g.mode] + t;
    var f4, g4 := Frame(f.prototype) + f5, Frame(g.prototype) + g5;
    var f3, g3 := Frame(f.callingConvention) + f4, Frame(g.callingConvention) + g4;
    var f2, g2 := U64(f.exactSize) + ([f.noreturn] + f3), U64(g.exactSize) + ([g.noreturn] + g3);
    var f1, g1 := [f.action, Flag(f.exactExtentValid)] + f2, [g.action, Flag(g.exactExtentValid)] + g2;
    assert FunctionRecord(f) + r == U64(f.address) + f1;
    assert FunctionRecord(g) + t == U64(g.address) + g1;
    U64PrefixFree(f.address, f1, g.address, g1);
    PrefixOfEqualLength([f.action, Flag(f.exactExtentValid)], f2, [g.action, Flag(g.exactExtentValid)], g2);
    assert Flag(f.exactExtentValid) == Flag(g.exactExtentValid);
    U64PrefixFree(f.exactSize, [f.noreturn] + f3, g.exactSize, [g.noreturn] + g3);
    PrefixOfEqualLength([f.noreturn], f3, [g.noreturn], g3);
    FramePrefixFree(f.callingConvention, f4, g.callingConvention, g4);
    FramePrefixFree(f.prototype, f5, g.prototype, g5);
    PrefixOfEqualLength([f.mode], r, [g.mode], t);
  }

  lemma DataRecordPrefixFree(d: DataOverride, r: seq<u8>, e: DataOverride, t: seq<u8>)
    requires DataRecord(d) + r == DataRecord(e) + t
    ensures d == e && r == t
  {
    hide U64, Frame;
    Regroup(U64(d.address), U64(d.size), [d.kind], Frame(d.typeName), r);
    Regroup(U64(e.address), U64(e.size), [e.kind], Frame(e.typeName), t);
    U64PrefixFree(d.address, U64(d.size) + ([d.kind] + (Frame(d.typeName) + r)),
                  e.address, U64(e.size) + ([e.kind] + (Frame(e.typeName) + t)));
    U64PrefixFree(d.size, [d.kind] + (Frame(d.typeName) + r), e.size, [e.kind] + (Frame(e.typeName) + t));
    PrefixOfEqualLength([d.kind], Frame(d.typeName) + r, [e.kind], Frame(e.typeName) + t);
    FramePrefixFree(d.typeName, r, e.typeName, t);
  }

  lemma {:induction false} FunctionRecordsPrefixFree(fs: seq<FunctionOverride>, r: seq<u8>, gs: seq<FunctionOverride>, t: seq<u8>)
    requires |fs| == |gs| && FunctionRecords(fs) + r == FunctionRecords(gs) + t
    ensures fs == gs && r == t
    decreases |fs|
  {
    hide FunctionRecord;
    if fs == [] {
      assert [] + r == r && [] + t == t;
    } else {
      var f, g := FunctionRecords(fs[1..]), FunctionRecords(gs[1..]);
      assert FunctionRecord(fs[0]) + (f + r) == (FunctionRecord(fs[0]) + f) + r;
      assert FunctionRecord(gs[0]) + (g + t) == (FunctionRecord(gs[0]) + g) + t;
      FunctionRecordPrefixFree(fs[0], f + r, gs[0], g + t);
      FunctionRecordsPrefixFree(fs[1..], r, gs[1..], t);
      assert fs == [fs[0]] + fs[1..] && gs == [gs[0]] + gs[1..];
    }
  }

  lemma {:induction false} DataRecordsInjective(ds: seq<DataOverride>, es: seq<DataOverride>)
    requires |ds| == |es| && DataRecords(ds) == DataRecords(es)
    ensures ds == es
    decreases |ds|
  {
    hide DataRecord;
    if ds != [] {
      DataRecordPrefixFree(ds[0], DataRecords(ds[1..]), es[0], DataRecords(es[1..]));
      DataRecordsInjective(ds[1..], es[1..]);
      assert ds == [ds[0]] + ds[1..] && es == [es[0]] + es[1..];
    }
  }

  /** Every persisted override field takes part: equal streams mean equal override sets. */
  lemma OverrideStreamInjective(a: Overrides, b: Overrides)
    requires |a.functions| <= U64_MAX && |a.data| <= U64_MAX && |b.functions| <= U64_MAX && |b.data| <= U64_MAX
    requires OverrideStream(a) == OverrideStream(b)
    ensures a == b
  {
    hide U64;
    U64PrefixFree(|a.functions|, FunctionRecords(a.functions) + (U64(|a.data|) + DataRecords(a.data)),
                  |b.functions|, FunctionRecords(b.functions) + (U64(|b.data|) + DataRecords(b.data)));
    FunctionRecordsPrefixFree(a.functions, U64(|a.data|) + DataRecords(a.data),
                              b.functions, U64(|b.data|) + DataRecords(b.data));
    U64PrefixFree(|a.data|, DataRecords(a.data), |b.data|, DataRecords(b.data));
    DataRecordsInjective(a.data, b.data);
  }

  // ---------------------------------------------------------------------------
  // Known values.

  /** The digests of the empty stream, of "a" and of "ab". */
  lemma KnownDigests()
    ensures Fnv(FNV_OFFSET, []) == 1469598103934665603
    ensures Fnv(FNV_OFFSET, [0x61]) == 4953267810257967366
    ensures Fnv(FNV_OFFSET, [0x61, 0x62]) == 11217423238573040876
  {
    hide Fnv, Fold;
    KnownFolds();
    FnvStep(1469598103934665603, 0x61, []);
    FnvStep(1469598103934665603, 0x61, [0x62]);
    FnvStep(4953267810257967366, 0x62, []);
    FnvStep(11217423238573040876, 0, []);
    var a: seq<u8>, b: seq<u8>, ab: seq<u8> := [0x61], [0x62], [0x61, 0x62];
    assert a + [] == a && b + [] == b && a + b == ab;
  }

  lemma FnvStep(state: u64, value: u8, rest: seq<u8>)
    ensures Fnv(state, [value] + rest) == Fnv(Fold(state, value), rest)
    ensures Fnv(state, []) == state
  {
    assert ([value] + rest)[1..] == rest;
  }

  lemma KnownFolds()
    ensures Fold(1469598103934665603, 0x61) == 4953267810257967366
    ensures Fold(4953267810257967366, 0x62) == 11217423238573040876
  {
    hide XorBits;
    KnownFirstXor();
    KnownSecondXor();
    KnownProducts();
    assert 1469598103934665603 / 256 == 5740617593494787 && 1469598103934665603 % 256 == 131;
    assert 4953267810257967366 / 256 == 19348702383820185 && 4953267810257967366 % 256 == 6;
    assert XorByte(1469598103934665603, 0x61) == 1469598103934665698;
    assert XorByte(4953267810257967366, 0x62) == 4953267810257967460;
  }

  lemma KnownProducts()
    ensures 1469598103934665698 * FNV_PRIME % U64_LIMIT == 4953267810257967366
    ensures 4953267810257967460 * FNV_PRIME % U64_LIMIT == 11217423238573040876
  {
  }

  lemma XorStep(x: nat, y: nat, bits: nat)
    ensures XorBits(x, y, bits + 1) == (x % 2 + y % 2) % 2 + 2 * XorBits(x / 2, y / 2, bits)
    ensures XorBits(x, y, 0) == 0
  {
  }

  lemma KnownFirstXor()
    ensures XorBits(131, 0x61, 8) == 226
  {
    hide XorBits;
    XorStep(131, 97, 7);
    XorStep(65, 48, 6);
    XorStep(32, 24, 5);
    XorStep(16, 12, 4);
    XorStep(8, 6, 3);
    XorStep(4, 3, 2);
    XorStep(2, 1, 1);
    XorStep(1, 0, 0);
    XorStep(0, 0, 0);
  }

  lemma KnownSecondXor()
    ensures XorBits(6, 0x62, 8) == 100
  {
    hide XorBits;
    XorStep(6, 98, 7);
    XorStep(3, 49, 6);
    XorStep(1, 24, 5);
    XorStep(0, 12, 4);
    XorStep(0, 6, 3);
    XorStep(0, 3, 2);
    XorStep(0, 1, 1);
    XorStep(0, 0, 0);
  }

  /** One patch of one byte: count, position, address, and both framed byte strings, least significant bytes first. */
  lemma KnownPatchStream()
    ensures PatchStream([Patch(0x0102030405060708, [0x90], [0xCC], 7)]) ==
            [1, 0, 0, 0, 0, 0, 0, 0] + [0, 0, 0, 0, 0, 0, 0, 0] + [8, 7, 6, 5, 4, 3, 2, 1]
            + [1, 0, 0, 0, 0, 0, 0, 0, 0x90] + [1, 0, 0, 0, 0, 0, 0, 0, 0xCC]
  {
    hide U64;
    KnownWords();
    var p := Patch(0x0102030405060708, [0x90], [0xCC], 7);
    assert [p][1..] == [];
    assert PatchRecords([p], 0) == PatchRecord(0, p);
  }

  lemma KnownWords()
    ensures U64(0) == [0, 0, 0, 0, 0, 0, 0, 0] && U64(1) == [1, 0, 0, 0, 0, 0, 0, 0] && U64(2) == [2, 0, 0, 0, 0, 0, 0, 0]
    ensures U64(0x0102030405060708) == [8, 7, 6, 5, 4, 3, 2, 1]
  {
    KnownWord(0, [0, 0, 0, 0, 0, 0, 0, 0]);
    KnownWord(1, [1, 0, 0, 0, 0, 0, 0, 0]);
    KnownWord(2, [2, 0, 0, 0, 0, 0, 0, 0]);
    KnownWord(0x0102030405060708, [8, 7, 6, 5, 4, 3, 2, 1]);
  }

  /** The number whose bytes these are, least significant first. */
  ghost function ValueOf(s: seq<u8>): nat {
    if s == [] then 0 else s[0] + 0x100 * ValueOf(s[1..])
  }

  /** Writing a number's bytes and reading them are inverse. */
  lemma {:induction false} LittleEndianReads(s: seq<u8>)
    ensures LittleEndian(ValueOf(s), |s|) == s
  {
    if s != [] {
      LittleEndianReads(s[1..]);
      LowByte(s[0], ValueOf(s[1..]));
    }
  }

  lemma LowByte(low: u8, high: nat)
    ensures (low + 0x100 * high) % 0x100 == low && (low + 0x100 * high) / 0x100 == high
  {
  }

  lemma KnownWord(v: u64, s: seq<u8>)
    requires |s| == 8
    requires v == s[0] as int + 0x100 * (s[1] as int + 0x100 * (s[2] as int + 0x100 * (s[3] as int + 0x100 *
                  (s[4] as int + 0x100 * (s[5] as int + 0x100 * (s[6] as int + 0x100 * (s[7] as int)))))))
    ensures U64(v) == s
  {
    LittleEndianReads(s);
    assert ValueOf(s[8..]) == 0;
    assert ValueOf(s[7..]) == s[7] && ValueOf(s[6..]) == s[6] + 0x100 * ValueOf(s[7..]);
    assert ValueOf(s[5..]) == s[5] + 0x100 * ValueOf(s[6..]) && ValueOf(s[4..]) == s[4] + 0x100 * ValueOf(s[5..]);
    assert ValueOf(s[3..]) == s[3] + 0x100 * ValueOf(s[4..]) && ValueOf(s[2..]) == s[2] + 0x100 * ValueOf(s[3..]);
    assert ValueOf(s[1..]) == s[1] + 0x100 * ValueOf(s[2..]);
  }

  /** One function and one data override, every field different. */
  lemma KnownOverrideStream()
    ensures OverrideStream(Overrides([FunctionOverride(0x0102030405060708, 9, true, 2, 10, [0x61], [0x62], 11)],
                                     [DataOverride(0x0102030405060708, 2, 12, [0x63])])) ==
            [1, 0, 0, 0, 0, 0, 0, 0]
            + [8, 7, 6, 5, 4, 3, 2, 1, 9, 1, 2, 0, 0, 0, 0, 0, 0, 0, 10, 1, 0, 0, 0, 0, 0, 0, 0, 0x61, 1, 0, 0, 0, 0, 0, 0, 0, 0x62, 11]
            + [1, 0, 0, 0, 0, 0, 0, 0]
            + [8, 7, 6, 5, 4, 3, 2, 1, 2, 0, 0, 0, 0, 0, 0, 0, 12, 1, 0, 0, 0, 0, 0, 0, 0, 0x63]
  {
    hide U64, Frame;
    KnownWords();
    var f := FunctionOverride(0x0102030405060708, 9, true, 2, 10, [0x61], [0x62], 11);
    var d := DataOverride(0x0102030405060708, 2, 12, [0x63]);
    KnownFunctionRecord();
    KnownDataRecord();
    assert [f][1..] == [] && [d][1..] == [];
    assert FunctionRecords([f]) == FunctionRecord(f) && DataRecords([d]) == DataRecord(d);
  }

  lemma KnownFunctionRecord()
    ensures FunctionRecord(FunctionOverride(0x0102030405060708, 9, true, 2, 10, [0x61], [0x62], 11)) ==
            [8, 7, 6, 5, 4, 3, 2, 1, 9, 1, 2, 0, 0, 0, 0, 0, 0, 0, 10, 1, 0, 0, 0, 0, 0, 0, 0, 0x61, 1, 0, 0, 0, 0, 0, 0, 0, 0x62, 11]
  {
    hide U64;
    KnownWords();
  }

  lemma KnownDataRecord()
    ensures DataRecord(DataOverride(0x0102030405060708, 2, 12, [0x63])) ==
            [8, 7, 6, 5, 4, 3, 2, 1, 2, 0, 0, 0, 0, 0, 0, 0, 12, 1, 0, 0, 0, 0, 0, 0, 0, 0x63]
  {
    hide U64;
    KnownWords();
  }

  // ---------------------------------------------------------------------------
  // The builder, and the two digests it computes.

  /** The running digest; `fed` records the bytes folded in so far. */
  class DigestBuilder {
    var value: u64
    ghost var fed: seq<u8>

    ghost predicate Valid()
      reads this
    {
      value == Fnv(FNV_OFFSET, fed)
    }

    constructor ()
      ensures Valid() && fed == []
    {
      value, fed := FNV_OFFSET, [];
    }

    method Byte(b: u8)
      requires Valid()
      modifies this
      ensures Valid() && fed == old(fed) + [b]
    {
      FnvAppend(FNV_OFFSET, fed, [b]);
      value := Fold(value, b);
      fed := fed + [b];
    }

    method LittleEndianBytes(v: nat, n: nat)
      requires Valid()
      modifies this
      ensures Valid() && fed == old(fed) + LittleEndian(v, n)
    {
      var rest := v;
      for i := 0 to n
        invariant Valid()
        invariant fed + LittleEndian(rest, n - i) == old(fed) + LittleEndian(v, n)
      {
        assert fed + LittleEndian(rest, n - i) == (fed + [rest % 256]) + LittleEndian(rest / 256, n - i - 1);
        Byte(rest % 256);
        rest := rest / 256;
      }
    }

    method Word(v: u64)
      requires Valid()
      modifies this
      ensures Valid() && fed == old(fed) + U64(v)
    {
      LittleEndianBytes(v, 8);
    }

    method Bytes(data: Buffer)
      requires Valid()
      modifies this
      ensures Valid() && fed == old(fed) + Frame(data)
    {
      hide Fnv, LittleEndian;
      Word(|data|);
      for i := 0 to |data|
        invariant Valid() && fed == old(fed) + (U64(|data|) + data[..i])
      {
        Byte(data[i]);
      }
    }
  }

  lemma {:induction false} PatchRecordsAppend(ps: seq<Patch>, ordinal: nat, k: nat)
    requires ordinal + |ps| <= U64_MAX && k < |ps|
    ensures PatchRecords(ps[..k + 1], ordinal) == PatchRecords(ps[..k], ordinal) + PatchRecord(ordinal + k, ps[k])
    decreases k
  {
    hide PatchRecord;
    assert ps[..k + 1][1..] == ps[1..][..k];
    if k == 0 {
      assert ps[1..][..0] == [];
    } else {
      PatchRecordsAppend(ps[1..], ordinal + 1, k - 1);
      assert ps[..k][1..] == ps[1..][..k - 1];
    }
  }

  /** Application order is bound record by record; an empty history has the canonical digest zero. */
  method DigestOrderedPatches(patches: seq<Patch>) returns (digest: u64)
    requires |patches| <= U64_MAX
    ensures digest == if patches == [] then 0 else Fnv(FNV_OFFSET, PatchStream(patches))
  {
    hide PatchRecord, U64, Frame, Fnv;
    if patches == [] {
      return 0;
    }
    var builder := new DigestBuilder();
    builder.Word(|patches|);
    for k := 0 to |patches|
      invariant builder.Valid()
      invariant builder.fed == U64(|patches|) + PatchRecords(patches[..k], 0)
    {
      var p := patches[k];
      builder.Word(k);
      builder.Word(p.address);
      builder.Bytes(p.orig);
      builder.Bytes(p.bytes);
      PatchRecordsAppend(patches, 0, k);
      FedRecord(U64(|patches|), PatchRecords(patches[..k], 0), k, p);
    }
    assert patches[..|patches|] == patches;
    digest := builder.value;
  }

  lemma FedRecord(head: seq<u8>, records: seq<u8>, ordinal: u64, p: Patch)
    ensures head + records + U64(ordinal) + U64(p.address) + Frame(p.orig) + Frame(p.bytes) ==
            head + (records + PatchRecord(ordinal, p))
  {
    hide U64, Frame;
  }

  lemma {:induction false} FunctionRecordsAppend(fs: seq<FunctionOverride>, k: nat)
    requires k < |fs|
    ensures FunctionRecords(fs[..k + 1]) == FunctionRecords(fs[..k]) + FunctionRecord(fs[k])
    decreases k
  {
    hide FunctionRecord;
    assert fs[..k + 1][1..] == fs[1..][..k];
    if k == 0 {
      assert fs[1..][..0] == [];
    } else {
      FunctionRecordsAppend(fs[1..], k - 1);
      assert fs[..k][1..] == fs[1..][..k - 1];
    }
  }

  lemma {:induction false} DataRecordsAppend(ds: seq<DataOverride>, k: nat)
    requires k < |ds|
    ensures DataRecords(ds[..k + 1]) == DataRecords(ds[..k]) + DataRecord(ds[k])
    decreases k
  {
    hide DataRecord;
    assert ds[..k + 1][1..] == ds[1..][..k];
    if k == 0 {
      assert ds[1..][..0] == [];
    } else {
      DataRecordsAppend(ds[1..], k - 1);
      assert ds[..k][1..] == ds[1..][..k - 1];
    }
  }

  method FeedFunction(builder: DigestBuilder, f: FunctionOverride)
    requires builder.Valid()
    modifies builder
    ensures builder.Valid() && builder.fed == old(builder.fed) + FunctionRecord(f)
  {
    hide U64, Frame, Fnv;
    builder.Word(f.address);
    builder.Byte(f.action);
    builder.Byte(Flag(f.exactExtentValid));
    builder.Word(f.exactSize);
    builder.Byte(f.noreturn);
    builder.Bytes(f.callingConvention);
    builder.Bytes(f.prototype);
    builder.Byte(f.mode);
  }

  method FeedFunctions(builder: DigestBuilder, fs: seq<FunctionOverride>)
    requires builder.Valid()
    modifies builder
    ensures builder.Valid() && builder.fed == old(builder.fed) + FunctionRecords(fs)
  {
    hide FunctionRecord, Fnv;
    for k := 0 to |fs|
      invariant builder.Valid() && builder.fed == old(builder.fed) + FunctionRecords(fs[..k])
    {
      FeedFunction(builder, fs[k]);
      FunctionRecordsAppend(fs, k);
    }
    assert fs[..|fs|] == fs;
  }

  method FeedData(builder: DigestBuilder, d: DataOverride)
    requires builder.Valid()
    modifies builder
    ensures builder.Valid() && builder.fed == old(builder.fed) + DataRecord(d)
  {
    hide U64, Frame, Fnv;
    builder.Word(d.address);
    builder.Word(d.size);
    builder.Byte(d.kind);
    builder.Bytes(d.typeName);
  }

  method FeedDataSpans(builder: DigestBuilder, ds: seq<DataOverride>)
    requires builder.Valid()
    modifies builder
    ensures builder.Valid() && builder.fed == old(builder.fed) + DataRecords(ds)
  {
    hide DataRecord, Fnv;
    for k := 0 to |ds|
      invariant builder.Valid() && builder.fed == old(builder.fed) + DataRecords(ds[..k])
    {
      FeedData(builder, ds[k]);
      DataRecordsAppend(ds, k);
    }
    assert ds[..|ds|] == ds;
  }

  /** A missing and an empty override set share the canonical digest zero. */
  method DigestAnalysisOverrides(overrides: Option<Overrides>) returns (digest: u64)
    requires overrides.Some? ==> |overrides.value.functions| <= U64_MAX && |overrides.value.data| <= U64_MAX
    ensures digest == if overrides.None? || overrides.value == Overrides([], []) then 0
                      else Fnv(FNV_OFFSET, OverrideStream(overrides.value))
  {
    hide FunctionRecords, DataRecords, U64, Fnv;
    if overrides.None? || (overrides.value.functions == [] && overrides.value.data == []) {
      return 0;
    }
    var o := overrides.value;
    var builder := new DigestBuilder();
    builder.Word(|o.functions|);
    FeedFunctions(builder, o.functions);
    builder.Word(|o.data|);
    FeedDataSpans(builder, o.data);
    assert builder.fed == OverrideStream(o);
    digest := builder.value;
  }
}
