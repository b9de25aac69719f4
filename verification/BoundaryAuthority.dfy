/** Analyst authority over displayed instruction starts, with bounded retained evidence. */
module BoundaryAuthority {
  import opened Machine

  const SNAPSHOT_BYTE_CAP: nat := 0x1_0000
  const RECORD_CAP: nat := 65536
  const RETAINED_BYTE_CAP: nat := 0x100_0000

  datatype Scope = Scope(documentId: u64, imageId: u64, decoder: string)

  datatype Instruction = Instruction(address: u64, length: nat, mnemonic: string)

  const NO_INSTRUCTION := Instruction(0, 0, "")

  predicate IsInstruction(i: Instruction)
    ensures IsInstruction(i) ==> 0 < i.length && i.address + i.length <= U64_LIMIT
  {
    && i.length != 0 && i.length <= SNAPSHOT_BYTE_CAP
    && i.length - 1 <= U64_MAX - i.address
    && i.mnemonic != "" && i.mnemonic != "db" && i.mnemonic != "dw" && i.mnemonic != "dd" && i.mnemonic != "dq"
  }

  datatype Snapshot = Snapshot(scope: Scope, instruction: Instruction, bytes: seq<u8>)
  {
    predicate Valid() {
      IsInstruction(instruction) && |bytes| == instruction.length
    }

    /** The decoded instruction starts, ends and reads as the retained one did. */
    predicate Matches(owner: Scope, decoded: Instruction, raw: Option<seq<u8>>) {
      && Valid() && scope == owner && IsInstruction(decoded)
      && decoded.address == instruction.address && decoded.length == instruction.length
      && raw.Some? && |raw.value| >= |bytes| && bytes == raw.value[..|bytes|]
    }

    /** Subtraction of starts decides whether the two spans share a byte, with no sum that could wrap. */
    predicate Overlaps(address: u64, byteCount: u64)
      ensures Overlaps(address, byteCount) <==>
              Valid() && exists a :: instruction.address <= a < instruction.address + instruction.length &&
                                     Within(a, address, byteCount)
    {
      var r := Valid() && byteCount != 0 &&
               if instruction.address <= address then address - instruction.address < instruction.length
               else instruction.address - address < byteCount;
      assert r ==> Within(Max(instruction.address, address), address, byteCount);
      r
    }
  }

  predicate Within(a: int, address: int, byteCount: int) {
    address <= a < address + byteCount
  }

  const BLANK := Snapshot(Scope(0, 0, ""), NO_INSTRUCTION, [])

  function Capture(owner: Scope, displayed: Instruction, raw: Option<seq<u8>>): (s: Snapshot)
    ensures s.Valid() <==> IsInstruction(displayed) && raw.Some? && displayed.length <= |raw.value|
    ensures s.Valid() ==> s.Matches(owner, displayed, raw)
    ensures !s.Valid() ==> s == BLANK
  {
    if !IsInstruction(displayed) || raw.None? || |raw.value| < displayed.length then BLANK
    else Snapshot(owner, displayed, raw.value[..displayed.length])
  }

  /** What can be captured: a named instruction of 1 to 64 KiB, no data row, whose bytes all have addresses. */
  ghost predicate Displayable(i: Instruction) {
    && 0 < i.length <= 0x1_0000 && i.address + i.length <= 0x1_0000_0000_0000_0000
    && i.mnemonic !in {"", "db", "dw", "dd", "dq"}
  }

  /** A capture matches exactly the displays of an instruction of its scope, start and length over the captured bytes. */
  lemma CaptureMatches(owner: Scope, displayed: Instruction, raw: Option<seq<u8>>,
                       other: Scope, decoded: Instruction, now: Option<seq<u8>>)
    ensures Capture(owner, displayed, raw).Valid() <==> Displayable(displayed) && raw.Some? && displayed.length <= |raw.value|
    ensures Capture(owner, displayed, raw).Valid() ==>
              (Capture(owner, displayed, raw).Matches(other, decoded, now) <==>
               && other == owner && Displayable(decoded)
               && decoded.address == displayed.address && decoded.length == displayed.length
               && now.Some? && displayed.length <= |now.value|
               && forall k :: 0 <= k < displayed.length ==> now.value[k] == raw.value[k])
  {
    var s := Capture(owner, displayed, raw);
    if s.Valid() && now.Some? && displayed.length <= |now.value| {
      assert s.bytes == raw.value[..displayed.length];
      if forall k :: 0 <= k < displayed.length ==> now.value[k] == raw.value[k] {
        assert raw.value[..displayed.length] == now.value[..displayed.length];
      } else {
        var k :| 0 <= k < displayed.length && now.value[k] != raw.value[k];
        assert raw.value[..displayed.length][k] != now.value[..displayed.length][k];
      }
    }
  }

  type Records = map<u64, Snapshot>

  /** Whether a record speaks for a byte of the span; a record without evidence stands for its address. */
  predicate Touched(address: u64, record: Snapshot, begin: u64, byteCount: u64) {
    if record.Valid() then record.Overlaps(begin, byteCount) else Within(address, begin, byteCount)
  }

  // ---------------------------------------------------------------------------
  // What each operation means.

  datatype Operation =
    | AcceptAddress(address: u64, displayedInstruction: bool)
    | Accept(snapshot: Snapshot)
    | Erase(address: u64)
    | EraseIf(condition: Snapshot -> bool)
    | Invalidate(address: u64, byteCount: u64)
    | Clear

  ghost function Retained(records: Records): nat {
    if records == map[] then 0
    else
      var address :| address in records;
      |records[address].bytes| + Retained(records - {address})
  }

  /** The bytes a record under this address would be replaced with. */
  function Replaced(records: Records, address: u64): nat {
    if address in records then |records[address].bytes| else 0
  }

  ghost predicate Room(records: Records, s: Snapshot) {
    && (s.instruction.address in records || |records| < RECORD_CAP)
    && Retained(records) - Replaced(records, s.instruction.address) + |s.bytes| <= RETAINED_BYTE_CAP
  }

  /** The snapshot already stored under its address is the same evidence. */
  predicate Known(records: Records, s: Snapshot) {
    s.instruction.address in records &&
    records[s.instruction.address].Matches(s.scope, s.instruction, Some(s.bytes))
  }

  ghost function After(records: Records, op: Operation): Records {
    match op
    case AcceptAddress(address, displayed) =>
      if displayed && |records| < RECORD_CAP && address !in records then records[address := BLANK] else records
    case Accept(s) =>
      if s.Valid() && !Known(records, s) && Room(records, s) then records[s.instruction.address := s] else records
    case Erase(address) => records - {address}
    case EraseIf(condition) => map a | a in records && !condition(records[a]) :: records[a]
    case Invalidate(begin, byteCount) => map a | a in records && !Touched(a, records[a], begin, byteCount) :: records[a]
    case Clear => map[]
  }

  /** Evidence stands under its own address, and there is never too much of it. */
  ghost predicate Bounded(records: Records) {
    && |records| <= RECORD_CAP
    && Retained(records) <= RETAINED_BYTE_CAP
    && forall a :: a in records ==> records[a] == BLANK || (records[a].Valid() && records[a].instruction.address == a)
  }

  // ---------------------------------------------------------------------------
  // Retained bytes.

  /** The sum does not depend on which record is taken first. */
  lemma {:induction false} RetainedWithout(records: Records, address: u64)
    requires address in records
    ensures Retained(records) == |records[address].bytes| + Retained(records - {address})
    decreases |records|
  {
    var first :| first in records && Retained(records) == |records[first].bytes| + Retained(records - {first});
    if first != address {
      RetainedWithout(records - {first}, address);
      RetainedWithout(records - {address}, first);
      assert records - {first} - {address} == records - {address} - {first};
    }
  }

  lemma RetainedPut(records: Records, address: u64, s: Snapshot)
    ensures Retained(records[address := s]) == Retained(records) - Replaced(records, address) + |s.bytes|
    ensures Replaced(records, address) <= Retained(records)
  {
    RetainedWithout(records[address := s], address);
    assert records[address := s] - {address} == records - {address};
    if address in records {
      RetainedWithout(records, address);
    } else {
      assert records - {address} == records;
    }
  }

  lemma {:induction false} RetainedPart(part: Records, records: Records)
    requires part.Keys <= records.Keys && forall a :: a in part ==> part[a] == records[a]
    ensures Retained(part) <= Retained(records) && |part| <= |records|
    decreases |records|
  {
    if records == map[] {
      assert part == map[];
    } else {
      var a :| a in records;
      RetainedWithout(records, a);
      if a in part {
        RetainedWithout(part, a);
        RetainedPart(part - {a}, records - {a});
      } else {
        RetainedPart(part, records - {a});
      }
    }
  }

  /** No operation breaks the bounds. */
  lemma AfterBounded(records: Records, op: Operation)
    requires Bounded(records)
    ensures Bounded(After(records, op))
  {
    var next := After(records, op);
    match op
    case AcceptAddress(address, displayed) =>
      RetainedPut(records, address, BLANK);
    case Accept(s) =>
      RetainedPut(records, s.instruction.address, s);
    case _ =>
      RetainedPart(next, records);
  }

  /** The bounds hold after every run of operations. */
  ghost function AfterAll(records: Records, ops: seq<Operation>): Records
    decreases |ops|
  {
    if ops == [] then records else AfterAll(After(records, ops[0]), ops[1..])
  }

  lemma {:induction false} RunBounded(records: Records, ops: seq<Operation>)
    requires Bounded(records)
    ensures Bounded(AfterAll(records, ops))
    decreases |ops|
  {
    if ops != [] {
      AfterBounded(records, ops[0]);
      RunBounded(After(records, ops[0]), ops[1..]);
    }
  }

  /** The record that an operation puts under an address; the other records keep theirs, or go. */
  ghost function Puts(records: Records, op: Operation): map<u64, Snapshot> {
    match op
    case AcceptAddress(address, displayed) =>
      if displayed && |records| < 65536 && address !in records then map[address := BLANK] else map[]
    case Accept(s) =>
      var address := s.instruction.address;
      var replaced := if address in records then |records[address].bytes| else 0;
      if s.Valid() && !(address in records && records[address].Matches(s.scope, s.instruction, Some(s.bytes))) &&
         (address in records || |records| < 65536) && Retained(records) - replaced + |s.bytes| <= 0x100_0000
      then map[address := s] else map[]
    case _ => map[]
  }

  ghost predicate Drops(records: Records, op: Operation, address: u64)
    requires address in records
  {
    match op
    case Erase(erased) => address == erased
    case EraseIf(condition) => condition(records[address])
    case Invalidate(begin, byteCount) =>
      if records[address].Valid() then records[address].Overlaps(begin, byteCount) else begin <= address < begin + byteCount
    case Clear => true
    case _ => false
  }

  /** What every operation leaves, record by record. */
  lemma OperationMeans(records: Records, op: Operation, address: u64)
    ensures address in Puts(records, op) ==>
              address in After(records, op) && After(records, op)[address] == Puts(records, op)[address]
    ensures address !in Puts(records, op) ==> (address in After(records, op) <==> address in records && !Drops(records, op, address))
    ensures address !in Puts(records, op) && address in After(records, op) ==> After(records, op)[address] == records[address]
  {
    hide Retained;
  }

  /** The bounds, as numbers. */
  lemma BoundsAre(records: Records)
    ensures Retained(map[]) == 0
    ensures Bounded(records) ==> |records| <= 65536 && Retained(records) <= 0x100_0000
    ensures |records| <= 65536 && Retained(records) <= 0x100_0000 &&
            (forall a :: a in records ==> records[a] == BLANK || (records[a].Valid() && records[a].instruction.address == a)) ==>
              Bounded(records)
  {
  }

  // ---------------------------------------------------------------------------
  // Evidence and memory.

  ghost predicate Current(s: Snapshot, memory: int -> u8) {
    forall k :: 0 <= k < |s.bytes| ==> s.bytes[k] == memory(s.instruction.address + k)
  }

  /** Retiring what a write touched leaves evidence that memory still bears out, wherever the write fell. */
  lemma InvalidationKeepsCurrent(records: Records, before: int -> u8, after: int -> u8, begin: u64, byteCount: u64)
    requires forall a :: a in records && records[a].Valid() ==> Current(records[a], before)
    requires forall a :: !Within(a, begin, byteCount) ==> before(a) == after(a)
    ensures var kept := After(records, Invalidate(begin, byteCount));
            forall a :: a in kept && kept[a].Valid() ==> Current(kept[a], after)
  {
    var kept := After(records, Invalidate(begin, byteCount));
    forall a | a in kept && kept[a].Valid()
      ensures Current(kept[a], after)
    {
      var s := kept[a];
      forall k | 0 <= k < |s.bytes|
        ensures s.bytes[k] == after(s.instruction.address + k)
      {
        assert !Within(s.instruction.address + k, begin, byteCount);
      }
    }
  }

  /**
    A record is retired exactly when the span meets its bytes, or its address if it has no evidence; the
    others stay as they are, and none is added.
   */
  lemma InvalidationIsPrecise(records: Records, begin: u64, byteCount: u64)
    requires Bounded(records)
    ensures var kept := After(records, Invalidate(begin, byteCount));
            && (forall address :: address in kept ==> address in records && kept[address] == records[address])
            && forall address :: address in records ==>
                 (address !in kept <==>
                  exists a :: address <= a < address + Max(1, |records[address].bytes|) && Within(a, begin, byteCount))
  {
    forall address | address in records
      ensures Touched(address, records[address], begin, byteCount) <==>
              exists a :: address <= a < address + Max(1, |records[address].bytes|) && Within(a, begin, byteCount)
    {
      if !records[address].Valid() && Within(address, begin, byteCount) {
        assert address <= address < address + Max(1, |records[address].bytes|);
      }
    }
  }

  /** Accepting again what is already retained changes nothing. */
  lemma AcceptTwice(records: Records, s: Snapshot)
    requires Bounded(records)
    ensures After(After(records, Accept(s)), Accept(s)) == After(records, Accept(s))
  {
    if After(records, Accept(s)) != records {
      assert s.bytes == s.bytes[..|s.bytes|];
      assert Known(After(records, Accept(s)), s);
    }
  }

  // ---------------------------------------------------------------------------
  // Visiting every record.

  type Condition = (u64, Snapshot) -> bool

  /** A visit so far: what is gone met the condition, and what was visited and stayed did not. */
  ghost predicate Visited(before: Records, now: Records, pending: set<u64>, condition: Condition) {
    && pending <= now.Keys <= before.Keys
    && (forall a :: a in now ==> now[a] == before[a] && (a in pending || !condition(a, now[a])))
    && (forall a :: a in before && a !in now ==> condition(a, before[a]))
  }

  ghost function Without(records: Records, condition: Condition): Records {
    map a | a in records && !condition(a, records[a]) :: records[a]
  }

  lemma VisitStarts(before: Records, condition: Condition)
    ensures Visited(before, before, before.Keys, condition)
  {
  }

  lemma VisitStep(before: Records, now: Records, pending: set<u64>, condition: Condition, a: u64)
    requires Visited(before, now, pending, condition) && a in pending
    ensures a in now && now[a] == before[a]
    ensures !condition(a, now[a]) ==> Visited(before, now, pending - {a}, condition)
    ensures condition(a, now[a]) ==> Visited(before, now - {a}, pending - {a}, condition)
    ensures |now - {a}| == |now| - 1
  {
    assert (now - {a}).Keys == now.Keys - {a};
    assert |now - {a}| == |(now - {a}).Keys|;
  }

  lemma VisitEnds(before: Records, now: Records, condition: Condition)
    requires Visited(before, now, {}, condition)
    ensures now == Without(before, condition)
    ensures now == before <==> |now| == |before|
  {
    hide Retained;
    if now != before {
      var a :| a in before && a !in now;
      RetainedPart(now, before - {a});
    }
  }

  lemma ErasedIf(records: Records, condition: Snapshot -> bool, gone: Condition)
    requires forall a: u64, s :: gone(a, s) == condition(s)
    ensures Without(records, gone) == After(records, EraseIf(condition))
  {
  }

  lemma Invalidated(records: Records, begin: u64, byteCount: u64, gone: Condition)
    requires forall a: u64, s :: gone(a, s) == Touched(a, s, begin, byteCount)
    ensures Without(records, gone) == After(records, Invalidate(begin, byteCount))
  {
  }

  // ---------------------------------------------------------------------------
  // The authority.

  /** Revisions are 64-bit words. */
  function Advanced(revision: u64): (next: u64)
    ensures revision < 0xFFFF_FFFF_FFFF_FFFF ==> next == revision + 1
    ensures revision == 0xFFFF_FFFF_FFFF_FFFF ==> next == 0
  {
    (revision + 1) % U64_LIMIT
  }

  class ListingBoundaryAuthority {
    var analyst: Records
    var retainedBytes: nat
    var revision: u64

    ghost predicate Valid()
      reads this
    {
      Bounded(analyst) && retainedBytes == Retained(analyst)
    }

    /** What a finished operation leaves: its meaning, exact bookkeeping, and one new revision if anything changed. */
    ghost predicate Did(before: Records, revisionBefore: u64, op: Operation)
      reads this
    {
      && Valid()
      && analyst == After(before, op)
      && revision == if analyst == before then revisionBefore else Advanced(revisionBefore)
    }

    constructor ()
      ensures Valid() && analyst == map[] && revision == 0
    {
      analyst, retainedBytes, revision := map[], 0, 0;
    }

    predicate Actionable(address: u64, decoderProven: bool)
      reads this
    {
      decoderProven || address in analyst
    }

    function AcceptedSnapshot(address: u64): (found: Option<Snapshot>)
      reads this
      requires Valid()
      ensures found.Some? <==> address in analyst && analyst[address] != BLANK
      ensures found.Some? ==> found.value == analyst[address] && found.value.instruction.address == address
    {
      if address in analyst && analyst[address].Valid() then Some(analyst[address]) else None
    }

    method AcceptDisplayedAddress(address: u64, displayedInstruction: bool) returns (added: bool)
      requires Valid()
      modifies this
      ensures Did(old(analyst), old(revision), AcceptAddress(address, displayedInstruction))
      ensures added <==> analyst != old(analyst)
      ensures added ==> Actionable(address, false) && AcceptedSnapshot(address) == None
    {
      AfterBounded(analyst, AcceptAddress(address, displayedInstruction));
      RetainedPut(analyst, address, BLANK);
      if !displayedInstruction || |analyst| >= RECORD_CAP {
        return false;
      }
      added := address !in analyst;
      if added {
        analyst := analyst[address := BLANK];
        revision := Advanced(revision);
      }
    }

    method AcceptDisplayed(snapshot: Snapshot) returns (accepted: bool)
      requires Valid()
      modifies this
      ensures Did(old(analyst), old(revision), Accept(snapshot))
      ensures accepted <==> analyst != old(analyst)
      ensures accepted ==> Actionable(snapshot.instruction.address, false)
      ensures accepted ==> AcceptedSnapshot(snapshot.instruction.address) == Some(snapshot)
    {
      AfterBounded(analyst, Accept(snapshot));
      if !snapshot.Valid() {
        return false;
      }
      var address := snapshot.instruction.address;
      if address in analyst && analyst[address].Matches(snapshot.scope, snapshot.instruction, Some(snapshot.bytes)) {
        return false;
      }
      if address !in analyst && |analyst| >= RECORD_CAP {
        return false;
      }
      RetainedPut(analyst, address, snapshot);
      var replacedBytes := if address in analyst then |analyst[address].bytes| else 0;
      if |snapshot.bytes| > RETAINED_BYTE_CAP - (retainedBytes - replacedBytes) {
        return false;
      }
      MatchesItself(snapshot);
      analyst := analyst[address := snapshot];
      retainedBytes := retainedBytes - replacedBytes + |snapshot.bytes|;
      revision := Advanced(revision);
      accepted := true;
    }

    method EraseAt(address: u64) returns (erased: bool)
      requires Valid()
      modifies this
      ensures Did(old(analyst), old(revision), Erase(address))
      ensures erased <==> analyst != old(analyst)
      ensures !Actionable(address, false) && AcceptedSnapshot(address) == None
    {
      AfterBounded(analyst, Erase(address));
      if address !in analyst {
        assert analyst - {address} == analyst;
        return false;
      }
      RetainedWithout(analyst, address);
      retainedBytes := retainedBytes - |analyst[address].bytes|;
      analyst := analyst - {address};
      revision := Advanced(revision);
      erased := true;
    }

    /** Takes one record out; the revision is the caller's to advance. */
    method Drop(address: u64)
      requires Valid() && address in analyst
      modifies this`analyst, this`retainedBytes
      ensures analyst == old(analyst) - {address}
      ensures Valid()
    {
      AfterBounded(analyst, Erase(address));
      RetainedWithout(analyst, address);
      retainedBytes := retainedBytes - |analyst[address].bytes|;
      analyst := analyst - {address};
    }

    /** Visits the records in any order and retires those the owner no longer vouches for. */
    method EraseWhere(condition: Snapshot -> bool) returns (removed: nat)
      requires Valid()
      modifies this
      ensures Did(old(analyst), old(revision), EraseIf(condition))
      ensures removed == |old(analyst)| - |analyst|
    {
      hide Visited, Retained, Bounded, After, Without, Advanced;
      ghost var before, advanced := analyst, Advanced(revision);
      ghost var gone: Condition := (a: u64, s: Snapshot) => condition(s);
      VisitStarts(before, gone);
      removed := 0;
      var pending := analyst.Keys;
      while pending != {}
        invariant Valid() && Visited(before, analyst, pending, gone)
        invariant removed == |before| - |analyst|
        invariant revision == if removed == 0 then old(revision) else advanced
        decreases |pending|
      {
        var address :| address in pending;
        VisitStep(before, analyst, pending, gone, address);
        pending := pending - {address};
        if condition(analyst[address]) {
          Drop(address);
          if removed == 0 {
            revision := Advanced(revision);
          }
          removed := removed + 1;
        }
      }
      VisitEnds(before, analyst, gone);
      ErasedIf(before, condition, gone);
    }

    /** Retires exactly the records a changed span touches. */
    method InvalidateOverlapping(begin: u64, byteCount: u64) returns (removed: nat)
      requires Valid()
      modifies this
      ensures Did(old(analyst), old(revision), Invalidate(begin, byteCount))
      ensures removed == |old(analyst)| - |analyst|
    {
      hide Visited, Retained, Bounded, After, Without;
      ghost var before := analyst;
      ghost var gone: Condition := (a: u64, s: Snapshot) => Touched(a, s, begin, byteCount);
      Invalidated(before, begin, byteCount, gone);
      removed := 0;
      if byteCount == 0 {
        NothingTouched(before, begin);
        return;
      }
      VisitStarts(before, gone);
      var pending := analyst.Keys;
      while pending != {}
        invariant Valid() && Visited(before, analyst, pending, gone)
        invariant removed == |before| - |analyst| && revision == old(revision)
        decreases |pending|
      {
        var address :| address in pending;
        VisitStep(before, analyst, pending, gone, address);
        pending := pending - {address};
        var record := analyst[address];
        var overlaps := if record.Valid() then record.Overlaps(begin, byteCount)
                        else address >= begin && address - begin < byteCount;
        if overlaps {
          Drop(address);
          removed := removed + 1;
        }
      }
      VisitEnds(before, analyst, gone);
      if removed != 0 {
        revision := Advanced(revision);
      }
    }

    method ClearAll()
      requires Valid()
      modifies this
      ensures Did(old(analyst), old(revision), Clear)
    {
      AfterBounded(analyst, Clear);
      if |analyst| == 0 {
        return;
      }
      analyst, retainedBytes := map[], 0;
      revision := Advanced(revision);
    }
  }

  lemma NothingTouched(records: Records, begin: u64)
    ensures After(records, Invalidate(begin, 0)) == records
  {
    assert forall a :: a in records ==> !Touched(a, records[a], begin, 0);
  }

  lemma MatchesItself(s: Snapshot)
    requires s.Valid()
    ensures s.Matches(s.scope, s.instruction, Some(s.bytes))
  {
    assert s.bytes == s.bytes[..|s.bytes|];
  }
}
