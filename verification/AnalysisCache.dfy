/** The byte- and entry-bounded least-recently-used cache of derived analysis results. */
module AnalysisCache {
  import opened Machine

  /** Every input a derived result depends on; two results share a key only when all of them agree. */
  datatype Key = Key(pristineHash: u64, orderedPatchDigest: u64, analystOverrideDigest: u64, passInputsDigest: u64,
                     schemaVersion: u32, arch: nat, effectiveEngine: nat, byteOrder: nat, decoderFeatureBits: u32,
                     pass: nat, guessNames: bool)

  /** The identity of an immutable shared result, and of its static type. */
  type Value = nat
  type Token = nat

  datatype Entry = Entry(key: Key, value: Value, token: Token, bytes: nat)

  datatype Config = Config(maxEntries: nat, maxBytes: nat)

  // ---------------------------------------------------------------------------
  // The cache as a list, most recently used first.

  function Bytes(l: seq<Entry>): nat {
    if l == [] then 0 else l[0].bytes + Bytes(l[1..])
  }

  function Lookup(l: seq<Entry>, key: Key): Option<Entry> {
    if l == [] then None else if l[0].key == key then Some(l[0]) else Lookup(l[1..], key)
  }

  function Without(l: seq<Entry>, key: Key): (r: seq<Entry>)
    ensures |l| - 1 <= |r| <= |l|
  {
    if l == [] then [] else if l[0].key == key then l[1..] else [l[0]] + Without(l[1..], key)
  }

  /** Drops least recently used entries until one more entry of `need` bytes fits. */
  function Trim(c: Config, l: seq<Entry>, need: nat): seq<Entry> {
    if l != [] && (|l| >= c.maxEntries || need > c.maxBytes - Bytes(l)) then Trim(c, l[..|l| - 1], need) else l
  }

  predicate Admits(c: Config, bytes: nat) {
    0 < c.maxEntries && 0 < c.maxBytes && Max(1, bytes) <= c.maxBytes
  }

  datatype Op =
    | Find(key: Key, token: Token)
    | Put(key: Key, value: Option<Value>, token: Token, bytes: nat)
    | Clear

  function Touch(l: seq<Entry>, key: Key, token: Token): seq<Entry> {
    match Lookup(l, key)
    case Some(e) => if e.token == token then [e] + Without(l, key) else l
    case None => l
  }

  function Store(c: Config, l: seq<Entry>, key: Key, value: Option<Value>, token: Token, bytes: nat): seq<Entry> {
    if value.None? || !Admits(c, bytes) then l
    else [Entry(key, value.value, token, Max(1, bytes))] + Trim(c, Without(l, key), Max(1, bytes))
  }

  function Step(c: Config, l: seq<Entry>, op: Op): seq<Entry> {
    match op
    case Find(key, token) => Touch(l, key, token)
    case Put(key, value, token, bytes) => Store(c, l, key, value, token, bytes)
    case Clear => []
  }

  /** What a lookup returns: the stored value when its type token matches. */
  function Hit(l: seq<Entry>, key: Key, token: Token): Option<Value> {
    match Lookup(l, key)
    case Some(e) => if e.token == token then Some(e.value) else None
    case None => None
  }

  function Run(c: Config, ops: seq<Op>): seq<Entry> {
    if ops == [] then [] else Step(c, Run(c, ops[..|ops| - 1]), ops[|ops| - 1])
  }

  // ---------------------------------------------------------------------------
  // Bounds, over every run.

  ghost predicate DistinctKeys(l: seq<Entry>) {
    l == [] || (Lookup(l[1..], l[0].key).None? && DistinctKeys(l[1..]))
  }

  ghost predicate WithinBounds(c: Config, l: seq<Entry>) {
    DistinctKeys(l) && |l| <= c.maxEntries && Bytes(l) <= c.maxBytes
  }

  /** Removing a key hides exactly that key. */
  lemma {:induction false} LookupWithout(l: seq<Entry>, key: Key, other: Key)
    requires DistinctKeys(l)
    ensures Lookup(Without(l, key), other) == if other == key then None else Lookup(l, other)
  {
    if l != [] && l[0].key != key {
      LookupWithout(l[1..], key, other);
    }
  }

  /** The other keys stay distinct, and the removed entry's bytes are given back. */
  lemma {:induction false} WithoutKeeps(l: seq<Entry>, key: Key)
    requires DistinctKeys(l)
    ensures DistinctKeys(Without(l, key))
    ensures Bytes(Without(l, key)) == Bytes(l) - (if Lookup(l, key).Some? then Lookup(l, key).value.bytes else 0)
    ensures |Without(l, key)| == |l| - (if Lookup(l, key).Some? then 1 else 0)
    ensures Lookup(l, key).None? ==> Without(l, key) == l
  {
    if l != [] && l[0].key != key {
      WithoutKeeps(l[1..], key);
      LookupWithout(l[1..], key, l[0].key);
    }
  }

  lemma {:induction false} LookupKey(l: seq<Entry>, key: Key)
    ensures Lookup(l, key).Some? ==> Lookup(l, key).value.key == key
  {
    if l != [] {
      LookupKey(l[1..], key);
    }
  }

  /** A prefix of the list only forgets. */
  lemma {:induction false} PrefixForgets(l: seq<Entry>, n: nat, key: Key)
    requires n <= |l|
    ensures Lookup(l[..n], key).Some? ==> Lookup(l[..n], key) == Lookup(l, key)
  {
    if n > 0 {
      assert l[..n][1..] == l[1..][..n - 1];
      PrefixForgets(l[1..], n - 1, key);
    }
  }

  lemma {:induction false} PrefixDistinct(l: seq<Entry>, n: nat)
    requires n <= |l| && DistinctKeys(l)
    ensures DistinctKeys(l[..n])
  {
    if n > 0 {
      assert l[..n][1..] == l[1..][..n - 1];
      PrefixDistinct(l[1..], n - 1);
      PrefixForgets(l[1..], n - 1, l[0].key);
    }
  }

  lemma TrimStep(c: Config, l: seq<Entry>, need: nat)
    ensures Trim(c, l, need) == if l != [] && (|l| >= c.maxEntries || need > c.maxBytes - Bytes(l))
                                then Trim(c, l[..|l| - 1], need) else l
  {
  }

  /** Trimming keeps the longest prefix that leaves room for the new entry in both bounds. */
  lemma {:induction false} TrimFits(c: Config, l: seq<Entry>, need: nat)
    requires 0 < c.maxEntries && need <= c.maxBytes
    ensures |Trim(c, l, need)| <= |l| && Trim(c, l, need) == l[..|Trim(c, l, need)|]
    ensures |Trim(c, l, need)| < c.maxEntries && Bytes(Trim(c, l, need)) + need <= c.maxBytes
    ensures |Trim(c, l, need)| < |l| ==>
      var more := l[..|Trim(c, l, need)| + 1];
      |more| >= c.maxEntries || Bytes(more) + need > c.maxBytes
    decreases |l|
  {
    if l != [] && (|l| >= c.maxEntries || need > c.maxBytes - Bytes(l)) {
      var shorter := l[..|l| - 1];
      TrimFits(c, shorter, need);
      var n := |Trim(c, l, need)|;
      if n < |shorter| {
        assert shorter[..n + 1] == l[..n + 1];
      } else {
        assert l[..n + 1] == l;
      }
    }
  }

  /** Every operation keeps keys distinct and both capacity bounds. */
  lemma StepWithinBounds(c: Config, l: seq<Entry>, op: Op)
    requires WithinBounds(c, l)
    ensures WithinBounds(c, Step(c, l, op))
  {
    match op
    case Find(key, token) =>
      LookupKey(l, key);
      LookupWithout(l, key, key);
      WithoutKeeps(l, key);
    case Put(key, value, token, bytes) =>
      if value.Some? && Admits(c, bytes) {
        var rest := Without(l, key);
        LookupWithout(l, key, key);
        WithoutKeeps(l, key);
        TrimFits(c, rest, Max(1, bytes));
        var n := |Trim(c, rest, Max(1, bytes))|;
        PrefixDistinct(rest, n);
        PrefixForgets(rest, n, key);
      }
    case Clear =>
  }

  lemma {:induction false} RunWithinBounds(c: Config, ops: seq<Op>)
    ensures WithinBounds(c, Run(c, ops))
  {
    if ops != [] {
      RunWithinBounds(c, ops[..|ops| - 1]);
      StepWithinBounds(c, Run(c, ops[..|ops| - 1]), ops[|ops| - 1]);
    }
  }

  // ---------------------------------------------------------------------------
  // A map with forgetting.

  /** The last entry put under `key` that the cache admitted, since the last clear. */
  ghost function Latest(c: Config, ops: seq<Op>, key: Key): Option<Entry> {
    if ops == [] then None
    else
      match ops[|ops| - 1]
      case Put(k, value, token, bytes) =>
        if k == key && value.Some? && Admits(c, bytes) then Some(Entry(key, value.value, token, Max(1, bytes)))
        else Latest(c, ops[..|ops| - 1], key)
      case Find(_, _) => Latest(c, ops[..|ops| - 1], key)
      case Clear => None
  }

  /** Whatever the cache still holds under a key is the latest admitted entry; it never answers with an older one. */
  lemma {:induction false} HoldsLatest(c: Config, ops: seq<Op>, key: Key)
    ensures Lookup(Run(c, ops), key).Some? ==> Lookup(Run(c, ops), key) == Latest(c, ops, key)
  {
    if ops != [] {
      var before := ops[..|ops| - 1];
      var l := Run(c, before);
      HoldsLatest(c, before, key);
      RunWithinBounds(c, before);
      match ops[|ops| - 1]
      case Find(k, token) =>
        LookupKey(l, k);
        LookupWithout(l, k, key);
      case Put(k, value, token, bytes) =>
        if value.Some? && Admits(c, bytes) {
          var rest := Without(l, k);
          LookupWithout(l, k, key);
          TrimFits(c, rest, Max(1, bytes));
          PrefixForgets(rest, |Trim(c, rest, Max(1, bytes))|, key);
        }
      case Clear =>
    }
  }

  /** The entry a put asks for; sizes are charged as at least one byte. */
  function Asked(key: Key, value: Value, token: Token, bytes: nat): Entry {
    Entry(key, value, token, Max(1, bytes))
  }

  lemma {:induction false} LookupBytes(l: seq<Entry>, key: Key)
    ensures Lookup(l, key).Some? ==> Lookup(l, key).value.bytes <= Bytes(l)
  {
    if l != [] {
      LookupBytes(l[1..], key);
    }
  }

  /** A put takes effect exactly when it is admitted: what is not admitted is not stored and never was. */
  lemma PutTakesEffectIff(c: Config, l: seq<Entry>, key: Key, value: Value, token: Token, bytes: nat)
    requires WithinBounds(c, l)
    ensures Lookup(Step(c, l, Put(key, Some(value), token, bytes)), key) == Some(Asked(key, value, token, bytes)) <==>
            Admits(c, bytes)
    ensures Hit(Step(c, l, Put(key, Some(value), token, bytes)), key, token) == Some(value) <==>
            Admits(c, bytes) || Hit(l, key, token) == Some(value)
    ensures !Admits(c, bytes) ==> Step(c, l, Put(key, Some(value), token, bytes)) == l
  {
    if !Admits(c, bytes) {
      LookupBytes(l, key);
      if l != [] {
        assert c.maxEntries > 0;
      }
    }
  }

  /** The last value put under a key since the last clear, admitted or not. */
  ghost function LastPut(ops: seq<Op>, key: Key): Option<Entry> {
    if ops == [] then None
    else
      match ops[|ops| - 1]
      case Put(k, value, token, bytes) =>
        if k == key && value.Some? then Some(Asked(key, value.value, token, bytes)) else LastPut(ops[..|ops| - 1], key)
      case Find(_, _) => LastPut(ops[..|ops| - 1], key)
      case Clear => None
  }

  lemma {:induction false} LatestIsAdmittedPut(c: Config, ops: seq<Op>, key: Key)
    ensures Latest(c, ops, key).Some? ==> Admits(c, Latest(c, ops, key).value.bytes) && LastPut(ops, key).Some?
    ensures LastPut(ops, key).Some? && Admits(c, LastPut(ops, key).value.bytes) ==> Latest(c, ops, key) == LastPut(ops, key)
  {
    if ops != [] {
      LatestIsAdmittedPut(c, ops[..|ops| - 1], key);
    }
  }

  /** After any run, what is held under a key is the last value put there exactly when that put was admitted. */
  lemma HoldsLastPutIff(c: Config, ops: seq<Op>, key: Key)
    requires Lookup(Run(c, ops), key).Some?
    ensures LastPut(ops, key).Some?
    ensures Lookup(Run(c, ops), key) == LastPut(ops, key) <==> Admits(c, LastPut(ops, key).value.bytes)
  {
    hide Run;
    HoldsLatest(c, ops, key);
    LatestIsAdmittedPut(c, ops, key);
  }

  // ---------------------------------------------------------------------------
  // Least recently used.

  /** The operation uses the key: it finds it, or puts a value under it that fits the cache. */
  ghost predicate Uses(c: Config, l: seq<Entry>, op: Op, key: Key) {
    match op
    case Find(k, token) => k == key && Hit(l, k, token).Some?
    case Put(k, value, token, bytes) => k == key && value.Some? && 0 < c.maxEntries && 0 < c.maxBytes && bytes <= c.maxBytes
    case Clear => false
  }

  /** One more than the position of the last operation that used the key. */
  ghost function LastUse(c: Config, ops: seq<Op>, key: Key): (n: nat)
    ensures n <= |ops|
  {
    if ops == [] then 0
    else if Uses(c, Run(c, ops[..|ops| - 1]), ops[|ops| - 1], key) then |ops|
    else LastUse(c, ops[..|ops| - 1], key)
  }

  ghost predicate UsedBefore(c: Config, ops: seq<Op>, l: seq<Entry>, n: nat) {
    forall e :: e in l ==> LastUse(c, ops, e.key) < n
  }

  /** Each entry was used after all entries behind it. */
  ghost predicate RecentFirst(c: Config, ops: seq<Op>, l: seq<Entry>) {
    l == [] || (UsedBefore(c, ops, l[1..], LastUse(c, ops, l[0].key)) && RecentFirst(c, ops, l[1..]))
  }

  lemma {:induction false} WithoutRecent(c: Config, ops: seq<Op>, l: seq<Entry>, key: Key)
    requires RecentFirst(c, ops, l) && DistinctKeys(l)
    ensures RecentFirst(c, ops, Without(l, key))
    ensures forall e :: e in Without(l, key) ==> e in l && e.key != key
  {
    hide LastUse;
    if l != [] {
      if l[0].key == key {
        NotHeld(l[1..], key);
      } else {
        WithoutRecent(c, ops, l[1..], key);
        assert Without(l, key)[1..] == Without(l[1..], key);
      }
    }
  }

  lemma {:induction false} NotHeld(l: seq<Entry>, key: Key)
    requires Lookup(l, key).None?
    ensures forall e :: e in l ==> e.key != key
  {
    if l != [] {
      NotHeld(l[1..], key);
    }
  }

  lemma {:induction false} PrefixRecent(c: Config, ops: seq<Op>, l: seq<Entry>, n: nat)
    requires RecentFirst(c, ops, l) && n <= |l|
    ensures RecentFirst(c, ops, l[..n])
  {
    hide LastUse;
    if n > 0 {
      PrefixRecent(c, ops, l[1..], n - 1);
      assert l[..n][1..] == l[1..][..n - 1];
    }
  }

  /** Entries that an operation does not use keep their order, and come behind the one it does. */
  lemma {:induction false} UnusedKeep(c: Config, ops: seq<Op>, l: seq<Entry>)
    requires ops != [] && RecentFirst(c, ops[..|ops| - 1], l)
    requires forall e :: e in l ==> !Uses(c, Run(c, ops[..|ops| - 1]), ops[|ops| - 1], e.key)
    ensures RecentFirst(c, ops, l) && UsedBefore(c, ops, l, |ops|)
  {
    hide Uses, Run;
    if l != [] {
      UnusedKeep(c, ops, l[1..]);
      assert l[0] in l;
    }
  }

  /** After every run the entries are in the order of their last use, the latest first. */
  lemma {:induction false} RunRecent(c: Config, ops: seq<Op>)
    ensures RecentFirst(c, ops, Run(c, ops))
  {
    hide LastUse, RecentFirst, UsedBefore, Run;
    RunUnfolds(c, ops);
    if ops == [] {
      NothingRecent(c, ops);
    } else {
      var before, op := ops[..|ops| - 1], ops[|ops| - 1];
      var l := Run(c, before);
      RunRecent(c, before);
      RunWithinBounds(c, before);
      match op
      case Find(key, token) => FindRecent(c, ops, key, token);
      case Put(key, value, token, bytes) => PutRecent(c, ops, key, value, token, bytes);
      case Clear => NothingRecent(c, ops);
    }
  }

  lemma RunUnfolds(c: Config, ops: seq<Op>)
    ensures ops == [] ==> Run(c, ops) == []
    ensures ops != [] ==> Run(c, ops) == Step(c, Run(c, ops[..|ops| - 1]), ops[|ops| - 1])
  {
  }

  lemma NothingRecent(c: Config, ops: seq<Op>)
    ensures RecentFirst(c, ops, [])
  {
  }

  lemma FindRecent(c: Config, ops: seq<Op>, key: Key, token: Token)
    requires ops != [] && ops[|ops| - 1] == Find(key, token)
    requires var l := Run(c, ops[..|ops| - 1]); RecentFirst(c, ops[..|ops| - 1], l) && DistinctKeys(l)
    ensures RecentFirst(c, ops, Touch(Run(c, ops[..|ops| - 1]), key, token))
  {
    hide RecentFirst, UsedBefore, Run;
    var before := ops[..|ops| - 1];
    var l := Run(c, before);
    if Hit(l, key, token).Some? {
      WithoutRecent(c, before, l, key);
      UnusedKeep(c, ops, Without(l, key));
      LookupKey(l, key);
      FrontRecent(c, ops, Lookup(l, key).value, Without(l, key));
    } else {
      UnusedKeep(c, ops, l);
    }
  }

  lemma PutRecent(c: Config, ops: seq<Op>, key: Key, value: Option<Value>, token: Token, bytes: nat)
    requires ops != [] && ops[|ops| - 1] == Put(key, value, token, bytes)
    requires var l := Run(c, ops[..|ops| - 1]); RecentFirst(c, ops[..|ops| - 1], l) && DistinctKeys(l)
    ensures RecentFirst(c, ops, Store(c, Run(c, ops[..|ops| - 1]), key, value, token, bytes))
  {
    hide RecentFirst, UsedBefore, Run, Trim;
    var before := ops[..|ops| - 1];
    var l := Run(c, before);
    if value.Some? && Admits(c, bytes) {
      var rest := Without(l, key);
      var kept := Trim(c, rest, Max(1, bytes));
      WithoutRecent(c, before, l, key);
      TrimFits(c, rest, Max(1, bytes));
      PrefixRecent(c, before, rest, |kept|);
      assert forall e :: e in kept ==> e in rest;
      UnusedKeep(c, ops, kept);
      FrontRecent(c, ops, Asked(key, value.value, token, bytes), kept);
    } else {
      UnusedKeep(c, ops, l);
    }
  }

  lemma FrontRecent(c: Config, ops: seq<Op>, e: Entry, rest: seq<Entry>)
    requires RecentFirst(c, ops, rest) && UsedBefore(c, ops, rest, LastUse(c, ops, e.key))
    ensures RecentFirst(c, ops, [e] + rest)
  {
    assert ([e] + rest)[1..] == rest;
  }

  /** What a put drops was used before everything it keeps. */
  lemma EvictsLeastRecent(c: Config, ops: seq<Op>, op: Op, x: Key, y: Key)
    requires op.Put? && op.key != x && op.key != y && Lookup(Run(c, ops), x).Some? && Lookup(Run(c, ops), y).Some?
    requires Lookup(Run(c, ops + [op]), x).None? && Lookup(Run(c, ops + [op]), y).Some?
    ensures LastUse(c, ops, x) < LastUse(c, ops, y)
  {
    hide LastUse, RecentFirst, UsedBefore, Run, Trim;
    assert (ops + [op])[..|ops|] == ops;
    RunUnfolds(c, ops + [op]);
    RunRecent(c, ops);
    RunWithinBounds(c, ops);
    var l := Run(c, ops);
    if op.value.Some? && Admits(c, op.bytes) {
      var rest := Without(l, op.key);
      WithoutRecent(c, ops, l, op.key);
      LookupWithout(l, op.key, x);
      LookupWithout(l, op.key, y);
      TrimFits(c, rest, Max(1, op.bytes));
      var kept := Trim(c, rest, Max(1, op.bytes));
      assert ([Asked(op.key, op.value.value, op.token, op.bytes)] + kept)[1..] == kept;
      PrefixIsRecent(c, ops, rest, |kept|, x, y);
    }
  }

  lemma {:induction false} PrefixIsRecent(c: Config, ops: seq<Op>, l: seq<Entry>, n: nat, x: Key, y: Key)
    requires RecentFirst(c, ops, l) && n <= |l| && Lookup(l, x).Some?
    requires Lookup(l[..n], x).None? && Lookup(l[..n], y).Some?
    ensures LastUse(c, ops, x) < LastUse(c, ops, y)
  {
    hide LastUse;
    if n > 0 {
      assert l[..n][1..] == l[1..][..n - 1];
      if l[0].key == y {
        FoundIsHeld(l[1..], x);
      } else {
        PrefixIsRecent(c, ops, l[1..], n - 1, x, y);
      }
    }
  }

  lemma {:induction false} FoundIsHeld(l: seq<Entry>, key: Key)
    requires Lookup(l, key).Some?
    ensures Lookup(l, key).value in l && Lookup(l, key).value.key == key
  {
    if l[0].key != key {
      FoundIsHeld(l[1..], key);
    }
  }

  // ---------------------------------------------------------------------------
  // Inclusion.

  /** `a` is `b` with some entries left out. */
  ghost predicate Subsequence(a: seq<Entry>, b: seq<Entry>) {
    a == [] || (b != [] && if a[0] == b[0] then Subsequence(a[1..], b[1..]) else Subsequence(a, b[1..]))
  }

  lemma {:induction false} SubsequenceLengths(a: seq<Entry>, b: seq<Entry>)
    requires Subsequence(a, b)
    ensures |a| <= |b| && Bytes(a) <= Bytes(b)
    ensures |a| == |b| ==> a == b
  {
    if a != [] {
      if a[0] == b[0] {
        SubsequenceLengths(a[1..], b[1..]);
      } else {
        SubsequenceLengths(a, b[1..]);
      }
    }
  }

  /** The larger list answers every lookup the smaller one answers, identically. */
  lemma {:induction false} SubsequenceLookup(a: seq<Entry>, b: seq<Entry>, key: Key)
    requires Subsequence(a, b) && DistinctKeys(b)
    ensures Lookup(a, key).Some? ==> Lookup(b, key) == Lookup(a, key)
  {
    if a != [] {
      if a[0] == b[0] {
        SubsequenceLookup(a[1..], b[1..], key);
      } else {
        SubsequenceLookup(a, b[1..], key);
      }
    }
  }

  lemma {:induction false} SubsequenceTail(a: seq<Entry>, b: seq<Entry>)
    requires Subsequence(a, b) && a != []
    ensures Subsequence(a[1..], b)
  {
    if a[0] == b[0] {
      if a[1..] != [] && a[1] == b[0] {
        SubsequenceTail(a[1..], b[1..]);
      }
    } else {
      SubsequenceTail(a, b[1..]);
      if a[1..] != [] && a[1] == b[0] {
        SubsequenceTail(a[1..], b[1..]);
      }
    }
  }

  /** Dropping the last entry of both keeps inclusion. */
  lemma {:induction false} SubsequenceDropLast(a: seq<Entry>, b: seq<Entry>)
    requires Subsequence(a, b) && b != []
    ensures Subsequence(a[..Max(0, |a| - 1)], b[..|b| - 1])
  {
    SubsequenceLengths(a, b);
    if |a| > 1 {
      var a', b' := a[..|a| - 1], b[..|b| - 1];
      SubsequenceLengths(a, b);
      if a[0] == b[0] {
        SubsequenceDropLast(a[1..], b[1..]);
        assert a'[1..] == a[1..][..|a| - 2] && b'[1..] == b[1..][..|b| - 2];
      } else {
        SubsequenceLengths(a, b[1..]);
        SubsequenceDropLast(a, b[1..]);
        assert b'[1..] == b[1..][..|b| - 2];
      }
    }
  }

  lemma {:induction false} PrefixIsSubsequence(a: seq<Entry>, n: nat, b: seq<Entry>)
    requires n <= |a| && Subsequence(a, b)
    ensures Subsequence(a[..n], b)
  {
    if n > 0 {
      if a[0] == b[0] {
        PrefixIsSubsequence(a[1..], n - 1, b[1..]);
        assert a[..n][1..] == a[1..][..n - 1];
      } else {
        PrefixIsSubsequence(a, n, b[1..]);
      }
    }
  }

  lemma {:induction false} SubsequenceWithout(a: seq<Entry>, b: seq<Entry>, key: Key)
    requires Subsequence(a, b) && DistinctKeys(a) && DistinctKeys(b)
    ensures Subsequence(Without(a, key), Without(b, key))
  {
    if a != [] {
      SubsequenceLookup(a, b, key);
      if a[0] == b[0] {
        if a[0].key != key {
          SubsequenceWithout(a[1..], b[1..], key);
        }
      } else if b[0].key == key {
        SubsequenceLookup(a, b[1..], key);
        WithoutKeeps(a, key);
      } else {
        SubsequenceWithout(a, b[1..], key);
        var w := Without(b, key);
        assert w[1..] == Without(b[1..], key);
        if Without(a, key) != [] && Without(a, key)[0] == w[0] {
          SubsequenceTail(Without(a, key), w[1..]);
        }
      }
    }
  }

  lemma SubsequenceExtend(e: Entry, a: seq<Entry>, b: seq<Entry>)
    requires Subsequence(a, b)
    ensures Subsequence([e] + a, [e] + b)
  {
    assert ([e] + a)[1..] == a && ([e] + b)[1..] == b;
  }

  /** A larger cache may hold entries in front that the smaller one lacks. */
  lemma SubsequenceSkip(e: Entry, a: seq<Entry>, b: seq<Entry>)
    requires Subsequence(a, b) && (a != [] ==> a[0].key != e.key)
    ensures Subsequence(a, [e] + b)
  {
    assert ([e] + b)[1..] == b;
  }

  /** The entry bound alone decides what is dropped before this operation's insertion. */
  ghost predicate ByteBoundIdle(c: Config, l: seq<Entry>, op: Op) {
    op.Put? && op.value.Some? && Admits(c, op.bytes) ==>
      Bytes(Without(l, op.key)[..Min(|Without(l, op.key)|, c.maxEntries - 1)]) + Max(1, op.bytes) <= c.maxBytes
  }

  lemma {:induction false} BytesOfPrefix(l: seq<Entry>, n: nat, m: nat)
    requires n <= m <= |l|
    ensures Bytes(l[..n]) <= Bytes(l[..m])
  {
    if n > 0 {
      assert l[..n][1..] == l[1..][..n - 1] && l[..m][1..] == l[1..][..m - 1];
      BytesOfPrefix(l[1..], n - 1, m - 1);
    }
  }

  lemma TrimByEntries(c: Config, l: seq<Entry>, need: nat)
    requires 0 < c.maxEntries && need <= c.maxBytes
    requires Bytes(l[..Min(|l|, c.maxEntries - 1)]) + need <= c.maxBytes
    ensures Trim(c, l, need) == l[..Min(|l|, c.maxEntries - 1)]
  {
    TrimFits(c, l, need);
    var n := |Trim(c, l, need)|;
    if n < Min(|l|, c.maxEntries - 1) {
      BytesOfPrefix(l, n + 1, Min(|l|, c.maxEntries - 1));
    }
  }

  /** The smaller cache's list is the larger one's with entries left out, and lacks none until it is full. */
  ghost predicate Included(n: nat, a: seq<Entry>, b: seq<Entry>) {
    Subsequence(a, b) && (|a| == n || |a| == |b|)
  }

  lemma IncludedAfterFind(n: nat, a: seq<Entry>, b: seq<Entry>, key: Key, token: Token)
    requires DistinctKeys(a) && DistinctKeys(b) && Included(n, a, b)
    ensures Included(n, Touch(a, key, token), Touch(b, key, token))
  {
    SubsequenceLookup(a, b, key);
    SubsequenceWithout(a, b, key);
    SubsequenceLengths(a, b);
    WithoutKeeps(a, key);
    WithoutKeeps(b, key);
    LookupKey(b, key);
    if Lookup(b, key).Some? {
      var e := Lookup(b, key).value;
      SubsequenceExtend(e, Without(a, key), Without(b, key));
      if Lookup(a, key).None? {
        SubsequenceSkip(e, a, Without(b, key));
      }
    }
  }

  lemma IncludedAfterPut(c: Config, n: nat, a: seq<Entry>, b: seq<Entry>, key: Key, value: Value, token: Token, bytes: nat)
    requires WithinBounds(c.(maxEntries := n), a) && WithinBounds(c, b) && n <= c.maxEntries && Included(n, a, b)
    requires 0 < n && Admits(c, bytes) && ByteBoundIdle(c, b, Put(key, Some(value), token, bytes))
    ensures Included(n, Store(c.(maxEntries := n), a, key, Some(value), token, bytes),
                        Store(c, b, key, Some(value), token, bytes))
  {
    hide Lookup, Without, Trim, Bytes, DistinctKeys;
    var need := Max(1, bytes);
    var a', b' := Without(a, key), Without(b, key);
    SubsequenceWithout(a, b, key);
    SubsequenceLengths(a, b);
    SubsequenceLookup(a, b, key);
    WithoutKeeps(a, key);
    WithoutKeeps(b, key);
    var i, j := Min(|a'|, n - 1), Min(|b'|, c.maxEntries - 1);
    assert Subsequence(a'[..i], b'[..j]) by {
      if |b'| < c.maxEntries {
        PrefixIsSubsequence(a', i, b');
        assert b'[..j] == b';
      } else {
        SubsequenceDropLast(a', b');
        assert |a| == n;
      }
    }
    SubsequenceLengths(a'[..i], b'[..j]);
    TrimByEntries(c.(maxEntries := n), a', need);
    TrimByEntries(c, b', need);
    SubsequenceExtend(Entry(key, value, token, need), a'[..i], b'[..j]);
  }

  /** No operation of the run has to drop entries for the sake of bytes. */
  ghost predicate BytesNeverBind(c: Config, ops: seq<Op>) {
    ops == [] || (BytesNeverBind(c, ops[..|ops| - 1]) && ByteBoundIdle(c, Run(c, ops[..|ops| - 1]), ops[|ops| - 1]))
  }

  /** While bytes never bind, a cache with more entries holds everything a smaller one does, in the same order. */
  lemma {:induction false} LargerCacheIncludes(c: Config, n: nat, ops: seq<Op>)
    requires n <= c.maxEntries && BytesNeverBind(c, ops)
    ensures Included(n, Run(c.(maxEntries := n), ops), Run(c, ops))
  {
    if ops != [] {
      var before, op := ops[..|ops| - 1], ops[|ops| - 1];
      var small := c.(maxEntries := n);
      LargerCacheIncludes(c, n, before);
      RunWithinBounds(c, before);
      RunWithinBounds(small, before);
      var a, b := Run(small, before), Run(c, before);
      match op
      case Find(key, token) => IncludedAfterFind(n, a, b, key, token);
      case Put(key, value, token, bytes) =>
        if 0 < n && value.Some? && Admits(c, bytes) {
          IncludedAfterPut(c, n, a, b, key, value.value, token, bytes);
        }
      case Clear =>
    }
  }

  /** So more entries never turn a hit into a miss, nor into a different value. */
  lemma LargerCacheKeepsHits(c: Config, n: nat, ops: seq<Op>, key: Key, token: Token)
    requires n <= c.maxEntries && BytesNeverBind(c, ops)
    requires Hit(Run(c.(maxEntries := n), ops), key, token).Some?
    ensures Hit(Run(c, ops), key, token) == Hit(Run(c.(maxEntries := n), ops), key, token)
  {
    LargerCacheIncludes(c, n, ops);
    RunWithinBounds(c, ops);
    SubsequenceLookup(Run(c.(maxEntries := n), ops), Run(c, ops), key);
  }

  // ---------------------------------------------------------------------------
  // Which capacities keep inclusion.

  /** Every hit of the cache with fewer entries is a hit of the other one, with the same value. */
  ghost predicate KeepsHits(c: Config, n: nat, ops: seq<Op>) {
    forall key, token :: Hit(Run(c.(maxEntries := n), ops), key, token).Some? ==>
                           Hit(Run(c, ops), key, token) == Hit(Run(c.(maxEntries := n), ops), key, token)
  }

  /** Every entry costs something. */
  ghost predicate Charged(l: seq<Entry>) {
    forall k :: 0 <= k < |l| ==> 1 <= l[k].bytes
  }

  lemma {:induction false} ChargedBytes(l: seq<Entry>)
    requires Charged(l)
    ensures |l| <= Bytes(l)
  {
    if l != [] {
      ChargedBytes(l[1..]);
    }
  }

  lemma {:induction false} ChargedWithout(l: seq<Entry>, key: Key)
    requires Charged(l)
    ensures Charged(Without(l, key)) && (Lookup(l, key).Some? ==> 1 <= Lookup(l, key).value.bytes)
  {
    if l != [] && l[0].key != key {
      ChargedWithout(l[1..], key);
    }
  }

  /** With no more bytes than entries the byte bound always binds first. */
  lemma {:induction false} TrimByBytes(c: Config, n: nat, l: seq<Entry>, need: nat)
    requires Charged(l) && 1 <= need && c.maxBytes <= n <= c.maxEntries
    ensures Trim(c.(maxEntries := n), l, need) == Trim(c, l, need)
    decreases |l|
  {
    hide Bytes;
    ChargedBytes(l);
    if l != [] {
      TrimByBytes(c, n, l[..|l| - 1], need);
    }
  }

  lemma StepByBytes(c: Config, n: nat, l: seq<Entry>, op: Op)
    requires Charged(l) && c.maxBytes <= n <= c.maxEntries
    ensures Step(c.(maxEntries := n), l, op) == Step(c, l, op) && Charged(Step(c, l, op))
  {
    hide Lookup, Without, Trim;
    match op
    case Find(key, token) => ChargedWithout(l, key);
    case Put(key, value, token, bytes) =>
      if value.Some? && Admits(c, bytes) {
        ChargedWithout(l, key);
        TrimByBytes(c, n, Without(l, key), Max(1, bytes));
        TrimFits(c, Without(l, key), Max(1, bytes));
      }
    case Clear =>
  }

  lemma {:induction false} RunByBytes(c: Config, n: nat, ops: seq<Op>)
    requires c.maxBytes <= n <= c.maxEntries
    ensures Run(c.(maxEntries := n), ops) == Run(c, ops) && Charged(Run(c, ops))
  {
    hide Step;
    if ops != [] {
      RunByBytes(c, n, ops[..|ops| - 1]);
      StepByBytes(c, n, Run(c, ops[..|ops| - 1]), ops[|ops| - 1]);
    }
  }

  /** A single entry is the last one admitted, which no cache has dropped yet. */
  ghost predicate HoldsNewest(a: seq<Entry>, b: seq<Entry>) {
    |a| <= 1 && (a != [] ==> Lookup(b, a[0].key) == Some(a[0]))
  }

  lemma TouchSingle(a: seq<Entry>, key: Key, token: Token)
    requires |a| == 1
    ensures Touch(a, key, token) == a
  {
    assert a[1..] == [];
    if a[0].key == key {
      assert Without(a, key) == [];
    } else {
      assert Lookup(a, key) == None;
    }
  }

  lemma NewestStays(c: Config, n: nat, a: seq<Entry>, b: seq<Entry>, op: Op)
    requires n <= 1 <= c.maxEntries && HoldsNewest(a, b) && WithinBounds(c.(maxEntries := n), a) && WithinBounds(c, b)
    ensures HoldsNewest(Step(c.(maxEntries := n), a, op), Step(c, b, op))
  {
    hide Trim;
    match op
    case Find(key, token) =>
      LookupKey(b, key);
      if a != [] {
        LookupWithout(b, key, a[0].key);
        TouchSingle(a, key, token);
      }
    case Put(key, value, token, bytes) =>
      if n == 1 && value.Some? && Admits(c, bytes) {
        TrimFits(c.(maxEntries := n), Without(a, key), Max(1, bytes));
      }
    case Clear =>
  }

  lemma {:induction false} RunNewest(c: Config, n: nat, ops: seq<Op>)
    requires n <= 1 <= c.maxEntries
    ensures HoldsNewest(Run(c.(maxEntries := n), ops), Run(c, ops))
  {
    hide Step, HoldsNewest, WithinBounds;
    if ops == [] {
      NothingHeld();
    } else {
      var before := ops[..|ops| - 1];
      RunNewest(c, n, before);
      RunWithinBounds(c, before);
      RunWithinBounds(c.(maxEntries := n), before);
      NewestStays(c, n, Run(c.(maxEntries := n), before), Run(c, before), ops[|ops| - 1]);
    }
  }

  lemma NothingHeld()
    ensures HoldsNewest([], [])
  {
  }

  // A run on which inclusion fails.

  function ExampleKey(hash: u64): Key {
    Key(hash, 0, 0, 0, 0, 0, 0, 0, 0, 0, false)
  }

  function Example(k: u64): Entry {
    Entry(ExampleKey(k), k, 0, 1)
  }

  /** One byte under each of the first `k` keys. */
  function Puts(k: nat): seq<Op>
    requires k <= U64_LIMIT
  {
    if k == 0 then [] else Puts(k - 1) + [Put(ExampleKey(k - 1), Some(k - 1), 0, 1)]
  }

  /** The entries of the keys below `hi`, newest first. */
  function Newest(hi: nat, len: nat): (l: seq<Entry>)
    requires len <= hi <= U64_LIMIT
    ensures |l| == len && forall i :: 0 <= i < len ==> l[i] == Example(hi - 1 - i)
  {
    if len == 0 then [] else [Example(hi - 1)] + Newest(hi - 1, len - 1)
  }

  lemma {:induction false} NewestHolds(hi: nat, len: nat, k: u64)
    requires len <= hi <= U64_LIMIT
    ensures Bytes(Newest(hi, len)) == len
    ensures Lookup(Newest(hi, len), ExampleKey(k)) == if hi - len <= k < hi then Some(Example(k)) else None
    ensures !(hi - len <= k < hi) ==> Without(Newest(hi, len), ExampleKey(k)) == Newest(hi, len)
    decreases len
  {
    if len > 0 {
      NewestHolds(hi - 1, len - 1, k);
    }
  }

  lemma {:induction false} NewestWithoutLast(hi: nat, len: nat)
    requires 0 < len <= hi <= U64_LIMIT
    ensures Without(Newest(hi, len), ExampleKey(hi - len)) == Newest(hi, len - 1)
    ensures Newest(hi, len)[..len - 1] == Newest(hi, len - 1)
    decreases len
  {
    if len > 1 {
      NewestWithoutLast(hi - 1, len - 1);
    }
  }

  lemma NewestPrefix(hi: nat, len: nat, n: nat)
    requires n <= len <= hi <= U64_LIMIT
    ensures Newest(hi, len)[..n] == Newest(hi, n)
  {
  }

  /** One-byte entries are dropped by count alone. */
  lemma {:induction false} TrimOnes(c: Config, l: seq<Entry>, need: nat)
    requires 0 < c.maxEntries && need <= c.maxBytes && forall k :: 0 <= k < |l| ==> l[k].bytes == 1
    ensures Trim(c, l, need) == l[..Min(|l|, Min(c.maxEntries - 1, c.maxBytes - need))]
    decreases |l|
  {
    hide Bytes;
    OnesBytes(l);
    if l != [] {
      TrimOnes(c, l[..|l| - 1], need);
    }
  }

  lemma {:induction false} OnesBytes(l: seq<Entry>)
    requires forall k :: 0 <= k < |l| ==> l[k].bytes == 1
    ensures Bytes(l) == |l|
  {
    if l != [] {
      OnesBytes(l[1..]);
    }
  }

  lemma PutNext(c: Config, k: u64)
    requires 0 < c.maxEntries && 0 < c.maxBytes && Min(k + 1, c.maxEntries) <= c.maxBytes
    ensures Step(c, Newest(k, Min(k, c.maxEntries)), Put(ExampleKey(k), Some(k), 0, 1)) ==
            Newest(k + 1, Min(k + 1, c.maxEntries))
  {
    hide Lookup, Without, Trim, Bytes;
    var len := Min(k, c.maxEntries);
    NewestHolds(k, len, k);
    TrimOnes(c, Newest(k, len), 1);
    NewestPrefix(k, len, Min(k + 1, c.maxEntries) - 1);
  }

  lemma {:induction false} RunPuts(c: Config, k: nat)
    requires k <= U64_LIMIT && 0 < c.maxEntries && 0 < c.maxBytes && Min(k, c.maxEntries) <= c.maxBytes
    ensures Run(c, Puts(k)) == Newest(k, Min(k, c.maxEntries))
  {
    hide Step, Newest;
    if k > 0 {
      RunPuts(c, k - 1);
      assert Puts(k)[..|Puts(k)| - 1] == Puts(k - 1);
      PutNext(c, k - 1);
    } else {
      NewestPrefix(0, 0, 0);
    }
  }

  /** One key more than the smaller cache holds, the oldest used again, and a result that leaves room for `n - 1` bytes. */
  function Breaking(c: Config, n: nat): seq<Op>
    requires 1 < n < U64_MAX && n < c.maxBytes
  {
    Puts(n + 1) + [Find(ExampleKey(0), 0), Put(ExampleKey(n + 1), Some(n + 1), 0, c.maxBytes - (n - 1))]
  }

  lemma RunBreaking(c: Config, ops: seq<Op>, p: Op, q: Op)
    ensures Run(c, ops + [p, q]) == Step(c, Step(c, Run(c, ops), p), q)
  {
    hide Step;
    assert (ops + [p, q])[..|ops| + 1] == ops + [p] && (ops + [p])[..|ops|] == ops;
  }

  /** The smaller cache drops keys 0 and 1; the larger one still has both, keeps 0, and drops 2 for it. */
  lemma ByteBoundBreaksInclusion(c: Config, n: nat)
    requires 1 < n < c.maxBytes && n < c.maxEntries <= U64_MAX
    ensures Hit(Run(c.(maxEntries := n), Breaking(c, n)), ExampleKey(2), 0) == Some(2)
    ensures Hit(Run(c, Breaking(c, n)), ExampleKey(2), 0) == None
  {
    hide Run, Puts, Step;
    var find, put := Find(ExampleKey(0), 0), Put(ExampleKey(n + 1), Some(n + 1), 0, c.maxBytes - (n - 1));
    RunPuts(c.(maxEntries := n), n + 1);
    RunPuts(c, n + 1);
    RunBreaking(c.(maxEntries := n), Puts(n + 1), find, put);
    RunBreaking(c, Puts(n + 1), find, put);
    SmallerKeeps(c.(maxEntries := n), n);
    LargerDrops(c, n);
  }

  lemma SmallerKeeps(c: Config, n: nat)
    requires 1 < n == c.maxEntries < c.maxBytes && n < U64_MAX
    ensures var l := Step(c, Newest(n + 1, n), Find(ExampleKey(0), 0));
            Hit(Step(c, l, Put(ExampleKey(n + 1), Some(n + 1), 0, c.maxBytes - (n - 1))), ExampleKey(2), 0) == Some(2)
  {
    hide Without, Trim, Bytes, Newest;
    var l := Newest(n + 1, n);
    NewestHolds(n + 1, n, 0);
    NewestHolds(n + 1, n, n + 1);
    TrimOnes(c, l, c.maxBytes - (n - 1));
    NewestPrefix(n + 1, n, n - 1);
    NewestHolds(n + 1, n - 1, 2);
    var put := [Entry(ExampleKey(n + 1), n + 1, 0, c.maxBytes - (n - 1))];
    assert (put + Newest(n + 1, n - 1))[1..] == Newest(n + 1, n - 1);
  }

  lemma LargerDrops(c: Config, n: nat)
    requires 1 < n < c.maxBytes && n < c.maxEntries <= U64_MAX
    ensures var l := Step(c, Newest(n + 1, n + 1), Find(ExampleKey(0), 0));
            Hit(Step(c, l, Put(ExampleKey(n + 1), Some(n + 1), 0, c.maxBytes - (n - 1))), ExampleKey(2), 0) == None
  {
    hide Lookup, Without, Trim, Bytes, Newest;
    var l := [Example(0)] + Newest(n + 1, n);
    NewestHolds(n + 1, n + 1, 0);
    NewestWithoutLast(n + 1, n + 1);
    assert Step(c, Newest(n + 1, n + 1), Find(ExampleKey(0), 0)) == l;
    NewestHolds(n + 1, n, n + 1);
    Front(Example(0), Newest(n + 1, n), ExampleKey(n + 1));
    TrimOnes(c, l, c.maxBytes - (n - 1));
    NewestPrefix(n + 1, n, n - 2);
    var kept := [Example(0)] + Newest(n + 1, n - 2);
    assert l[..n - 1] == kept;
    NewestHolds(n + 1, n - 2, 2);
    Front(Example(0), Newest(n + 1, n - 2), ExampleKey(2));
    Front(Entry(ExampleKey(n + 1), n + 1, 0, c.maxBytes - (n - 1)), kept, ExampleKey(2));
  }

  lemma Front(e: Entry, rest: seq<Entry>, key: Key)
    ensures e.key != key ==> Lookup([e] + rest, key) == Lookup(rest, key)
    ensures e.key != key ==> Without([e] + rest, key) == [e] + Without(rest, key)
  {
    assert ([e] + rest)[1..] == rest;
  }

  /**
    More entries keep every hit of every run exactly when the smaller cache holds at most one entry, or has as
    many entries as bytes. Otherwise some run hits in the smaller cache and misses in the larger one.
   */
  lemma InclusionIff(c: Config, n: nat)
    requires n < c.maxEntries <= U64_MAX
    ensures (forall ops :: KeepsHits(c, n, ops)) <==> n <= 1 || c.maxBytes <= n
  {
    hide Run;
    if n <= 1 || c.maxBytes <= n {
      forall ops
        ensures KeepsHits(c, n, ops)
      {
        if c.maxBytes <= n {
          RunByBytes(c, n, ops);
        } else {
          RunNewest(c, n, ops);
          NewestHits(Run(c.(maxEntries := n), ops), Run(c, ops));
        }
      }
    } else {
      ByteBoundBreaksInclusion(c, n);
      assert !KeepsHits(c, n, Breaking(c, n));
    }
  }

  lemma NewestHits(a: seq<Entry>, b: seq<Entry>)
    requires HoldsNewest(a, b)
    ensures forall key, token :: Hit(a, key, token).Some? ==> Hit(b, key, token) == Hit(a, key, token)
  {
    if a != [] {
      assert a[1..] == [];
      assert forall key :: a[0].key != key ==> Lookup(a, key) == None;
    }
  }

  // ---------------------------------------------------------------------------
  // The class.

  /** A list node; the index refers to nodes, so their identity survives moves. */
  class Node {
    const entry: Entry

    constructor (entry: Entry)
      ensures this.entry == entry
    {
      this.entry := entry;
    }
  }

  function Entries(nodes: seq<Node>): (l: seq<Entry>)
    ensures |l| == |nodes| && forall i :: 0 <= i < |l| ==> l[i] == nodes[i].entry
  {
    if nodes == [] then [] else [nodes[0].entry] + Entries(nodes[1..])
  }

  function Unlinked(nodes: seq<Node>, node: Node): seq<Node> {
    if nodes == [] then [] else if nodes[0] == node then nodes[1..] else [nodes[0]] + Unlinked(nodes[1..], node)
  }

  /** The index sends every key to its node, and every node is indexed under its own key. */
  ghost predicate Indexed(nodes: seq<Node>, index: map<Key, Node>) {
    && (forall key :: key in index ==> index[key] in nodes && index[key].entry.key == key)
    && (forall node :: node in nodes ==> node.entry.key in index && index[node.entry.key] == node)
  }

  lemma {:induction false} NodeIsEntry(nodes: seq<Node>, node: Node)
    requires node in nodes && DistinctKeys(Entries(nodes))
    ensures Lookup(Entries(nodes), node.entry.key) == Some(node.entry)
  {
    if nodes[0] != node {
      NodeIsEntry(nodes[1..], node);
      LookupKey(Entries(nodes[1..]), node.entry.key);
    }
  }

  lemma {:induction false} NoNodeNoEntry(nodes: seq<Node>, key: Key)
    requires forall node :: node in nodes ==> node.entry.key != key
    ensures Lookup(Entries(nodes), key) == None
  {
    if nodes != [] {
      NoNodeNoEntry(nodes[1..], key);
    }
  }

  /** What is left are the nodes of other keys. */
  ghost predicate Spares(kept: seq<Node>, nodes: seq<Node>, key: Key) {
    && (forall other :: other in kept ==> other in nodes && other.entry.key != key)
    && (forall other :: other in nodes ==> other.entry.key != key ==> other in kept)
  }

  lemma FirstKeyOnce(nodes: seq<Node>)
    requires nodes != [] && DistinctKeys(Entries(nodes))
    ensures Spares(nodes[1..], nodes, nodes[0].entry.key)
  {
    assert Entries(nodes)[1..] == Entries(nodes[1..]);
    forall other | other in nodes[1..]
      ensures other.entry.key != nodes[0].entry.key
    {
      NodeIsEntry(nodes[1..], other);
    }
  }

  lemma {:induction false} UnlinkedSpares(nodes: seq<Node>, node: Node)
    requires node in nodes && DistinctKeys(Entries(nodes))
    ensures Spares(Unlinked(nodes, node), nodes, node.entry.key)
  {
    FirstKeyOnce(nodes);
    assert Entries(nodes)[1..] == Entries(nodes[1..]);
    if nodes[0] != node {
      hide Entries, DistinctKeys;
      UnlinkedSpares(nodes[1..], node);
    }
  }

  lemma {:induction false} UnlinkedEntries(nodes: seq<Node>, node: Node)
    requires node in nodes && DistinctKeys(Entries(nodes))
    ensures Entries(Unlinked(nodes, node)) == Without(Entries(nodes), node.entry.key)
    ensures Spares(Unlinked(nodes, node), nodes, node.entry.key)
  {
    hide Spares;
    UnlinkedSpares(nodes, node);
    if nodes[0] != node {
      NodeIsEntry(nodes[1..], node);
      UnlinkedEntries(nodes[1..], node);
    }
  }

  lemma IndexedWithout(nodes: seq<Node>, index: map<Key, Node>, node: Node)
    requires Indexed(nodes, index) && DistinctKeys(Entries(nodes)) && node in nodes
    ensures Indexed(Unlinked(nodes, node), index - {node.entry.key})
  {
    hide Entries, DistinctKeys;
    UnlinkedEntries(nodes, node);
  }

  lemma {:induction false} WithoutLast(l: seq<Entry>)
    requires l != [] && DistinctKeys(l)
    ensures Without(l, l[|l| - 1].key) == l[..|l| - 1]
  {
    if |l| > 1 {
      WithoutLast(l[1..]);
      assert l[1..][|l| - 2] == l[|l| - 1];
      if l[0].key == l[|l| - 1].key {
        LookupLast(l[1..]);
      }
    }
  }

  lemma {:induction false} LookupLast(l: seq<Entry>)
    requires l != []
    ensures Lookup(l, l[|l| - 1].key).Some?
  {
    if |l| > 1 {
      LookupLast(l[1..]);
    }
  }

  class AnalysisCache {
    const maxEntries: nat
    const maxBytes: nat
    var lru: seq<Node>
    var index: map<Key, Node>
    var hits: nat
    var misses: nat
    var inserts: nat
    var evictions: nat
    var entries: nat
    var bytes: nat

    ghost function Limits(): Config {
      Config(maxEntries, maxBytes)
    }

    function Contents(): seq<Entry>
      reads this
    {
      Entries(lru)
    }

    ghost predicate Valid()
      reads this
    {
      && WithinBounds(Limits(), Contents())
      && Indexed(lru, index)
      && bytes == Bytes(Contents())
      && entries == |lru|
    }

    constructor (maxEntries: nat, maxBytes: nat)
      ensures Valid() && Contents() == [] && Limits() == Config(maxEntries, maxBytes)
      ensures hits == misses == inserts == evictions == 0
    {
      this.maxEntries, this.maxBytes := maxEntries, maxBytes;
      lru, index := [], map[];
      hits, misses, inserts, evictions, entries, bytes := 0, 0, 0, 0, 0, 0;
    }

    lemma IndexIsLookup(key: Key)
      requires Valid()
      ensures key in index <==> Lookup(Contents(), key).Some?
      ensures key in index ==> Lookup(Contents(), key) == Some(index[key].entry)
    {
      if key in index {
        NodeIsEntry(lru, index[key]);
      } else {
        NoNodeNoEntry(lru, key);
      }
    }

    method FindErased(key: Key, token: Token) returns (value: Option<Value>)
      requires Valid()
      modifies this
      ensures Valid() && Contents() == Touch(old(Contents()), key, token)
      ensures value == Hit(old(Contents()), key, token)
      ensures hits == old(hits) + (if value.Some? then 1 else 0)
      ensures misses == old(misses) + (if value.Some? then 0 else 1)
      ensures inserts == old(inserts) && evictions == old(evictions)
    {
      IndexIsLookup(key);
      if key !in index || index[key].entry.token != token {
        misses := misses + 1;
        return None;
      }
      StepWithinBounds(Limits(), Contents(), Find(key, token));
      var found := index[key];
      UnlinkedEntries(lru, found);
      WithoutKeeps(Contents(), key);
      lru := [found] + Unlinked(lru, found);
      assert lru[1..] == Unlinked(old(lru), found);
      hits := hits + 1;
      value := Some(found.entry.value);
    }

    method EraseEntry(it: Node?, eviction: bool)
      requires Valid()
      requires it != null ==> it in lru
      modifies this
      ensures Valid()
      ensures Contents() == if it == null then old(Contents()) else Without(old(Contents()), it.entry.key)
      ensures index == if it == null then old(index) else old(index) - {it.entry.key}
      ensures hits == old(hits) && misses == old(misses) && inserts == old(inserts)
      ensures evictions == old(evictions) + (if it != null && eviction then 1 else 0)
    {
      hide Indexed, Entries, Unlinked, Without, Lookup, Bytes, DistinctKeys;
      if it == null {
        return;
      }
      UnlinkedEntries(lru, it);
      IndexedWithout(lru, index, it);
      NodeIsEntry(lru, it);
      WithoutKeeps(Contents(), it.entry.key);
      bytes := Max(0, bytes - it.entry.bytes);
      index := index - {it.entry.key};
      lru := Unlinked(lru, it);
      if eviction {
        evictions := evictions + 1;
      }
      entries := |lru|;
    }

    /** Drops least recently used entries until `charged` more bytes and one more entry fit. */
    method EvictFor(charged: nat)
      requires Valid()
      modifies this
      ensures Valid() && Contents() == Trim(Limits(), old(Contents()), charged)
      ensures |lru| <= |old(Contents())| && Contents() == old(Contents())[..|lru|]
      ensures hits == old(hits) && misses == old(misses) && inserts == old(inserts)
      ensures evictions == old(evictions) + |old(Contents())| - |lru|
    {
      hide Trim, Without, Lookup, DistinctKeys, Indexed, Bytes, Entries;
      while lru != [] && (|lru| >= maxEntries || charged > maxBytes - bytes)
        invariant Valid() && |lru| <= |old(Contents())| && Contents() == old(Contents())[..|lru|]
        invariant Trim(Limits(), Contents(), charged) == Trim(Limits(), old(Contents()), charged)
        invariant hits == old(hits) && misses == old(misses) && inserts == old(inserts)
        invariant evictions == old(evictions) + |old(Contents())| - |lru|
        decreases |lru|
      {
        TrimStep(Limits(), Contents(), charged);
        WithoutLast(Contents());
        EraseEntry(lru[|lru| - 1], true);
      }
      TrimStep(Limits(), Contents(), charged);
    }

    method PushFront(node: Node)
      requires Valid() && node.entry.key !in index
      requires WithinBounds(Limits(), [node.entry] + Contents())
      modifies this
      ensures Valid() && Contents() == [node.entry] + old(Contents())
      ensures hits == old(hits) && misses == old(misses) && evictions == old(evictions)
      ensures inserts == old(inserts) + 1
    {
      hide Lookup, Without, DistinctKeys;
      lru := [node] + lru;
      assert lru[1..] == old(lru) && Contents()[1..] == old(Contents());
      index := index[node.entry.key := node];
      bytes := bytes + node.entry.bytes;
      entries := |lru|;
      inserts := inserts + 1;
    }

    method PutErased(key: Key, value: Option<Value>, token: Token, approximateBytes: nat)
      requires Valid()
      modifies this
      ensures Valid() && Contents() == Store(Limits(), old(Contents()), key, value, token, approximateBytes)
      ensures hits == old(hits) && misses == old(misses)
      ensures inserts == old(inserts) + (if value.Some? && Admits(Limits(), approximateBytes) then 1 else 0)
      ensures value.Some? && Admits(Limits(), approximateBytes) ==>
        evictions - old(evictions) == |Without(old(Contents()), key)| + 1 - |Contents()|
    {
      if value.None? || maxEntries == 0 || maxBytes == 0 {
        return;
      }
      var charged := Max(1, approximateBytes);
      if charged > maxBytes {
        return;
      }
      StepWithinBounds(Limits(), Contents(), Put(key, value, token, approximateBytes));
      IndexIsLookup(key);
      WithoutKeeps(Contents(), key);
      LookupWithout(Contents(), key, key);
      if key in index {
        EraseEntry(index[key], false);
      }
      ghost var rest := Without(old(Contents()), key);
      EvictFor(charged);
      PrefixForgets(rest, |lru|, key);
      IndexIsLookup(key);
      var node := new Node(Entry(key, value.value, token, charged));
      PushFront(node);
    }

    method Clear()
      requires Valid()
      modifies this
      ensures Valid() && Contents() == []
      ensures hits == old(hits) && misses == old(misses) && inserts == old(inserts) && evictions == old(evictions)
    {
      lru, index := [], map[];
      entries, bytes := 0, 0;
    }

    /** The caller's own test: only immutable capacity matters, and what passes it will be stored. */
    predicate CanStore(approximateBytes: nat)
      ensures CanStore(approximateBytes) <==> Admits(Limits(), approximateBytes)
    {
      maxEntries != 0 && maxBytes != 0 && approximateBytes <= maxBytes
    }
  }
}
