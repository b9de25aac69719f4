/** Recognition of one printable UTF-8 unit, against the encoding of section 3 of RFC 3629. */
module Utf8 {
  import opened Machine

  predicate Surrogate(cp: nat) {
    0xD800 <= cp <= 0xDFFF
  }

  /** Tab, printable ASCII, and every scalar value from U+00A0 on. */
  predicate Printable(cp: nat) {
    cp == 9 || 0x20 <= cp <= 0x7E || (0xA0 <= cp <= 0x10FFFF && !Surrogate(cp))
  }

  /** The octets of a scalar value. */
  function Encode(cp: nat): seq<u8>
    requires cp <= 0x10FFFF
  {
    if cp < 0x80 then [cp]
    else if cp < 0x800 then [0xC0 + cp / 0x40, 0x80 + cp % 0x40]
    else if cp < 0x10000 then [0xE0 + cp / 0x1000, 0x80 + cp / 0x40 % 0x40, 0x80 + cp % 0x40]
    else [0xF0 + cp / 0x40000, 0x80 + cp / 0x1000 % 0x40, 0x80 + cp / 0x40 % 0x40, 0x80 + cp % 0x40]
  }

  predicate PrintableAscii(b: u8) {
    0x20 <= b < 0x7F || b == 9
  }

  /** Octets a lead byte announces, or zero when it cannot start a multi-byte unit. */
  function Announced(lead: u8): nat {
    if 0xC2 <= lead <= 0xDF then 2 else if 0xE0 <= lead <= 0xEF then 3 else if 0xF0 <= lead <= 0xF4 then 4 else 0
  }

  /** Payload bits of a lead byte. */
  function LeadBits(lead: u8): nat {
    if Announced(lead) == 2 then lead % 0x20 else if Announced(lead) == 3 then lead % 0x10 else lead % 0x08
  }

  predicate Continuation(b: u8) {
    b / 0x40 == 2
  }

  /** The value accumulated over the first `n` octets. */
  function Value(p: seq<u8>, n: nat): nat
    requires 0 < n <= |p|
  {
    if n == 1 then LeadBits(p[0]) else Value(p, n - 1) * 0x40 + p[n - 1] % 0x40
  }

  /** Length of the printable unit at the front, or zero. */
  function Unit(p: seq<u8>): (n: nat)
    ensures n <= 4 && n <= |p|
  {
    if p == [] then 0
    else if PrintableAscii(p[0]) then 1
    else
      var n := Announced(p[0]);
      if n == 0 || |p| < n || exists i :: 0 < i < n && !Continuation(p[i]) then 0
      else
        var cp := Value(p, n);
        if (n == 2 && cp < 0x80) || (n == 3 && cp < 0x800) || (n == 4 && cp < 0x10000) then 0
        else if cp < 0xA0 || cp > 0x10FFFF || Surrogate(cp) then 0
        else n
  }

  method PrintableUtf8Unit(p: seq<u8>) returns (length: nat)
    ensures length == Unit(p)
  {
    if |p| == 0 {
      return 0;
    }
    if PrintableAscii(p[0]) {
      return 1;
    }
    length := Announced(p[0]);
    if length == 0 || |p| < length {
      return 0;
    }
    var cp := LeadBits(p[0]);
    for i := 1 to length
      invariant cp == Value(p, i)
      invariant forall k :: 0 < k < i ==> Continuation(p[k])
    {
      if !Continuation(p[i]) {
        return 0;
      }
      cp := cp * 0x40 + p[i] % 0x40;
    }
    if (length == 2 && cp < 0x80) || (length == 3 && cp < 0x800) || (length == 4 && cp < 0x10000) {
      return 0;
    }
    if cp < 0xA0 || cp > 0x10FFFF || Surrogate(cp) {
      return 0;
    }
  }

  /** The scalar value of a recognised unit. */
  ghost function CodePoint(p: seq<u8>): nat
    requires 0 < Unit(p)
  {
    if Unit(p) == 1 then p[0] else Value(p, Unit(p))
  }

  lemma Digits(high: nat, low: nat)
    requires low < 0x40
    ensures (high * 0x40 + low) / 0x40 == high && (high * 0x40 + low) % 0x40 == low
  {
  }

  /** The encodings by length, from payload digits. */
  lemma EncodeTwo(h: nat, a: nat)
    requires h < 0x20 && a < 0x40 && 0x80 <= h * 0x40 + a
    ensures Encode(h * 0x40 + a) == [0xC0 + h, 0x80 + a]
  {
    Digits(h, a);
  }

  lemma EncodeThree(h: nat, a: nat, b: nat)
    requires h < 0x10 && a < 0x40 && b < 0x40 && 0x800 <= (h * 0x40 + a) * 0x40 + b
    ensures Encode((h * 0x40 + a) * 0x40 + b) == [0xE0 + h, 0x80 + a, 0x80 + b]
  {
    Digits(h, a);
    Digits(h * 0x40 + a, b);
  }

  lemma EncodeFour(h: nat, a: nat, b: nat, c: nat)
    requires h < 0x08 && a < 0x40 && b < 0x40 && c < 0x40
    requires 0x10000 <= ((h * 0x40 + a) * 0x40 + b) * 0x40 + c <= 0x10FFFF
    ensures Encode(((h * 0x40 + a) * 0x40 + b) * 0x40 + c) == [0xF0 + h, 0x80 + a, 0x80 + b, 0x80 + c]
  {
    Digits(h, a);
    Digits(h * 0x40 + a, b);
    Digits((h * 0x40 + a) * 0x40 + b, c);
  }

  lemma ValueOf(p: seq<u8>, n: nat)
    requires 2 <= n <= 4 && n <= |p|
    ensures n == 2 ==> Value(p, n) == LeadBits(p[0]) * 0x40 + p[1] % 0x40
    ensures n == 3 ==> Value(p, n) == (LeadBits(p[0]) * 0x40 + p[1] % 0x40) * 0x40 + p[2] % 0x40
    ensures n == 4 ==> Value(p, n) == ((LeadBits(p[0]) * 0x40 + p[1] % 0x40) * 0x40 + p[2] % 0x40) * 0x40 + p[3] % 0x40
  {
    assert Value(p, 2) == Value(p, 1) * 0x40 + p[1] % 0x40;
    if n >= 3 {
      assert Value(p, 3) == Value(p, 2) * 0x40 + p[2] % 0x40;
    }
  }

  lemma LeadByte(lead: u8)
    requires Announced(lead) != 0
    ensures Announced(lead) == 2 ==> lead == 0xC0 + LeadBits(lead) && LeadBits(lead) < 0x20
    ensures Announced(lead) == 3 ==> lead == 0xE0 + LeadBits(lead) && LeadBits(lead) < 0x10
    ensures Announced(lead) == 4 ==> lead == 0xF0 + LeadBits(lead) && LeadBits(lead) < 0x08
  {
  }

  lemma ContinuationByte(b: u8)
    ensures Continuation(b) <==> b == 0x80 + b % 0x40
  {
  }

  /** A recognised unit is the encoding of a printable scalar value. */
  lemma UnitIsEncoding(p: seq<u8>)
    requires 0 < Unit(p)
    ensures Printable(CodePoint(p)) && Encode(CodePoint(p)) == p[..Unit(p)]
  {
    hide Encode, Value, LeadBits;
    var n := Unit(p);
    if n == 1 {
      SingleByte(p[0]);
    } else {
      LeadByte(p[0]);
      ValueOf(p, n);
      var h := LeadBits(p[0]);
      ContinuationByte(p[1]);
      if n == 2 {
        EncodeTwo(h, p[1] % 0x40);
      } else {
        ContinuationByte(p[2]);
        if n == 3 {
          EncodeThree(h, p[1] % 0x40, p[2] % 0x40);
        } else {
          ContinuationByte(p[3]);
          EncodeFour(h, p[1] % 0x40, p[2] % 0x40, p[3] % 0x40);
        }
      }
    }
  }

  lemma SingleByte(b: u8)
    requires PrintableAscii(b)
    ensures Printable(b) && Encode(b) == [b]
  {
  }

  /** Every encoded printable scalar value at the front is recognised, and recovered. */
  lemma EncodingIsUnit(cp: nat, p: seq<u8>)
    requires Printable(cp) && Encode(cp) <= p
    ensures Unit(p) == |Encode(cp)| && CodePoint(p) == cp
  {
    var n := |Encode(cp)|;
    assert forall k :: 0 <= k < n ==> p[k] == Encode(cp)[k];
    if n > 1 {
      EncodedParts(cp);
      EncodedValue(cp, p);
      assert forall k :: 0 < k < n ==> Continuation(p[k]);
    }
  }

  lemma EncodedParts(cp: nat)
    requires 0x80 <= cp <= 0x10FFFF
    ensures var e := Encode(cp);
            && 2 <= |e| <= 4
            && (0xA0 <= cp ==> Announced(e[0]) == |e|)
            && !PrintableAscii(e[0])
            && forall k :: 0 < k < |e| ==> Continuation(e[k])
  {
  }

  lemma Payloads(h: nat, digit: nat)
    requires digit < 0x40
    ensures (0x80 + digit) % 0x40 == digit
    ensures 2 <= h < 0x20 ==> LeadBits(0xC0 + h) == h
    ensures h < 0x10 ==> LeadBits(0xE0 + h) == h
    ensures h < 0x05 ==> LeadBits(0xF0 + h) == h
  {
  }

  lemma EncodedValue(cp: nat, p: seq<u8>)
    requires 0xA0 <= cp <= 0x10FFFF && Encode(cp) <= p
    ensures Value(p, |Encode(cp)|) == cp
  {
    hide Value, LeadBits, Encode;
    LengthOf(cp);
    var n := |Encode(cp)|;
    assert forall k :: 0 <= k < n ==> p[k] == Encode(cp)[k];
    ValueOf(p, n);
    var low, mid, high := cp % 0x40, cp / 0x40 % 0x40, cp / 0x40 / 0x40 % 0x40;
    if n == 2 {
      EncodeTwo(cp / 0x40, low);
      Payloads(cp / 0x40, low);
    } else if n == 3 {
      EncodeThree(cp / 0x40 / 0x40, mid, low);
      Payloads(cp / 0x40 / 0x40, mid);
      Payloads(0, low);
    } else {
      EncodeFour(cp / 0x40 / 0x40 / 0x40, high, mid, low);
      Payloads(cp / 0x40 / 0x40 / 0x40, high);
      Payloads(0, mid);
      Payloads(0, low);
    }
  }

  lemma LengthOf(cp: nat)
    requires 0x80 <= cp <= 0x10FFFF
    ensures |Encode(cp)| == if cp < 0x800 then 2 else if cp < 0x10000 then 3 else 4
  {
  }

  /** Examples from section 7 of RFC 3629, and both sides of the surrogates. */
  lemma KnownEncodings()
    ensures Encode(0x41) == [0x41] && Encode(0x0391) == [0xCE, 0x91]
    ensures Encode(0x2262) == [0xE2, 0x89, 0xA2] && Encode(0xD55C) == [0xED, 0x95, 0x9C]
    ensures Encode(0x65E5) == [0xE6, 0x97, 0xA5] && Encode(0x233B4) == [0xF0, 0xA3, 0x8E, 0xB4]
    ensures Encode(0x7FF) == [0xDF, 0xBF] && Encode(0xFFFF) == [0xEF, 0xBF, 0xBF] && Encode(0x10FFFF) == [0xF4, 0x8F, 0xBF, 0xBF]
  {
  }

  /** Text: tab, printable ASCII, and scalar values behind the C1 controls. */
  ghost predicate TextScalar(cp: nat) {
    cp == 0x09 || (0x20 <= cp && cp <= 0x7E) || (0xA0 <= cp && cp <= 0xD7FF) || (0xE000 <= cp && cp <= 0x10FFFF)
  }

  ghost predicate StartsWith(p: seq<u8>, cp: nat) {
    TextScalar(cp) && Encode(cp) <= p
  }

  /** A unit starts exactly where the encoding of such a scalar value does, and is as long. */
  lemma UnitIff(p: seq<u8>)
    ensures 0 < Unit(p) <==> exists cp :: StartsWith(p, cp)
    ensures forall cp :: StartsWith(p, cp) ==> Unit(p) == |Encode(cp)|
  {
    hide Unit, Encode, CodePoint;
    if 0 < Unit(p) {
      UnitIsEncoding(p);
      assert StartsWith(p, CodePoint(p));
    }
    forall cp | StartsWith(p, cp)
      ensures Unit(p) == |Encode(cp)| > 0
    {
      EncodingIsUnit(cp, p);
      EncodeNotEmpty(cp);
    }
  }

  lemma EncodeNotEmpty(cp: nat)
    requires cp <= 0x10FFFF
    ensures 0 < |Encode(cp)| <= 4
  {
  }

  /** No unit starts inside another one. */
  lemma SelfSynchronising(p: seq<u8>, k: nat)
    requires 0 < k < Unit(p)
    ensures Unit(p[k..]) == 0
  {
    assert Continuation(p[k]);
    assert p[k..][0] == p[k];
  }
}
