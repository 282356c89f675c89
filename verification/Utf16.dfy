/** UTF16ToUTF8 of the minidump reader against the two standards it joins: UTF-16 as section 2.2 of
    RFC 2781 decodes it and UTF-8 as section 3 of RFC 3629 does. */
module Utf16 {
  import opened Words

  type Unit = x: int | 0 <= x < 0x1_0000

  // ----- the conversion -----

  predicate IsHigh(w: Unit) {
    0xD800 <= w <= 0xDBFF
  }

  /** The low surrogates that the code knows: the standard's range ends at 0xDFFF. */
  predicate IsKnownLow(w: Unit) {
    0xDC00 <= w <= 0xDCFF
  }

  /** x modulo m, as a natural number. */
  function Low(x: int, m: nat): nat
    requires m > 0
  {
    x % m
  }

  /** The code point of a pair: (high - 0xD7C0) << 10, with the low unit's ten bits. */
  function Joined(high: Unit, low: Unit): nat
    requires IsHigh(high)
  {
    Low(high - 0xD7C0, 0x1_0000) * 0x400 + Low(low, 0x400)
  }

  function Utf8Bytes(u: nat): seq<byte>
    requires u < 0x20_0000
  {
    if u < 0x80 then [u]
    else if u < 0x800 then [0xC0 + u / 0x40, 0x80 + u % 0x40]
    else if u < 0x1_0000 then [0xE0 + u / 0x1000, 0x80 + u / 0x40 % 0x40, 0x80 + u % 0x40]
    else [0xF0 + u / 0x4_0000, 0x80 + u / 0x1000 % 0x40, 0x80 + u / 0x40 % 0x40, 0x80 + u % 0x40]
  }

  /** None where the code gives up. */
  function Convert(units: seq<Unit>): Option<seq<byte>>
    decreases |units|
  {
    if units == [] then Some([])
    else if IsKnownLow(units[0]) then None
    else if IsHigh(units[0]) then
      if |units| < 2 || !IsKnownLow(units[1]) then None
      else match Convert(units[2..])
        case None => None
        case Some(out) => Some(Utf8Bytes(Joined(units[0], units[1])) + out)
    else match Convert(units[1..])
      case None => None
      case Some(out) => Some(Utf8Bytes(units[0]) + out)
  }

  /** Giving up means the empty string. */
  function Utf16ToUtf8(units: seq<Unit>): seq<byte> {
    match Convert(units) case None => [] case Some(out) => out
  }

  function Before(out: seq<byte>, tail: Option<seq<byte>>): Option<seq<byte>> {
    match tail case None => None case Some(t) => Some(out + t)
  }

  /** Append the bytes of one code point. */
  method AppendUtf8(out: seq<byte>, u: nat) returns (r: seq<byte>)
    requires u < 0x20_0000
    ensures r == out + Utf8Bytes(u)
  {
    if u < 0x80 {
      r := out + [u];
    } else if u < 0x800 {
      r := out + [0xC0 + u / 0x40];
      r := r + [0x80 + u % 0x40];
    } else if u < 0x1_0000 {
      r := out + [0xE0 + u / 0x1000];
      r := r + [0x80 + u / 0x40 % 0x40];
      r := r + [0x80 + u % 0x40];
    } else {
      r := out + [0xF0 + u / 0x4_0000];
      r := r + [0x80 + u / 0x1000 % 0x40];
      r := r + [0x80 + u / 0x40 % 0x40];
      r := r + [0x80 + u % 0x40];
    }
  }

  /** The loop, whose iterator moves twice for a pair. */
  method Utf16ToUtf8Loop(units: seq<Unit>) returns (out: seq<byte>)
    ensures out == Utf16ToUtf8(units)
  {
    out := [];
    var i := 0;
    assert units[0..] == units;
    BeforeNothing(Convert(units));
    while i < |units|
      invariant 0 <= i <= |units|
      invariant Convert(units) == Before(out, Convert(units[i..]))
    {
      ghost var rest := units[i..];
      var word := units[i];
      var unichar: nat;
      if 0xDC00 <= word <= 0xDCFF {
        return [];
      } else if 0xD800 <= word <= 0xDBFF {
        i := i + 1;
        if i == |units| {
          return [];
        }
        var low := units[i];
        if low < 0xDC00 || low > 0xDCFF {
          return [];
        }
        unichar := Low(word - 0xD7C0, 0x1_0000) * 0x400 + Low(low, 0x400);
        assert rest[2..] == units[i + 1..];
      } else {
        unichar := word;
        assert rest[1..] == units[i + 1..];
      }
      i := i + 1;
      BeforeTwice(out, Utf8Bytes(unichar), Convert(units[i..]));
      out := AppendUtf8(out, unichar);
    }
    assert units[i..] == [] && out + [] == out;
  }

  lemma BeforeNothing(tail: Option<seq<byte>>)
    ensures Before([], tail) == tail
  {
    if tail.Some? {
      assert [] + tail.value == tail.value;
    }
  }

  lemma BeforeTwice(a: seq<byte>, b: seq<byte>, tail: Option<seq<byte>>)
    ensures Before(a, Before(b, tail)) == Before(a + b, tail)
  {
    if tail.Some? {
      assert a + (b + tail.value) == a + b + tail.value;
    }
  }

  // ----- the standards -----

  predicate IsLow(w: Unit) {
    0xDC00 <= w <= 0xDFFF
  }

  /** Section 2.2 of RFC 2781: the code points of a sequence of units, or none. */
  function DecodeUtf16(units: seq<Unit>): Option<seq<nat>>
    decreases |units|
  {
    if units == [] then Some([])
    else if !IsHigh(units[0]) && !IsLow(units[0]) then
      match DecodeUtf16(units[1..])
      case None => None
      case Some(us) => Some([units[0]] + us)
    else if IsLow(units[0]) || |units| < 2 || !IsLow(units[1]) then None
    else match DecodeUtf16(units[2..])
      case None => None
      case Some(us) => Some([Low(units[0], 0x400) * 0x400 + Low(units[1], 0x400) + 0x1_0000] + us)
  }

  predicate Tail(b: byte) {
    0x80 <= b <= 0xBF
  }

  /** Section 4 of RFC 3629: the length of the well-formed sequence at the start, 0 if none. */
  function SequenceLength(b: seq<byte>): (n: nat)
    ensures n <= |b| && n <= 4
  {
    if b == [] then 0
    else if b[0] <= 0x7F then 1
    else if 0xC2 <= b[0] <= 0xDF && |b| >= 2 && Tail(b[1]) then 2
    else if |b| >= 3 && Tail(b[2]) && (
      || (b[0] == 0xE0 && 0xA0 <= b[1] <= 0xBF) || (0xE1 <= b[0] <= 0xEC && Tail(b[1]))
      || (b[0] == 0xED && 0x80 <= b[1] <= 0x9F) || (0xEE <= b[0] <= 0xEF && Tail(b[1]))) then 3
    else if |b| >= 4 && Tail(b[2]) && Tail(b[3]) && (
      || (b[0] == 0xF0 && 0x90 <= b[1] <= 0xBF) || (0xF1 <= b[0] <= 0xF3 && Tail(b[1]))
      || (b[0] == 0xF4 && 0x80 <= b[1] <= 0x8F)) then 4
    else 0
  }

  /** Section 3 of RFC 3629: the value of a well-formed sequence. */
  function SequenceValue(b: seq<byte>): nat
    requires SequenceLength(b) > 0
  {
    var n := SequenceLength(b);
    if n == 1 then b[0]
    else if n == 2 then Low(b[0], 0x20) * 0x40 + Low(b[1], 0x40)
    else if n == 3 then Low(b[0], 0x10) * 0x1000 + Low(b[1], 0x40) * 0x40 + Low(b[2], 0x40)
    else Low(b[0], 0x8) * 0x4_0000 + Low(b[1], 0x40) * 0x1000 + Low(b[2], 0x40) * 0x40 + Low(b[3], 0x40)
  }

  function DecodeUtf8(b: seq<byte>): Option<seq<nat>>
    decreases |b|
  {
    if b == [] then Some([])
    else if SequenceLength(b) == 0 then None
    else match DecodeUtf8(b[SequenceLength(b)..])
      case None => None
      case Some(us) => Some([SequenceValue(b)] + us)
  }

  // ----- correctness -----

  predicate IsScalar(u: nat) {
    u <= 0x10_FFFF && !(0xD800 <= u <= 0xDFFF)
  }

  /** One code point, whatever follows it. */
  lemma OneCodePoint(u: nat, rest: seq<byte>)
    requires IsScalar(u)
    ensures var b := Utf8Bytes(u) + rest;
      SequenceLength(b) == |Utf8Bytes(u)| && SequenceValue(b) == u && b[SequenceLength(b)..] == rest
  {
    var e := Utf8Bytes(u);
    assert (e + rest)[|e|..] == rest;
    if u < 0x80 {
    } else if u < 0x800 {
      TwoBytes(u, rest);
    } else if u < 0x1_0000 {
      ThreeBytes(u, rest);
    } else {
      FourBytes(u, rest);
    }
  }

  lemma TwoBytes(u: nat, rest: seq<byte>)
    requires 0x80 <= u < 0x800
    ensures var b := Utf8Bytes(u) + rest; SequenceLength(b) == 2 && SequenceValue(b) == u
  {
    var p, q := u / 0x40, u % 0x40;
    var b := Utf8Bytes(u) + rest;
    assert b[0] == 0xC0 + p && b[1] == 0x80 + q;
    assert Low(b[0], 0x20) == p && Low(b[1], 0x40) == q;
  }

  lemma ThreeBytes(u: nat, rest: seq<byte>)
    requires 0x800 <= u < 0x1_0000 && IsScalar(u)
    ensures var b := Utf8Bytes(u) + rest; SequenceLength(b) == 3 && SequenceValue(b) == u
  {
    var p, q, r := u / 0x1000, u / 0x40 % 0x40, u % 0x40;
    var b := Utf8Bytes(u) + rest;
    assert u == p * 0x1000 + q * 0x40 + r;
    assert b[0] == 0xE0 + p && b[1] == 0x80 + q && b[2] == 0x80 + r;
    assert Low(b[0], 0x10) == p && Low(b[1], 0x40) == q && Low(b[2], 0x40) == r;
  }

  lemma FourBytes(u: nat, rest: seq<byte>)
    requires 0x1_0000 <= u <= 0x10_FFFF
    ensures var b := Utf8Bytes(u) + rest; SequenceLength(b) == 4 && SequenceValue(b) == u
  {
    var p, q, r, t := u / 0x4_0000, u / 0x1000 % 0x40, u / 0x40 % 0x40, u % 0x40;
    BaseSixtyFour(u);
    FourDigits(p, q, r, t, rest);
  }

  /** The digits of a supplementary code point in base 64. */
  lemma BaseSixtyFour(u: nat)
    requires 0x1_0000 <= u <= 0x10_FFFF
    ensures var p, q, r, t := u / 0x4_0000, u / 0x1000 % 0x40, u / 0x40 % 0x40, u % 0x40;
      && u == p * 0x4_0000 + q * 0x1000 + r * 0x40 + t
      && p <= 4 && (p == 0 ==> q >= 0x10) && (p == 4 ==> q < 0x10)
  {
    var a, b := u / 0x40, u / 0x1000;
    assert a / 0x40 == b && b / 0x40 == u / 0x4_0000;
    assert u == a * 0x40 + u % 0x40 && a == b * 0x40 + a % 0x40 && b == (b / 0x40) * 0x40 + b % 0x40;
  }

  lemma FourDigits(p: nat, q: nat, r: nat, t: nat, rest: seq<byte>)
    requires p <= 4 && q < 0x40 && r < 0x40 && t < 0x40
    requires (p == 0 ==> q >= 0x10) && (p == 4 ==> q < 0x10)
    ensures var b := [0xF0 + p, 0x80 + q, 0x80 + r, 0x80 + t] + rest;
      SequenceLength(b) == 4 && SequenceValue(b) == p * 0x4_0000 + q * 0x1000 + r * 0x40 + t
  {
    var b: seq<byte> := [0xF0 + p, 0x80 + q, 0x80 + r, 0x80 + t] + rest;
    assert b[0] == 0xF0 + p && b[1] == 0x80 + q && b[2] == 0x80 + r && b[3] == 0x80 + t;
  }

  lemma DecodeStep(u: nat, rest: seq<byte>)
    requires IsScalar(u)
    ensures DecodeUtf8(Utf8Bytes(u) + rest) ==
      match DecodeUtf8(rest) case None => None case Some(us) => Some([u] + us)
  {
    OneCodePoint(u, rest);
  }

  /** The code's pair formula is the standard's. */
  lemma PairValue(high: Unit, low: Unit)
    requires IsHigh(high) && IsLow(low)
    ensures Joined(high, low) == Low(high, 0x400) * 0x400 + Low(low, 0x400) + 0x1_0000
    ensures IsScalar(Joined(high, low))
  {
  }

  /** No unit in the half of the low-surrogate range that the code does not know. */
  predicate NoUnknownLow(units: seq<Unit>) {
    forall k :: 0 <= k < |units| ==> !(0xDD00 <= units[k] <= 0xDFFF)
  }

  /** For every input without such units, well-formed or not: the output decodes to the code points
      of the input, or is empty because the input has none. */
  lemma {:induction false} ConvertDecodes(units: seq<Unit>)
    requires NoUnknownLow(units)
    ensures match DecodeUtf16(units)
      case Some(us) => Convert(units).Some? && DecodeUtf8(Convert(units).value) == Some(us)
      case None => Convert(units) == None
    decreases |units|
  {
    if units != [] {
      var w := units[0];
      if IsHigh(w) {
        if |units| >= 2 && IsKnownLow(units[1]) {
          ConvertDecodes(units[2..]);
          PairValue(w, units[1]);
          if Convert(units[2..]).Some? {
            DecodeStep(Joined(w, units[1]), Convert(units[2..]).value);
          }
        }
      } else if !IsLow(w) {
        ConvertDecodes(units[1..]);
        if Convert(units[1..]).Some? {
          DecodeStep(w, Convert(units[1..]).value);
        }
      }
    }
  }

  /** A well-formed input with an unknown low unit is given up. */
  lemma {:induction false} UnknownLowGivesUp(units: seq<Unit>)
    requires DecodeUtf16(units).Some? && !NoUnknownLow(units)
    ensures Convert(units) == None && DecodeUtf16(units).value != []
    decreases |units|
  {
    var k :| 0 <= k < |units| && 0xDD00 <= units[k] <= 0xDFFF;
    if IsHigh(units[0]) {
      if k >= 2 && IsKnownLow(units[1]) {
        assert units[2..][k - 2] == units[k];
        UnknownLowGivesUp(units[2..]);
      }
    } else {
      assert units[1..][k - 1] == units[k];
      UnknownLowGivesUp(units[1..]);
    }
  }

  /** On well-formed UTF-16 the conversion is right exactly when no low surrogate is above 0xDCFF;
      otherwise the whole string is lost. */
  lemma ConversionIsRightIff(units: seq<Unit>)
    requires DecodeUtf16(units).Some?
    ensures DecodeUtf8(Utf16ToUtf8(units)) == DecodeUtf16(units) <==> NoUnknownLow(units)
  {
    if NoUnknownLow(units) {
      ConvertDecodes(units);
    } else {
      UnknownLowGivesUp(units);
    }
  }

  // ----- every input, well-formed or not -----

  /** Unit k is high exactly when the next one is a known low unit. */
  predicate PairedAt(units: seq<Unit>, k: nat)
    requires k < |units|
  {
    IsHigh(units[k]) <==> k + 1 < |units| && IsKnownLow(units[k + 1])
  }

  /** High units and known low units occur in pairs only. */
  predicate Paired(units: seq<Unit>) {
    && (units != [] ==> !IsKnownLow(units[0]))
    && forall k :: 0 <= k < |units| ==> PairedAt(units, k)
  }

  /** What is left after a single unit or a pair. */
  lemma PairedAfter(units: seq<Unit>, n: nat)
    requires units != [] && !IsKnownLow(units[0])
    requires if IsHigh(units[0]) then n == 2 <= |units| && IsKnownLow(units[1]) else n == 1
    ensures Paired(units) <==> Paired(units[n..])
    ensures n == 2 || !(0xDD00 <= units[0] <= 0xDFFF) ==> (NoUnknownLow(units) <==> NoUnknownLow(units[n..]))
  {
    var rest := units[n..];
    assert forall k :: n <= k < |units| ==> units[k] == rest[k - n];
    forall k | 0 <= k < |rest| ensures PairedAt(rest, k) <==> PairedAt(units, k + n) {
    }
    assert PairedAt(units, 0) <==> n == 2 || |units| == 1 || !IsKnownLow(units[1]);
    assert n == 2 ==> (PairedAt(units, 1) <==> |units| == 2 || !IsKnownLow(units[2]));
    if Paired(rest) {
      forall k | 0 <= k < |units| ensures PairedAt(units, k) {
        assert k >= n ==> PairedAt(rest, k - n);
      }
    }
  }

  /** The conversion accepts a string exactly when its units are paired. */
  lemma {:induction false} AcceptsIff(units: seq<Unit>)
    ensures Convert(units).Some? <==> Paired(units)
    decreases |units|
  {
    if units != [] && !IsKnownLow(units[0]) {
      if !IsHigh(units[0]) {
        PairedAfter(units, 1);
        AcceptsIff(units[1..]);
      } else if |units| >= 2 && IsKnownLow(units[1]) {
        PairedAfter(units, 2);
        AcceptsIff(units[2..]);
      } else {
        assert !PairedAt(units, 0);
      }
    }
  }

  /** The three bytes of a surrogate start no UTF-8 sequence. */
  lemma SurrogateBytes(w: Unit, rest: seq<byte>)
    requires 0xDD00 <= w <= 0xDFFF
    ensures DecodeUtf8(Utf8Bytes(w) + rest) == None
  {
    var b := Utf8Bytes(w) + rest;
    assert b[0] == 0xED && b[1] >= 0xA0;
  }

  /** Of every accepted string: the output is UTF-8 exactly when there is no unknown low unit. */
  lemma {:induction false} AcceptedDecodesIff(units: seq<Unit>)
    requires Convert(units).Some?
    ensures DecodeUtf8(Convert(units).value).Some? <==> NoUnknownLow(units)
    decreases |units|
  {
    if units != [] {
      var w := units[0];
      if IsHigh(w) {
        PairedAfter(units, 2);
        AcceptedDecodesIff(units[2..]);
        PairValue(w, units[1]);
        DecodeStep(Joined(w, units[1]), Convert(units[2..]).value);
      } else {
        PairedAfter(units, 1);
        AcceptedDecodesIff(units[1..]);
        if 0xDD00 <= w <= 0xDFFF {
          SurrogateBytes(w, Convert(units[1..]).value);
        } else {
          DecodeStep(w, Convert(units[1..]).value);
        }
      }
    }
  }

  /** For every input the output is UTF-8 exactly when the input is given up or has no unknown low
      unit. */
  lemma OutputIsUtf8Iff(units: seq<Unit>)
    ensures DecodeUtf8(Utf16ToUtf8(units)).Some? <==> !Paired(units) || NoUnknownLow(units)
  {
    AcceptsIff(units);
    if Convert(units).Some? {
      AcceptedDecodesIff(units);
    }
  }

  /** The output stands for the code points of the input, or is empty because it has none. */
  predicate Right(units: seq<Unit>) {
    match DecodeUtf16(units)
    case Some(us) => DecodeUtf8(Utf16ToUtf8(units)) == Some(us)
    case None => Utf16ToUtf8(units) == []
  }

  /** For every input the conversion is right exactly when there is no unknown low unit, or the
      input is no UTF-16 and not paired either. */
  lemma RightIff(units: seq<Unit>)
    ensures Right(units) <==> NoUnknownLow(units) || (DecodeUtf16(units).None? && !Paired(units))
  {
    AcceptsIff(units);
    if NoUnknownLow(units) {
      ConvertDecodes(units);
    } else if DecodeUtf16(units).Some? {
      ConversionIsRightIff(units);
    } else if Paired(units) {
      AcceptedDecodesIff(units);
    }
  }

  /** A lone low surrogate above 0xDCFF, which is no UTF-16, is let through as three bytes that are
      no UTF-8. */
  lemma UnknownLowLetThrough(w: Unit)
    requires 0xDD00 <= w <= 0xDFFF
    ensures DecodeUtf16([w]) == None
    ensures |Utf16ToUtf8([w])| == 3 && DecodeUtf8(Utf16ToUtf8([w])) == None
  {
    assert [w][1..] == [];
    assert Convert([w]) == Some(Utf8Bytes(w) + []);
    assert Utf16ToUtf8([w]) == Utf8Bytes(w);
  }

  /** Three bytes for a unit are always enough. */
  lemma {:induction false} OutputLength(units: seq<Unit>)
    ensures |Utf16ToUtf8(units)| <= 3 * |units|
    decreases |units|
  {
    if units != [] {
      OutputLength(units[1..]);
      if |units| >= 2 {
        OutputLength(units[2..]);
      }
    }
  }
}
