/**
 UTF-8 text (RFC 3629): the source check, the language server's encoder and decoder, and its
 conversion between byte offsets and line/UTF-16 positions.
*/
module Utf8 {
  import opened Options

  type byte = bv8
  const NEWLINE: byte := 0x0a

  // ---- the grammar of section 4 of RFC 3629 ----

  predicate In(b: byte, low: byte, high: byte) {
    low <= b <= high
  }

  predicate Tail(b: byte) {
    In(b, 0x80, 0xBF)
  }

  /** The width of the well-formed character at i, zero when there is none. */
  ghost function WidthAt(s: seq<byte>, i: nat): (w: nat)
    requires i <= |s|
    ensures w <= 4 && i + w <= |s|
  {
    if i + 1 <= |s| && In(s[i], 0x00, 0x7F) then 1
    else if i + 2 <= |s| && In(s[i], 0xC2, 0xDF) && Tail(s[i + 1]) then 2
    else if i + 3 <= |s| && Tail(s[i + 2]) &&
            ((s[i] == 0xE0 && In(s[i + 1], 0xA0, 0xBF)) || (In(s[i], 0xE1, 0xEC) && Tail(s[i + 1]))
             || (s[i] == 0xED && In(s[i + 1], 0x80, 0x9F)) || (In(s[i], 0xEE, 0xEF) && Tail(s[i + 1]))) then 3
    else if i + 4 <= |s| && Tail(s[i + 2]) && Tail(s[i + 3]) &&
            ((s[i] == 0xF0 && In(s[i + 1], 0x90, 0xBF)) || (In(s[i], 0xF1, 0xF3) && Tail(s[i + 1]))
             || (s[i] == 0xF4 && In(s[i + 1], 0x80, 0x8F))) then 4
    else 0
  }

  /** The bytes from i to o are whole well-formed characters. */
  ghost predicate Chars(s: seq<byte>, i: nat, o: nat)
    requires i <= |s|
    decreases |s| - i
  {
    i == o || (WidthAt(s, i) > 0 && i + WidthAt(s, i) <= o && Chars(s, i + WidthAt(s, i), o))
  }

  ghost predicate WellFormed(s: seq<byte>) {
    Chars(s, 0, |s|)
  }

  /** After whole characters up to m, the rest decides. */
  lemma {:induction false} CharsFrom(s: seq<byte>, i: nat, m: nat, n: nat)
    requires i <= |s| && Chars(s, i, m) && m <= n <= |s|
    ensures Chars(s, i, n) <==> Chars(s, m, n)
    decreases |s| - i
  {
    if i != m { CharsFrom(s, i + WidthAt(s, i), m, n); }
  }

  lemma OneMoreChar(s: seq<byte>, i: nat)
    requires i < |s| && Chars(s, 0, i)
    ensures WidthAt(s, i) > 0 ==> Chars(s, 0, i + WidthAt(s, i))
    ensures WidthAt(s, i) == 0 ==> !WellFormed(s)
  {
    var w := WidthAt(s, i);
    if w > 0 { CharsFrom(s, 0, i, i + w); } else { CharsFrom(s, 0, i, |s|); }
  }

  // ---- the bits of a character ----

  function Continued(value: bv32, b: byte): bv32 {
    (value << 6) | ((b & 0x3f) as bv32)
  }

  predicate IsTail(b: byte) {
    b & 0xc0 == 0x80
  }

  /** The value after k tail bytes behind a lead that contributed start. */
  function Accumulated(s: seq<byte>, i: nat, k: nat, start: bv32): bv32
    requires i + k < |s|
  {
    if k == 0 then start else Continued(Accumulated(s, i, k - 1, start), s[i + k])
  }

  predicate TailsAfter(s: seq<byte>, i: nat, width: nat)
    requires i + width <= |s|
  {
    forall p :: i < p < i + width ==> IsTail(s[p])
  }

  predicate Acceptable(value: bv32, minimum: bv32) {
    minimum <= value <= 0x10ffff && !(0xd800 <= value <= 0xdfff)
  }

  /** The lead's width bits and the value bits decide the grammar's byte ranges, width by width. */
  lemma TailBits(b: byte)
    ensures IsTail(b) <==> Tail(b)
  {
  }

  lemma TwoByteBits(a: byte, b: byte)
    requires a & 0xe0 == 0xc0 && IsTail(b)
    ensures Acceptable(Continued((a & 0x1f) as bv32, b), 0x80) <==> In(a, 0xC2, 0xDF)
  {
  }

  lemma ThreeByteBits(a: byte, b: byte, c: byte)
    requires a & 0xf0 == 0xe0 && IsTail(b) && IsTail(c)
    ensures Acceptable(Continued(Continued((a & 0x0f) as bv32, b), c), 0x800)
            <==> (a == 0xE0 && In(b, 0xA0, 0xBF)) || In(a, 0xE1, 0xEC) || (a == 0xED && In(b, 0x80, 0x9F)) || In(a, 0xEE, 0xEF)
  {
  }

  lemma FourByteBits(a: byte, b: byte, c: byte, d: byte)
    requires a & 0xf8 == 0xf0 && IsTail(b) && IsTail(c) && IsTail(d)
    ensures Acceptable(Continued(Continued(Continued((a & 0x07) as bv32, b), c), d), 0x10000)
            <==> (a == 0xF0 && In(b, 0x90, 0xBF)) || In(a, 0xF1, 0xF3) || (a == 0xF4 && In(b, 0x80, 0x8F))
  {
  }

  lemma LeadRanges(a: byte)
    ensures a & 0xe0 == 0xc0 <==> In(a, 0xC0, 0xDF)
    ensures a & 0xf0 == 0xe0 <==> In(a, 0xE0, 0xEF)
    ensures a & 0xf8 == 0xf0 <==> In(a, 0xF0, 0xF7)
  {
  }

  // ---- the lead byte ----

  function LeadWidth(lead: byte): (w: nat)
    ensures 1 <= w <= 4
  {
    if lead < 0x80 then 1
    else if lead & 0xe0 == 0xc0 then 2
    else if lead & 0xf0 == 0xe0 then 3
    else if lead & 0xf8 == 0xf0 then 4
    else 1
  }

  function LeadBits(lead: byte, width: nat): bv32 {
    if width == 2 then (lead & 0x1f) as bv32
    else if width == 3 then (lead & 0x0f) as bv32
    else if width == 4 then (lead & 0x07) as bv32
    else lead as bv32
  }

  function Minimum(width: nat): bv32 {
    if width == 2 then 0x80 else if width == 3 then 0x800 else if width == 4 then 0x10000 else 0
  }

  /** A multi-byte lead, its tails and its value are acceptable exactly when the grammar has a character. */
  lemma WidthByBits(s: seq<byte>, i: nat, width: nat)
    requires i < |s| && s[i] > 0x7f && width == LeadWidth(s[i])
    ensures width > 1 && i + width <= |s| && TailsAfter(s, i, width)
            && Acceptable(Accumulated(s, i, width - 1, LeadBits(s[i], width)), Minimum(width))
            ==> WidthAt(s, i) == width
    ensures WidthAt(s, i) > 0
            ==> WidthAt(s, i) == width > 1 && i + width <= |s| && TailsAfter(s, i, width)
                && Acceptable(Accumulated(s, i, width - 1, LeadBits(s[i], width)), Minimum(width))
  {
    hide Acceptable, Accumulated, Continued;
    LeadRanges(s[i]);
    if i + 1 < |s| { TailBits(s[i + 1]); }
    if i + 2 < |s| { TailBits(s[i + 2]); }
    if i + 3 < |s| { TailBits(s[i + 3]); }
    if i + width <= |s| && TailsAfter(s, i, width) {
      Unrolled(s, i, width - 1, LeadBits(s[i], width));
      if width == 2 {
        TwoByteBits(s[i], s[i + 1]);
      } else if width == 3 {
        ThreeByteBits(s[i], s[i + 1], s[i + 2]);
      } else if width == 4 {
        FourByteBits(s[i], s[i + 1], s[i + 2], s[i + 3]);
      }
    }
  }

  lemma Unrolled(s: seq<byte>, i: nat, k: nat, start: bv32)
    requires i + k < |s| && k <= 3
    ensures k >= 1 ==> Accumulated(s, i, 1, start) == Continued(start, s[i + 1])
    ensures k >= 2 ==> Accumulated(s, i, 2, start) == Continued(Continued(start, s[i + 1]), s[i + 2])
    ensures k >= 3 ==> Accumulated(s, i, 3, start) == Continued(Continued(Continued(start, s[i + 1]), s[i + 2]), s[i + 3])
  {
    hide Continued;
    if k >= 1 { assert Accumulated(s, i, 1, start) == Continued(Accumulated(s, i, 0, start), s[i + 1]); }
    if k >= 2 { assert Accumulated(s, i, 2, start) == Continued(Accumulated(s, i, 1, start), s[i + 2]); }
    if k >= 3 { assert Accumulated(s, i, 3, start) == Continued(Accumulated(s, i, 2, start), s[i + 3]); }
  }

  // ---- the compiler's check ----

  /** The tail loop: whether all tails have the tail bits, and the accumulated value. */
  method ReadTails(text: seq<byte>, index: nat, width: nat, start: bv32) returns (ok: bool, value: bv32)
    requires width >= 1 && index + width <= |text|
    ensures ok <==> TailsAfter(text, index, width)
    ensures ok ==> value == Accumulated(text, index, width - 1, start)
  {
    value := start;
    var offset := 1;
    while offset < width
      invariant 1 <= offset <= width && value == Accumulated(text, index, offset - 1, start)
      invariant forall p :: index < p < index + offset ==> IsTail(text[p])
    {
      var b := text[index + offset];
      if b & 0xc0 != 0x80 { return false, value; }
      value := Continued(value, b);
      offset := offset + 1;
    }
    ok := true;
  }

  method InvalidOffset(text: seq<byte>) returns (invalid: Option<nat>)
    ensures invalid.None? <==> WellFormed(text)
    ensures invalid.Some? ==> invalid.value < |text| && Chars(text, 0, invalid.value) && WidthAt(text, invalid.value) == 0
  {
    hide WidthAt, Accumulated, Chars, TailsAfter, Acceptable, In;
    var index := 0;
    NoChars(text);
    while index < |text|
      invariant 0 <= index <= |text| && Chars(text, 0, index)
    {
      var first := text[index];
      OneMoreChar(text, index);
      if first <= 0x7f {
        AsciiWidth(text, index);
        index := index + 1;
        continue;
      }
      WidthByBits(text, index, LeadWidth(first));
      var width := 0;
      var value: bv32 := 0;
      var minimum: bv32 := 0;
      if first & 0xe0 == 0xc0 {
        width, value, minimum := 2, (first & 0x1f) as bv32, 0x80;
      } else if first & 0xf0 == 0xe0 {
        width, value, minimum := 3, (first & 0x0f) as bv32, 0x800;
      } else if first & 0xf8 == 0xf0 {
        width, value, minimum := 4, (first & 0x07) as bv32, 0x10000;
      } else {
        return Some(index);
      }
      if index + width > |text| { return Some(index); }
      var tails;
      tails, value := ReadTails(text, index, width, value);
      if !tails { return Some(index); }
      if value < minimum || value > 0x10ffff || (value >= 0xd800 && value <= 0xdfff) {
        Unacceptable(value, minimum);
        return Some(index);
      }
      IsAcceptable(value, minimum);
      index := index + width;
    }
    invalid := None;
  }

  lemma NoChars(s: seq<byte>)
    ensures Chars(s, 0, 0)
  {
  }

  lemma AsciiWidth(s: seq<byte>, i: nat)
    requires i < |s| && s[i] <= 0x7f
    ensures WidthAt(s, i) == 1
  {
  }

  lemma Unacceptable(value: bv32, minimum: bv32)
    requires value < minimum || value > 0x10ffff || (value >= 0xd800 && value <= 0xdfff)
    ensures !Acceptable(value, minimum)
  {
  }

  lemma IsAcceptable(value: bv32, minimum: bv32)
    requires !(value < minimum || value > 0x10ffff || (value >= 0xd800 && value <= 0xdfff))
    ensures Acceptable(value, minimum)
  {
  }

  // ---- the language server's encoder and decoder ----

  /** A Unicode scalar value. */
  predicate Scalar(v: bv32) {
    v <= 0x10ffff && !(0xd800 <= v <= 0xdfff)
  }

  /** Narrowing to a byte keeps the low eight bits. */
  function Low(value: bv32): byte {
    (value & 0xff) as byte
  }

  function Lead2(v: bv32): byte { Low(0xc0 | (v >> 6)) }
  function Lead3(v: bv32): byte { Low(0xe0 | (v >> 12)) }
  function Lead4(v: bv32): byte { Low(0xf0 | (v >> 18)) }
  function Tail0(v: bv32): byte { Low(0x80 | (v & 0x3f)) }
  function Tail6(v: bv32): byte { Low(0x80 | ((v >> 6) & 0x3f)) }
  function Tail12(v: bv32): byte { Low(0x80 | ((v >> 12) & 0x3f)) }

  function Encoded(value: bv32): seq<byte> {
    if value <= 0x7f then [Low(value)]
    else if value <= 0x7ff then [Lead2(value), Tail0(value)]
    else if value <= 0xffff then [Lead3(value), Tail6(value), Tail0(value)]
    else [Lead4(value), Tail12(value), Tail6(value), Tail0(value)]
  }

  function CodePoint(source: seq<byte>, offset: nat, width: nat): bv32
    requires offset < |source| && 1 <= width <= 4
  {
    if width == 1 || offset + width > |source| then source[offset] as bv32
    else if TailsAfter(source, offset, width) then
      Accumulated(source, offset, width - 1, LeadBits(source[offset], width))
    else source[offset] as bv32
  }

  // ---- one byte at a time ----

  /** What is left of a value without its last six bits. */
  function Rest(v: bv32): bv32 { v >> 6 }

  /** The last six bits are exactly what a tail byte carries. */
  lemma TailStep(v: bv32, u: bv32, b: byte)
    requires u <= 0x3ffffff
    ensures IsTail(b) && v == Continued(u, b) <==> u == Rest(v) && b == Tail0(v)
  {
    if IsTail(b) && v == Continued(u, b) { TailRead(v, u, b); }
    if u == Rest(v) && b == Tail0(v) { TailWritten(v, u, b); }
  }

  lemma TailRead(v: bv32, u: bv32, b: byte)
    requires u <= 0x3ffffff && IsTail(b) && v == Continued(u, b)
    ensures u == Rest(v) && b == Tail0(v)
  {
  }

  lemma TailWritten(v: bv32, u: bv32, b: byte)
    requires u == Rest(v) && b == Tail0(v)
    ensures IsTail(b) && v == Continued(u, b)
  {
  }

  lemma ContinuedOnce(u: bv32, b: byte)
    requires u <= 0x1f
    ensures Continued(u, b) <= 0x7ff
  {
  }

  lemma ContinuedTwice(u: bv32, b: byte)
    requires u <= 0x7ff
    ensures Continued(u, b) <= 0x1ffff
  {
  }

  /** The middle bytes of the encoder are last bytes of the rest. */
  lemma MiddleTails(v: bv32)
    ensures Tail6(v) == Tail0(Rest(v)) && Tail12(v) == Tail0(Rest(Rest(v)))
  {
  }

  /** Lead bytes: marker bits and what the tails leave. */
  lemma Lead2Step(v: bv32, a: byte)
    ensures v <= 0x7ff && a == Lead2(v) <==> a & 0xe0 == 0xc0 && Rest(v) == (a & 0x1f) as bv32
    ensures (a & 0x1f) as bv32 <= 0x1f
  {
  }

  lemma Lead3Step(v: bv32, a: byte)
    ensures v <= 0xffff && a == Lead3(v) <==> a & 0xf0 == 0xe0 && Rest(Rest(v)) == (a & 0x0f) as bv32
    ensures (a & 0x0f) as bv32 <= 0x0f
  {
  }

  lemma Lead4Step(v: bv32, a: byte)
    ensures v <= 0x1fffff && a == Lead4(v) <==> a & 0xf8 == 0xf0 && Rest(Rest(Rest(v))) == (a & 0x07) as bv32
    ensures (a & 0x07) as bv32 <= 0x07
  {
  }

  // ---- round trips ----

  lemma TwoByteTrip(v: bv32, a: byte, b: byte)
    ensures 0x80 <= v <= 0x7ff && a == Lead2(v) && b == Tail0(v)
            <==> a & 0xe0 == 0xc0 && IsTail(b) && v == Continued((a & 0x1f) as bv32, b) && 0x80 <= v
  {
    hide Continued, IsTail, Lead2, Tail0, Rest;
    Lead2Step(v, a);
    TailStep(v, (a & 0x1f) as bv32, b);
  }

  lemma ThreeByteTrip(v: bv32, a: byte, b: byte, c: byte)
    ensures 0x800 <= v <= 0xffff && a == Lead3(v) && b == Tail6(v) && c == Tail0(v)
            <==> a & 0xf0 == 0xe0 && IsTail(b) && IsTail(c)
                 && v == Continued(Continued((a & 0x0f) as bv32, b), c) && 0x800 <= v
  {
    hide Continued, IsTail, Lead3, Tail0, Tail6, Tail12, Rest;
    var u := (a & 0x0f) as bv32;
    Lead3Step(v, a);
    MiddleTails(v);
    ContinuedOnce(u, b);
    TailStep(v, Continued(u, b), c);
    TailStep(Rest(v), u, b);
  }

  lemma FourByteTrip(v: bv32, a: byte, b: byte, c: byte, d: byte)
    ensures 0x10000 <= v <= 0x1fffff && a == Lead4(v) && b == Tail12(v) && c == Tail6(v) && d == Tail0(v)
            <==> a & 0xf8 == 0xf0 && IsTail(b) && IsTail(c) && IsTail(d)
                 && v == Continued(Continued(Continued((a & 0x07) as bv32, b), c), d) && 0x10000 <= v
  {
    hide Continued, IsTail, Lead4, Tail0, Tail6, Tail12, Rest;
    var u := (a & 0x07) as bv32;
    var x, y := Continued(u, b), Continued(Continued(u, b), c);
    Lead4Step(v, a);
    MiddleTails(v);
    ContinuedOnce(u, b);
    ContinuedTwice(x, c);
    TailStep(v, y, d);
    TailStep(Rest(v), x, c);
    TailStep(Rest(Rest(v)), u, b);
  }

  lemma OneByteTrip(v: bv32, a: byte)
    ensures v <= 0x7f && a == Low(v) <==> a <= 0x7f && v == a as bv32
  {
  }

  /** The bytes of an encoded value beyond ASCII have lead and tail bits, and accumulate to the value. */
  lemma EncodedBits(v: bv32)
    requires 0x7f < v <= 0x1fffff
    ensures var s := Encoded(v);
            && s[0] > 0x7f && |s| == LeadWidth(s[0]) > 1 && TailsAfter(s, 0, |s|)
            && Accumulated(s, 0, |s| - 1, LeadBits(s[0], |s|)) == v
  {
    hide Continued, Accumulated, Lead2, Lead3, Lead4, Tail0, Tail6, Tail12;
    var s := Encoded(v);
    LeadRanges(s[0]);
    Unrolled(s, 0, |s| - 1, LeadBits(s[0], |s|));
    if v <= 0x7ff {
      TwoByteTrip(v, s[0], s[1]);
    } else if v <= 0xffff {
      ThreeByteTrip(v, s[0], s[1], s[2]);
    } else {
      FourByteTrip(v, s[0], s[1], s[2], s[3]);
    }
  }

  /** Encoding a scalar value gives one well-formed character that decodes back to it. */
  lemma DecodeOfEncode(v: bv32)
    requires Scalar(v)
    ensures var s := Encoded(v);
            && WidthAt(s, 0) == |s| == LeadWidth(s[0])
            && CodePoint(s, 0, |s|) == v
  {
    hide Low, Accumulated, WidthAt, TailsAfter, LeadBits;
    var s := Encoded(v);
    if v <= 0x7f {
      OneByteTrip(v, s[0]);
      AsciiWidth(s, 0);
    } else {
      EncodedBits(v);
      EncodedMinimum(v);
      WidthByBits(s, 0, |s|);
    }
  }

  lemma EncodedMinimum(v: bv32)
    requires Scalar(v) && v > 0x7f
    ensures Acceptable(v, Minimum(|Encoded(v)|))
  {
  }

  lemma EncodeTwo(v: bv32, a: byte, b: byte)
    requires a & 0xe0 == 0xc0 && IsTail(b) && v == Continued((a & 0x1f) as bv32, b) && 0x80 <= v
    ensures Encoded(v) == [a, b] && v <= 0xffff
  {
    hide Continued, IsTail, Lead2, Lead3, Lead4, Tail0, Tail6, Tail12;
    TwoByteTrip(v, a, b);
  }

  lemma EncodeThree(v: bv32, a: byte, b: byte, c: byte)
    requires a & 0xf0 == 0xe0 && IsTail(b) && IsTail(c)
    requires v == Continued(Continued((a & 0x0f) as bv32, b), c) && 0x800 <= v
    ensures Encoded(v) == [a, b, c] && v <= 0xffff
  {
    hide Continued, IsTail, Lead2, Lead3, Lead4, Tail0, Tail6, Tail12;
    ThreeByteTrip(v, a, b, c);
  }

  lemma EncodeFour(v: bv32, a: byte, b: byte, c: byte, d: byte)
    requires a & 0xf8 == 0xf0 && IsTail(b) && IsTail(c) && IsTail(d)
    requires v == Continued(Continued(Continued((a & 0x07) as bv32, b), c), d) && 0x10000 <= v
    ensures Encoded(v) == [a, b, c, d] && v > 0xffff
  {
    hide Continued, IsTail, Lead2, Lead3, Lead4, Tail0, Tail6, Tail12;
    FourByteTrip(v, a, b, c, d);
  }

  /** The encoder's bytes for an accumulated value are the bytes it was accumulated from. */
  lemma EncodeOfAccumulated(s: seq<byte>, i: nat, w: nat)
    requires i < |s| && s[i] > 0x7f && w == LeadWidth(s[i]) > 1 && i + w <= |s| && TailsAfter(s, i, w)
    requires Acceptable(Accumulated(s, i, w - 1, LeadBits(s[i], w)), Minimum(w))
    ensures var v := Accumulated(s, i, w - 1, LeadBits(s[i], w));
            Encoded(v) == s[i..i + w] && (v > 0xffff <==> w == 4)
  {
    hide Continued, Accumulated, Encoded;
    LeadRanges(s[i]);
    Unrolled(s, i, w - 1, LeadBits(s[i], w));
    var v := Accumulated(s, i, w - 1, LeadBits(s[i], w));
    if w == 2 {
      EncodeTwo(v, s[i], s[i + 1]);
    } else if w == 3 {
      EncodeThree(v, s[i], s[i + 1], s[i + 2]);
    } else {
      EncodeFour(v, s[i], s[i + 1], s[i + 2], s[i + 3]);
    }
  }

  /** A well-formed character decodes to a scalar value that encodes back to its bytes. */
  lemma EncodeOfDecode(s: seq<byte>, i: nat)
    requires i < |s| && WidthAt(s, i) > 0
    ensures var w := WidthAt(s, i);
            && w == LeadWidth(s[i])
            && Scalar(CodePoint(s, i, w))
            && Encoded(CodePoint(s, i, w)) == s[i..i + w]
            && (CodePoint(s, i, w) > 0xffff <==> w == 4)
  {
    hide Accumulated, WidthAt, TailsAfter, Low, LeadBits;
    LeadRanges(s[i]);
    if s[i] <= 0x7f {
      AsciiWidth(s, i);
      OneByteTrip(s[i] as bv32, s[i]);
      assert s[i..i + 1] == [s[i]];
    } else {
      hide Encoded;
      WidthByBits(s, i, LeadWidth(s[i]));
      EncodeOfAccumulated(s, i, LeadWidth(s[i]));
    }
  }

  // ---- the number a character spells ----

  /** What the bytes of a character add up to, beyond the lower ends of their ranges. */
  ghost function Number2(a: byte, b: byte): bv32 {
    (a as bv32 - 0xC0) * 0x40 + (b as bv32 - 0x80)
  }

  ghost function Number3(a: byte, b: byte, c: byte): bv32 {
    (a as bv32 - 0xE0) * 0x1000 + (b as bv32 - 0x80) * 0x40 + (c as bv32 - 0x80)
  }

  ghost function Number4(a: byte, b: byte, c: byte, d: byte): bv32 {
    (a as bv32 - 0xF0) * 0x4_0000 + (b as bv32 - 0x80) * 0x1000 + (c as bv32 - 0x80) * 0x40 + (d as bv32 - 0x80)
  }

  ghost function Number(s: seq<byte>, i: nat, w: nat): bv32
    requires 1 <= w <= 4 && i + w <= |s|
  {
    if w == 1 then s[i] as bv32
    else if w == 2 then Number2(s[i], s[i + 1])
    else if w == 3 then Number3(s[i], s[i + 1], s[i + 2])
    else Number4(s[i], s[i + 1], s[i + 2], s[i + 3])
  }

  lemma TwoByteNumber(a: byte, b: byte)
    requires LeadWidth(a) == 2 && IsTail(b)
    ensures Continued(LeadBits(a, 2), b) == Number2(a, b)
  {
  }

  lemma ThreeByteNumber(a: byte, b: byte, c: byte)
    requires LeadWidth(a) == 3 && IsTail(b) && IsTail(c)
    ensures Continued(Continued(LeadBits(a, 3), b), c) == Number3(a, b, c)
  {
  }

  lemma FourByteNumber(a: byte, b: byte, c: byte, d: byte)
    requires LeadWidth(a) == 4 && IsTail(b) && IsTail(c) && IsTail(d)
    ensures Continued(Continued(Continued(LeadBits(a, 4), b), c), d) == Number4(a, b, c, d)
  {
  }

  lemma AccumulatedIsNumber(s: seq<byte>, i: nat, w: nat)
    requires i < |s| && w == LeadWidth(s[i]) > 1 && i + w <= |s| && TailsAfter(s, i, w)
    ensures Accumulated(s, i, w - 1, LeadBits(s[i], w)) == Number(s, i, w)
  {
    hide Continued, Accumulated, IsTail, LeadBits, LeadWidth, Number2, Number3, Number4;
    Unrolled(s, i, w - 1, LeadBits(s[i], w));
    if w == 2 {
      TwoByteNumber(s[i], s[i + 1]);
    } else if w == 3 {
      ThreeByteNumber(s[i], s[i + 1], s[i + 2]);
    } else {
      FourByteNumber(s[i], s[i + 1], s[i + 2], s[i + 3]);
    }
  }

  /** The code point of a well-formed character is the number its bytes spell. */
  lemma CodePointIsNumber(s: seq<byte>, i: nat)
    requires i < |s| && WidthAt(s, i) > 0
    ensures CodePoint(s, i, WidthAt(s, i)) == Number(s, i, WidthAt(s, i))
  {
    hide WidthAt, Accumulated, LeadBits, Number, TailsAfter, Acceptable, LeadWidth;
    if s[i] <= 0x7f {
      AsciiWidth(s, i);
      AsciiNumber(s, i);
    } else {
      WidthByBits(s, i, LeadWidth(s[i]));
      AccumulatedIsNumber(s, i, LeadWidth(s[i]));
    }
  }

  lemma AsciiNumber(s: seq<byte>, i: nat)
    requires i < |s|
    ensures Number(s, i, 1) == s[i] as bv32
  {
  }

  // ---- appending ----

  /** Appends a code point's bytes, branch by branch. */
  method AppendUtf8(output: seq<byte>, value: bv32) returns (longer: seq<byte>)
    ensures longer == output + Encoded(value)
  {
    if value <= 0x7f {
      longer := output + [Low(value)];
    } else if value <= 0x7ff {
      longer := output + [Lead2(value)];
      longer := longer + [Tail0(value)];
    } else if value <= 0xffff {
      longer := output + [Lead3(value)];
      longer := longer + [Tail6(value)];
      longer := longer + [Tail0(value)];
    } else {
      longer := output + [Lead4(value)];
      longer := longer + [Tail12(value)];
      longer := longer + [Tail6(value)];
      longer := longer + [Tail0(value)];
    }
  }

  /** Appending a scalar value to well-formed text keeps it well-formed, and the value is read back. */
  lemma AppendedIsWellFormed(s: seq<byte>, v: bv32)
    requires WellFormed(s) && Scalar(v)
    ensures WellFormed(s + Encoded(v))
    ensures CodePoint(s + Encoded(v), |s|, LeadWidth(Encoded(v)[0])) == v
  {
    hide WidthAt, CodePoint, LeadWidth, Low;
    var t := Encoded(v);
    DecodeOfEncode(v);
    hide Encoded;
    CharsPrefix(s, t, 0);
    SameCharacterBehind(s, t);
    OneMoreChar(s + t, |s|);
  }

  /** Bytes behind a well-formed stretch do not change it. */
  lemma {:induction false} CharsPrefix(s: seq<byte>, t: seq<byte>, i: nat)
    requires i <= |s| && Chars(s, i, |s|)
    ensures Chars(s + t, i, |s|)
    decreases |s| - i
  {
    if i < |s| {
      WidthBeforeMore(s, t, i);
      CharsPrefix(s, t, i + WidthAt(s, i));
    }
  }

  lemma WidthBeforeMore(s: seq<byte>, t: seq<byte>, i: nat)
    requires i < |s| && WidthAt(s, i) > 0
    ensures WidthAt(s + t, i) == WidthAt(s, i)
  {
    hide In, Tail;
    var w := WidthAt(s, i);
    assert (s + t)[i..i + w] == s[i..i + w];
    SameBytes(s, s + t, i, i, w);
  }

  /** The grammar of a character looks at its own bytes only. */
  lemma SameBytes(s: seq<byte>, t: seq<byte>, i: nat, j: nat, w: nat)
    requires i < |s| && j < |t| && w == WidthAt(s, i) > 0 && j + w <= |t| && s[i..i + w] == t[j..j + w]
    ensures WidthAt(t, j) == w
  {
    var x, y := s[i..i + w], t[j..j + w];
    assert x[0] == y[0] && (w > 1 ==> x[1] == y[1]) && (w > 2 ==> x[2] == y[2]) && (w > 3 ==> x[3] == y[3]);
  }

  lemma SameCharacterBehind(s: seq<byte>, t: seq<byte>)
    requires t != [] && WidthAt(t, 0) == |t| == LeadWidth(t[0])
    ensures WidthAt(s + t, |s|) == |t| && CodePoint(s + t, |s|, |t|) == CodePoint(t, 0, |t|)
  {
    hide In, Tail, Continued, IsTail, LeadBits;
    var u := s + t;
    assert u[|s|..] == t && t[0..|t|] == t && u[|s|..|s| + |t|] == t;
    SameBytes(t, u, 0, |s|, |t|);
    assert forall p :: |s| < p < |s| + |t| ==> u[p] == t[p - |s|];
    assert forall p :: 0 < p < |t| ==> t[p] == u[p + |s|];
    AccumulatedBehind(s, t, |t| - 1, LeadBits(t[0], |t|));
  }

  lemma {:induction false} AccumulatedBehind(s: seq<byte>, t: seq<byte>, k: nat, start: bv32)
    requires k < |t|
    ensures Accumulated(s + t, |s|, k, start) == Accumulated(t, 0, k, start)
  {
    if k > 0 { AccumulatedBehind(s, t, k - 1, start); }
  }
}
