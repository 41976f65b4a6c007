/**
 The streaming UTF-8 decoder behind `TextDecoder` (section 8.1.1 of the WHATWG Encoding Standard), one byte at a
 time, with `ignoreBOM: true`. Its output never splits a code point between two calls.
 */
module Utf8Decoder {
  import opened Utf16

  type Byte = b: int | 0 <= b < 0x100

  const REPLACEMENT: Text := [0xFFFD]

  /**
   `point` holds the bits read of a sequence that still needs `needed` continuation bytes, the next one in lower..upper.
   */
  datatype Decoder = Decoder(needed: nat, point: nat, lower: Byte, upper: Byte)

  const FRESH := Decoder(0, 0, 0x80, 0xBF)

  /** The pending sequence can only become a code point that is not a surrogate. */
  ghost predicate Valid(d: Decoder) {
    && 0x80 <= d.lower <= d.upper <= 0xBF
    && d.needed <= 3
    && (d.needed == 1 ==> 2 <= d.point < 0x4400 && InRange(d, 0x40))
    && (d.needed == 2 ==> d.point < 0x110 && InRange(d, 0x1000))
    && (d.needed == 3 ==> d.point < 5 && InRange(d, 0x4_0000))
  }

  /** The code points that a pending sequence can still become, its remaining bytes spanning `span`. */
  ghost predicate InRange(d: Decoder, span: nat) {
    var step := span / 0x40;
    var first := d.point * span + (d.lower - 0x80) * step;
    var last := d.point * span + (d.upper - 0x7F) * step;
    (0x80 <= first && last <= 0xD800) || (0xE000 <= first && last <= 0x11_0000)
  }

  function Units(point: nat): (s: Text)
    requires point < 0xD800 || 0xE000 <= point < 0x11_0000
    ensures WellFormed(s)
  {
    if point < 0x1_0000 then
      var s: Text := [point];
      assert s[1..] == [];
      s
    else
      var s: Text := [0xD800 + (point - 0x1_0000) / 0x400, 0xDC00 + (point - 0x1_0000) % 0x400];
      assert s[2..] == [];
      s
  }

  /** A byte that starts a sequence. */
  function Lead(b: Byte): (r: (Decoder, Text))
    ensures Valid(r.0) && WellFormed(r.1)
  {
    if b < 0x80 then (FRESH, [b])
    else if 0xC2 <= b <= 0xDF then (Decoder(1, b - 0xC0, 0x80, 0xBF), [])
    else if 0xE0 <= b <= 0xEF then
      (Decoder(2, b - 0xE0, if b == 0xE0 then 0xA0 else 0x80, if b == 0xED then 0x9F else 0xBF), [])
    else if 0xF0 <= b <= 0xF4 then
      (Decoder(3, b - 0xF0, if b == 0xF0 then 0x90 else 0x80, if b == 0xF4 then 0x8F else 0xBF), [])
    else (FRESH, REPLACEMENT)
  }

  function DecodeByte(d: Decoder, b: Byte): (r: (Decoder, Text))
    requires Valid(d)
    ensures Valid(r.0) && WellFormed(r.1)
  {
    if d.needed == 0 then Lead(b)
    else if !(d.lower <= b <= d.upper) then
      var (next, units) := Lead(b);
      WellFormedConcat(REPLACEMENT, units);
      (next, REPLACEMENT + units)
    else
      var point := d.point * 0x40 + b % 0x40;
      if d.needed > 1 then (Decoder(d.needed - 1, point, 0x80, 0xBF), [])
      else (FRESH, Units(point))
  }

  function Decode(d: Decoder, bytes: seq<Byte>): (r: (Decoder, Text))
    requires Valid(d)
    ensures Valid(r.0) && WellFormed(r.1)
    decreases |bytes|
  {
    if |bytes| == 0 then (d, [])
    else
      var (next, units) := DecodeByte(d, bytes[0]);
      var (last, rest) := Decode(next, bytes[1..]);
      WellFormedConcat(units, rest);
      (last, units + rest)
  }

  /** The final `decode()`: an incomplete sequence becomes a replacement character. */
  function Flush(d: Decoder): (s: Text)
    ensures WellFormed(s)
  {
    if d.needed == 0 then [] else REPLACEMENT
  }

  /** A whole byte stream, decoded at once. */
  function DecodeAll(bytes: seq<Byte>): Text {
    var (d, units) := Decode(FRESH, bytes);
    units + Flush(d)
  }

  // Decoding is a streaming homomorphism: the cuts between the calls do not show in the text.
  lemma {:induction false} DecodeConcat(d: Decoder, a: seq<Byte>, b: seq<Byte>)
    requires Valid(d)
    ensures var (mid, left) := Decode(d, a);
            var (last, right) := Decode(mid, b);
            Decode(d, a + b) == (last, left + right)
    decreases |a|
  {
    if |a| == 0 {
      assert a + b == b;
      assert [] + Decode(d, b).1 == Decode(d, b).1;
    } else {
      assert (a + b)[1..] == a[1..] + b;
      var (next, units) := DecodeByte(d, a[0]);
      DecodeConcat(next, a[1..], b);
      var (mid, left) := Decode(next, a[1..]);
      var (_, right) := Decode(mid, b);
      assert units + (left + right) == (units + left) + right;
    }
  }

  /** `TextEncoder`: a lone surrogate becomes U+FFFD. */
  function EncodePoint(point: nat): seq<Byte>
    requires point < 0x11_0000
  {
    if point < 0x80 then [point]
    else if point < 0x800 then [0xC0 + point / 0x40, 0x80 + point % 0x40]
    else if point < 0x1_0000 then [0xE0 + point / 0x1000, 0x80 + point / 0x40 % 0x40, 0x80 + point % 0x40]
    else [0xF0 + point / 0x4_0000, 0x80 + point / 0x1000 % 0x40, 0x80 + point / 0x40 % 0x40, 0x80 + point % 0x40]
  }

  lemma FreshValid()
    ensures Valid(FRESH)
  {
  }

  /** The code point at the head of a text, a lone surrogate counting as U+FFFD. */
  function HeadPoint(s: Text): (point: nat)
    requires |s| > 0
    ensures point < 0xD800 || 0xE000 <= point < 0x11_0000
  {
    if StartsPair(s) then 0x1_0000 + (s[0] as int - 0xD800) * 0x400 + (s[1] as int - 0xDC00)
    else if IsHigh(s[0]) || IsLow(s[0]) then 0xFFFD
    else s[0]
  }

  function Encode(s: Text): (bytes: seq<Byte>)
    ensures |bytes| == Utf8Length(s)
  {
    if |s| == 0 then [] else EncodePoint(HeadPoint(s)) + Encode(if StartsPair(s) then s[2..] else s[1..])
  }

  // One byte of a sequence that is not complete yet.
  lemma DecodePending(d: Decoder, b: Byte, rest: seq<Byte>)
    requires Valid(d) && DecodeByte(d, b).1 == []
    ensures Decode(d, [b] + rest) == Decode(DecodeByte(d, b).0, rest)
  {
    var bytes := [b] + rest;
    assert bytes[1..] == rest;
    var next := DecodeByte(d, b).0;
    assert [] + Decode(next, rest).1 == Decode(next, rest).1;
  }

  lemma DecodeLast(d: Decoder, b: Byte)
    requires Valid(d)
    ensures Decode(d, [b]) == DecodeByte(d, b)
  {
    var bytes := [b];
    assert bytes[1..] == [];
    assert DecodeByte(d, b).1 + [] == DecodeByte(d, b).1;
  }

  lemma Continuation(d: Decoder, x: nat)
    requires Valid(d) && d.needed > 1 && x < 0x40 && d.lower <= 0x80 + x <= d.upper
    ensures DecodeByte(d, 0x80 + x) == (Decoder(d.needed - 1, d.point * 0x40 + x, 0x80, 0xBF), [])
  {
    assert (0x80 + x) % 0x40 == x;
  }

  lemma LastContinuation(d: Decoder, x: nat, point: nat)
    requires Valid(d) && d.needed == 1 && x < 0x40 && d.lower <= 0x80 + x <= d.upper
    requires point == d.point * 0x40 + x && (point < 0xD800 || 0xE000 <= point < 0x11_0000)
    ensures DecodeByte(d, 0x80 + x) == (FRESH, Units(point))
  {
    assert (0x80 + x) % 0x40 == x;
  }

  lemma DecodeLead(b: Byte)
    ensures DecodeByte(FRESH, b) == Lead(b)
  {
  }

  // The last two bytes of a sequence.
  lemma DecodeTail(d: Decoder, x: nat, y: nat, point: nat)
    requires Valid(d) && d.needed == 2 && x < 0x40 && y < 0x40 && d.lower <= 0x80 + x <= d.upper
    requires point == (d.point * 0x40 + x) * 0x40 + y && (point < 0xD800 || 0xE000 <= point < 0x11_0000)
    ensures Decode(d, [0x80 + x, 0x80 + y]) == (FRESH, Units(point))
  {
    hide Decode, Valid, Units, DecodeByte;
    Continuation(d, x);
    DecodePending(d, 0x80 + x, [0x80 + y]);
    var last := Decoder(1, d.point * 0x40 + x, 0x80, 0xBF);
    LastContinuation(last, y, point);
    DecodeLast(last, 0x80 + y);
    assert [0x80 + x] + [0x80 + y] == [0x80 + x, 0x80 + y];
  }

  lemma LeadThree(a: nat, b: nat, c: nat, point: nat)
    requires a < 0x10 && b < 0x40 && c < 0x40 && point == (a * 0x40 + b) * 0x40 + c
    requires 0x800 <= point < 0xD800 || 0xE000 <= point
    ensures var (d, units) := DecodeByte(FRESH, 0xE0 + a);
            Valid(d) && units == [] && d.needed == 2 && d.point == a && d.lower <= 0x80 + b <= d.upper
  {
    DecodeLead(0xE0 + a);
  }

  lemma DecodeTriple(a: nat, b: nat, c: nat, point: nat)
    requires a < 0x10 && b < 0x40 && c < 0x40 && point == (a * 0x40 + b) * 0x40 + c
    requires 0x800 <= point < 0xD800 || 0xE000 <= point
    ensures Decode(FRESH, [0xE0 + a, 0x80 + b, 0x80 + c]) == (FRESH, Units(point))
  {
    FreshValid();
    LeadThree(a, b, c, point);
    var d := DecodeByte(FRESH, 0xE0 + a).0;
    hide *;
    DecodeTail(d, b, c, point);
    DecodePending(FRESH, 0xE0 + a, [0x80 + b, 0x80 + c]);
    assert [0xE0 + a, 0x80 + b, 0x80 + c] == [0xE0 + a] + [0x80 + b, 0x80 + c];
  }

  lemma DecodeThreeBytes(point: nat)
    requires 0x800 <= point < 0xD800 || 0xE000 <= point < 0x1_0000
    ensures Decode(FRESH, EncodePoint(point)) == (FRESH, Units(point))
  {
    hide Decode, Units;
    var a, b := point / 0x40, point / 0x1000;
    assert a * 0x40 + point % 0x40 == point && b * 0x40 + a % 0x40 == a;
    DecodeTriple(b, a % 0x40, point % 0x40, point);
  }

  // The last three bytes of a sequence.
  lemma DecodeThreeLeft(d: Decoder, b: nat, c: nat, x: nat, point: nat)
    requires Valid(d) && d.needed == 3 && b < 0x40 && c < 0x40 && x < 0x40 && d.lower <= 0x80 + b <= d.upper
    requires point == ((d.point * 0x40 + b) * 0x40 + c) * 0x40 + x && 0x1_0000 <= point < 0x11_0000
    ensures Decode(d, [0x80 + b, 0x80 + c, 0x80 + x]) == (FRESH, Units(point))
  {
    hide Decode, Valid, Units, DecodeByte;
    Continuation(d, b);
    DecodeTail(Decoder(2, d.point * 0x40 + b, 0x80, 0xBF), c, x, point);
    DecodePending(d, 0x80 + b, [0x80 + c, 0x80 + x]);
    assert [0x80 + b] + [0x80 + c, 0x80 + x] == [0x80 + b, 0x80 + c, 0x80 + x];
  }

  lemma LeadFour(a: nat, b: nat, c: nat, x: nat, point: nat)
    requires a <= 4 && b < 0x40 && c < 0x40 && x < 0x40
    requires point == ((a * 0x40 + b) * 0x40 + c) * 0x40 + x && 0x1_0000 <= point < 0x11_0000
    ensures var (d, units) := DecodeByte(FRESH, 0xF0 + a);
            Valid(d) && units == [] && d.needed == 3 && d.point == a && d.lower <= 0x80 + b <= d.upper
  {
    DecodeLead(0xF0 + a);
  }

  lemma DecodeQuad(a: nat, b: nat, c: nat, x: nat, point: nat)
    requires a <= 4 && b < 0x40 && c < 0x40 && x < 0x40
    requires point == ((a * 0x40 + b) * 0x40 + c) * 0x40 + x && 0x1_0000 <= point < 0x11_0000
    ensures Decode(FRESH, [0xF0 + a, 0x80 + b, 0x80 + c, 0x80 + x]) == (FRESH, Units(point))
  {
    FreshValid();
    LeadFour(a, b, c, x, point);
    var d := DecodeByte(FRESH, 0xF0 + a).0;
    hide *;
    DecodeThreeLeft(d, b, c, x, point);
    DecodePending(FRESH, 0xF0 + a, [0x80 + b, 0x80 + c, 0x80 + x]);
    assert [0xF0 + a, 0x80 + b, 0x80 + c, 0x80 + x] == [0xF0 + a] + [0x80 + b, 0x80 + c, 0x80 + x];
  }

  lemma SixBits(point: nat)
    ensures ((point / 0x4_0000 * 0x40 + point / 0x1000 % 0x40) * 0x40 + point / 0x40 % 0x40) * 0x40 + point % 0x40 ==
            point
  {
    var a, b, c := point / 0x40, point / 0x1000, point / 0x4_0000;
    assert a * 0x40 + point % 0x40 == point && b * 0x40 + a % 0x40 == a && c * 0x40 + b % 0x40 == b;
  }

  lemma DecodeFourBytes(point: nat)
    requires 0x1_0000 <= point < 0x11_0000
    ensures Decode(FRESH, EncodePoint(point)) == (FRESH, Units(point))
  {
    hide Decode, Units;
    SixBits(point);
    DecodeQuad(point / 0x4_0000, point / 0x1000 % 0x40, point / 0x40 % 0x40, point % 0x40, point);
  }

  // The bytes of a code point decode to its units.
  lemma DecodePoint(point: nat)
    requires point < 0xD800 || 0xE000 <= point < 0x11_0000
    ensures Decode(FRESH, EncodePoint(point)) == (FRESH, Units(point))
  {
    if point < 0x80 {
      DecodeLast(FRESH, point);
    } else if point < 0x800 {
      var d := Lead(0xC0 + point / 0x40).0;
      DecodePending(FRESH, 0xC0 + point / 0x40, [0x80 + point % 0x40]);
      LastContinuation(d, point % 0x40, point);
      DecodeLast(d, 0x80 + point % 0x40);
      assert EncodePoint(point) == [0xC0 + point / 0x40] + [0x80 + point % 0x40];
    } else if point < 0x1_0000 {
      DecodeThreeBytes(point);
    } else {
      DecodeFourBytes(point);
    }
  }

  lemma HeadUnits(s: Text)
    requires WellFormed(s) && |s| > 0
    ensures Units(HeadPoint(s)) == if StartsPair(s) then s[..2] else s[..1]
  {
    if StartsPair(s) {
      var high, low := s[0] as int - 0xD800, s[1] as int - 0xDC00;
      assert (high * 0x400 + low) / 0x400 == high && (high * 0x400 + low) % 0x400 == low;
      assert HeadPoint(s) - 0x1_0000 == high * 0x400 + low;
      assert s[..2] == [s[0], s[1]];
    } else {
      assert s[..1] == [s[0]];
    }
  }

  // What `TextEncoder` writes, `TextDecoder` reads back.
  lemma {:induction false} DecodeEncode(s: Text)
    requires WellFormed(s)
    ensures Decode(FRESH, Encode(s)) == (FRESH, s)
  {
    hide DecodeByte, Units, HeadPoint, EncodePoint;
    if |s| != 0 {
      var n := if StartsPair(s) then 2 else 1;
      DecodePoint(HeadPoint(s));
      DecodeConcat(FRESH, EncodePoint(HeadPoint(s)), Encode(s[n..]));
      DecodeEncode(s[n..]);
      HeadUnits(s);
      assert s == s[..n] + s[n..];
    }
  }
}
