/**
 What the decoder makes of any bytes, row by row: the well-formed sequences of Table 3-7 of the Unicode Standard, and
 one replacement character for each maximal part of one that is cut short.
 */
module Utf8Table {
  import opened Utf16
  import opened Utf8Decoder

  /** The text of the bytes from a state of the decoder on. */
  function TextOf(d: Decoder, bytes: seq<Byte>): Text
    requires Valid(d)
  {
    Decode(d, bytes).1 + Flush(Decode(d, bytes).0)
  }

  lemma WholeText(bytes: seq<Byte>)
    ensures Valid(FRESH) && DecodeAll(bytes) == TextOf(FRESH, bytes)
  {
  }

  lemma OneByte(d: Decoder, b: Byte, rest: seq<Byte>)
    requires Valid(d)
    ensures TextOf(d, [b] + rest) == DecodeByte(d, b).1 + TextOf(DecodeByte(d, b).0, rest)
  {
    assert ([b] + rest)[1..] == rest;
    var (next, units) := DecodeByte(d, b);
    assert units + Decode(next, rest).1 + Flush(Decode(next, rest).0) ==
           units + (Decode(next, rest).1 + Flush(Decode(next, rest).0));
  }

  /** The next byte does not continue the sequence. */
  predicate Breaks(bytes: seq<Byte>, lower: Byte, upper: Byte) {
    bytes == [] || bytes[0] < lower || upper < bytes[0]
  }

  // A sequence that is cut short is one replacement character, and the byte that cuts it is read afresh.
  lemma CutShort(d: Decoder, rest: seq<Byte>)
    requires Valid(d) && d.needed > 0 && Breaks(rest, d.lower, d.upper)
    ensures Valid(FRESH) && TextOf(d, rest) == [0xFFFD] + TextOf(FRESH, rest)
  {
    FreshValid();
    if rest != [] {
      assert rest == [rest[0]] + rest[1..];
      OneByte(d, rest[0], rest[1..]);
      OneByte(FRESH, rest[0], rest[1..]);
      var (next, units) := Lead(rest[0]);
      hide TextOf, Lead, Valid;
      assert REPLACEMENT + units + TextOf(next, rest[1..]) == REPLACEMENT + (units + TextOf(next, rest[1..]));
    }
  }

  lemma OneLead(b: Byte, rest: seq<Byte>)
    ensures Valid(FRESH) && TextOf(FRESH, [b] + rest) == Lead(b).1 + TextOf(Lead(b).0, rest)
  {
    FreshValid();
    OneByte(FRESH, b, rest);
  }

  lemma Continues(d: Decoder, b: Byte, rest: seq<Byte>)
    requires Valid(d) && d.needed > 1 && d.lower <= b <= d.upper
    ensures var next := Decoder(d.needed - 1, d.point * 0x40 + (b - 0x80), 0x80, 0xBF);
            Valid(next) && TextOf(d, [b] + rest) == TextOf(next, rest)
  {
    OneByte(d, b, rest);
    assert b % 0x40 == b - 0x80;
    var next := DecodeByte(d, b).0;
    assert [] + TextOf(next, rest) == TextOf(next, rest);
  }

  lemma Completes(d: Decoder, b: Byte, rest: seq<Byte>)
    requires Valid(d) && d.needed == 1 && d.lower <= b <= d.upper
    ensures var point := d.point * 0x40 + (b - 0x80);
            && (point < 0xD800 || 0xE000 <= point < 0x11_0000) && Valid(FRESH)
            && TextOf(d, [b] + rest) == Units(point) + TextOf(FRESH, rest)
  {
    OneByte(d, b, rest);
    assert b % 0x40 == b - 0x80;
  }

  // One byte of ASCII, and the bytes that start no sequence.
  lemma SingleBytes(b: Byte, rest: seq<Byte>)
    ensures b < 0x80 ==> DecodeAll([b] + rest) == [b] + DecodeAll(rest)
    ensures 0x80 <= b <= 0xC1 || 0xF5 <= b ==> DecodeAll([b] + rest) == [0xFFFD] + DecodeAll(rest)
  {
    OneLead(b, rest);
    WholeText([b] + rest);
    WholeText(rest);
    hide TextOf;
  }

  lemma TwoBytes(a: Byte, b: Byte, rest: seq<Byte>)
    requires 0xC2 <= a <= 0xDF && 0x80 <= b <= 0xBF
    ensures DecodeAll([a] + ([b] + rest)) == [(a - 0xC0) * 0x40 + (b - 0x80)] + DecodeAll(rest)
  {
    OneLead(a, [b] + rest);
    Completes(Lead(a).0, b, rest);
    WholeText([a] + ([b] + rest));
    WholeText(rest);
    hide TextOf;
  }

  lemma OneOfTwoBytes(a: Byte, rest: seq<Byte>)
    requires 0xC2 <= a <= 0xDF && (rest == [] || rest[0] < 0x80 || 0xBF < rest[0])
    ensures DecodeAll([a] + rest) == [0xFFFD] + DecodeAll(rest)
  {
    OneLead(a, rest);
    CutShort(Lead(a).0, rest);
    WholeText([a] + rest);
    WholeText(rest);
    hide TextOf;
  }

  lemma ThreeBytes(a: Byte, b: Byte, c: Byte, rest: seq<Byte>)
    requires 0xE0 <= a <= 0xEF && (if a == 0xE0 then 0xA0 else 0x80) <= b <= (if a == 0xED then 0x9F else 0xBF)
    requires 0x80 <= c <= 0xBF
    ensures DecodeAll([a] + ([b] + ([c] + rest))) ==
            [(a - 0xE0) * 0x1000 + (b - 0x80) * 0x40 + (c - 0x80)] + DecodeAll(rest)
  {
    OneLead(a, [b] + ([c] + rest));
    LeadOfThree(a);
    LastTwo(Lead(a).0, b, c, rest);
    WholeText([a] + ([b] + ([c] + rest)));
    WholeText(rest);
    Single((a - 0xE0) * 0x1000 + (b - 0x80) * 0x40 + (c - 0x80));
    hide *;
  }

  lemma LeadOfThree(a: Byte)
    requires 0xE0 <= a <= 0xEF
    ensures Lead(a) ==
            (Decoder(2, a - 0xE0, if a == 0xE0 then 0xA0 else 0x80, if a == 0xED then 0x9F else 0xBF), [])
  {
  }

  lemma Single(point: nat)
    requires point < 0xD800 || 0xE000 <= point < 0x1_0000
    ensures Units(point) == [point]
  {
  }

  lemma PartOfThreeBytes(a: Byte, b: Byte, rest: seq<Byte>)
    requires 0xE0 <= a <= 0xEF
    ensures var second := (if a == 0xE0 then 0xA0 else 0x80) <= b <= (if a == 0xED then 0x9F else 0xBF);
            && DecodeAll([a]) == [0xFFFD]
            && (!second ==> DecodeAll([a] + ([b] + rest)) == [0xFFFD] + DecodeAll([b] + rest))
            && (second && (rest == [] || rest[0] < 0x80 || 0xBF < rest[0]) ==>
                  DecodeAll([a] + ([b] + rest)) == [0xFFFD] + DecodeAll(rest))
  {
    OneLead(a, []);
    assert [a] + [] == [a];
    WholeText([a]);
    OneLead(a, [b] + rest);
    WholeText([a] + ([b] + rest));
    WholeText([b] + rest);
    WholeText(rest);
    var d := Lead(a).0;
    if d.lower <= b <= d.upper {
      Continues(d, b, rest);
      if Breaks(rest, 0x80, 0xBF) { CutShort(Decoder(1, d.point * 0x40 + (b - 0x80), 0x80, 0xBF), rest); }
    } else {
      CutShort(d, [b] + rest);
    }
    hide TextOf, DecodeAll, DecodeByte;
  }

  lemma FourBytes(a: Byte, b: Byte, c: Byte, d: Byte, rest: seq<Byte>)
    requires 0xF0 <= a <= 0xF4 && (if a == 0xF0 then 0x90 else 0x80) <= b <= (if a == 0xF4 then 0x8F else 0xBF)
    requires 0x80 <= c <= 0xBF && 0x80 <= d <= 0xBF
    ensures var point := (a - 0xF0) * 0x4_0000 + (b - 0x80) * 0x1000 + (c - 0x80) * 0x40 + (d - 0x80);
            && 0x1_0000 <= point < 0x11_0000
            && DecodeAll([a] + ([b] + ([c] + ([d] + rest)))) ==
               [0xD800 + (point - 0x1_0000) / 0x400, 0xDC00 + (point - 0x1_0000) % 0x400] + DecodeAll(rest)
  {
    LeadOfFour(a);
    FirstOfFour(a, b, [c] + ([d] + rest));
    LastTwo(Decoder(2, (a - 0xF0) * 0x40 + (b - 0x80), 0x80, 0xBF), c, d, rest);
    WholeText(rest);
    Pair(((a - 0xF0) * 0x40 + (b - 0x80)) * 0x1000 + (c - 0x80) * 0x40 + (d - 0x80));
    hide *;
  }

  lemma LastTwo(d: Decoder, b: Byte, c: Byte, rest: seq<Byte>)
    requires Valid(d) && d.needed == 2 && d.lower <= b <= d.upper && 0x80 <= c <= 0xBF
    ensures var point := d.point * 0x1000 + (b - 0x80) * 0x40 + (c - 0x80);
            && (point < 0xD800 || 0xE000 <= point < 0x11_0000) && Valid(FRESH)
            && TextOf(d, [b] + ([c] + rest)) == Units(point) + TextOf(FRESH, rest)
  {
    Continues(d, b, [c] + rest);
    Completes(Decoder(1, d.point * 0x40 + (b - 0x80), 0x80, 0xBF), c, rest);
    hide *;
  }

  lemma LeadOfFour(a: Byte)
    requires 0xF0 <= a <= 0xF4
    ensures Lead(a) ==
            (Decoder(3, a - 0xF0, if a == 0xF0 then 0x90 else 0x80, if a == 0xF4 then 0x8F else 0xBF), [])
  {
  }

  lemma Pair(point: nat)
    requires 0x1_0000 <= point < 0x11_0000
    ensures Units(point) == [0xD800 + (point - 0x1_0000) / 0x400, 0xDC00 + (point - 0x1_0000) % 0x400]
  {
  }

  lemma PartOfFourBytes(a: Byte, b: Byte, rest: seq<Byte>)
    requires 0xF0 <= a <= 0xF4
    ensures var second := (if a == 0xF0 then 0x90 else 0x80) <= b <= (if a == 0xF4 then 0x8F else 0xBF);
            && DecodeAll([a]) == [0xFFFD]
            && (!second ==> DecodeAll([a] + ([b] + rest)) == [0xFFFD] + DecodeAll([b] + rest))
            && (second && (rest == [] || rest[0] < 0x80 || 0xBF < rest[0]) ==>
                  DecodeAll([a] + ([b] + rest)) == [0xFFFD] + DecodeAll(rest))
  {
    OneLead(a, []);
    assert [a] + [] == [a];
    WholeText([a]);
    WholeText(rest);
    FirstOfFour(a, b, rest);
    LeadOfFour(a);
    hide TextOf, DecodeAll, DecodeByte, Lead, Valid;
    var d := Lead(a).0;
    if d.lower <= b <= d.upper && Breaks(rest, 0x80, 0xBF) {
      CutShort(Decoder(2, d.point * 0x40 + (b - 0x80), 0x80, 0xBF), rest);
    }
  }

  lemma ThreeOfFourBytes(a: Byte, b: Byte, c: Byte, rest: seq<Byte>)
    requires 0xF0 <= a <= 0xF4 && (if a == 0xF0 then 0x90 else 0x80) <= b <= (if a == 0xF4 then 0x8F else 0xBF)
    requires 0x80 <= c <= 0xBF && (rest == [] || rest[0] < 0x80 || 0xBF < rest[0])
    ensures DecodeAll([a] + ([b] + ([c] + rest))) == [0xFFFD] + DecodeAll(rest)
  {
    FirstOfFour(a, b, [c] + rest);
    LeadOfFour(a);
    WholeText(rest);
    var d := Decoder(2, (a - 0xF0) * 0x40 + (b - 0x80), 0x80, 0xBF);
    Continues(d, c, rest);
    CutShort(Decoder(1, d.point * 0x40 + (c - 0x80), 0x80, 0xBF), rest);
    hide *;
  }

  lemma FirstOfFour(a: Byte, b: Byte, rest: seq<Byte>)
    requires 0xF0 <= a <= 0xF4
    ensures var d := Lead(a).0;
            if d.lower <= b <= d.upper then
              var next := Decoder(2, d.point * 0x40 + (b - 0x80), 0x80, 0xBF);
              Valid(next) && DecodeAll([a] + ([b] + rest)) == TextOf(next, rest)
            else DecodeAll([a] + ([b] + rest)) == [0xFFFD] + DecodeAll([b] + rest)
  {
    OneLead(a, [b] + rest);
    WholeText([a] + ([b] + rest));
    WholeText([b] + rest);
    var d := Lead(a).0;
    if d.lower <= b <= d.upper { Continues(d, b, rest); } else { CutShort(d, [b] + rest); }
    hide TextOf, DecodeAll, DecodeByte;
  }
}
