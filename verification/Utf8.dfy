/** UTF-8 as codepoint_to_utf8 of luaclib-src/cjson/lua_cjson.c writes it, against
    the decoding of section 3 of RFC 3629. */
module Utf8 {
  import opened Basics

  /** codepoint_to_utf8; the bits or-ed together never overlap, so they are added. */
  function Encode(cp: nat): (r: seq<Byte>)
    ensures |r| <= 4 && (r == [] <==> cp > 0x1FFFFF)
  {
    if cp <= 0x7F then [cp]
    else if cp <= 0x7FF then [0xC0 + cp / 0x40, 0x80 + cp % 0x40]
    else if cp <= 0xFFFF then [0xE0 + cp / 0x1000, 0x80 + cp / 0x40 % 0x40, 0x80 + cp % 0x40]
    else if cp <= 0x1FFFFF then
      [0xF0 + cp / 0x4_0000, 0x80 + cp / 0x1000 % 0x40, 0x80 + cp / 0x40 % 0x40, 0x80 + cp % 0x40]
    else []
  }

  predicate Tail(b: Byte) {
    0x80 <= b <= 0xBF
  }

  /** The number of bytes of the sequence a byte starts, 0 when it starts none. */
  function SequenceLength(b: Byte): nat {
    if b <= 0x7F then 1
    else if 0xC0 <= b <= 0xDF then 2
    else if 0xE0 <= b <= 0xEF then 3
    else if 0xF0 <= b <= 0xF7 then 4
    else 0
  }

  /** What a byte adds beyond the marker bits `base`. */
  function Beyond(b: Byte, base: int): int {
    b - base
  }

  /** The number a well-formed sequence spells, in the shortest form only; surrogates
      and numbers above 10FFFF are no characters. */
  function Decode(s: seq<Byte>): (cp: int) {
    if |s| == 1 && s[0] <= 0x7F then s[0]
    else if |s| == 2 && SequenceLength(s[0]) == 2 && Tail(s[1]) then
      var v := Beyond(s[0], 0xC0) * 0x40 + Beyond(s[1], 0x80);
      if v >= 0x80 then v else -1
    else if |s| == 3 && SequenceLength(s[0]) == 3 && Tail(s[1]) && Tail(s[2]) then
      var v := Beyond(s[0], 0xE0) * 0x1000 + Beyond(s[1], 0x80) * 0x40 + Beyond(s[2], 0x80);
      if v >= 0x800 && !(0xD800 <= v <= 0xDFFF) then v else -1
    else if |s| == 4 && SequenceLength(s[0]) == 4 && Tail(s[1]) && Tail(s[2]) && Tail(s[3]) then
      var v := Beyond(s[0], 0xF0) * 0x4_0000 + Beyond(s[1], 0x80) * 0x1000 + Beyond(s[2], 0x80) * 0x40 + Beyond(s[3], 0x80);
      if 0x1_0000 <= v <= 0x10_FFFF then v else -1
    else -1
  }

  /** A Unicode scalar value. */
  predicate Scalar(cp: nat) {
    cp <= 0x10_FFFF && !(0xD800 <= cp <= 0xDFFF)
  }

  /** Base 64 digits. */
  lemma Digits(cp: nat)
    ensures cp == cp / 0x40 * 0x40 + cp % 0x40
    ensures cp == cp / 0x1000 * 0x1000 + cp / 0x40 % 0x40 * 0x40 + cp % 0x40
    ensures cp == cp / 0x4_0000 * 0x4_0000 + cp / 0x1000 % 0x40 * 0x1000 + cp / 0x40 % 0x40 * 0x40 + cp % 0x40
  {
    var a, b := cp / 0x40, cp / 0x1000;
    assert b == a / 0x40 && cp / 0x4_0000 == b / 0x40;
    assert a == b * 0x40 + a % 0x40 && b == b / 0x40 * 0x40 + b % 0x40;
  }

  /** Exactly the scalar values are encoded as well-formed UTF-8, which spells them. */
  lemma EncodeIsUtf8(cp: nat)
    ensures Decode(Encode(cp)) == if Scalar(cp) then cp else -1
  {
    Digits(cp);
    hide Decode;
    if cp <= 0x7F {
      Short(cp);
    } else if cp <= 0x7FF {
      Two(0xC0 + cp / 0x40, 0x80 + cp % 0x40);
    } else if cp <= 0xFFFF {
      Three(0xE0 + cp / 0x1000, 0x80 + cp / 0x40 % 0x40, 0x80 + cp % 0x40);
    } else if cp <= 0x1FFFFF {
      Four(0xF0 + cp / 0x4_0000, 0x80 + cp / 0x1000 % 0x40, 0x80 + cp / 0x40 % 0x40, 0x80 + cp % 0x40);
    } else {
      Short(0);
    }
  }

  lemma Short(b: nat)
    ensures Decode([]) == -1 && (b <= 0x7F ==> Decode([b]) == b)
  {
  }

  lemma Two(a: Byte, b: Byte)
    requires 0xC0 <= a <= 0xDF && Tail(b)
    ensures var v := Beyond(a, 0xC0) * 0x40 + Beyond(b, 0x80);
      Decode([a, b]) == if v >= 0x80 then v else -1
  {
  }

  lemma Three(a: Byte, b: Byte, c: Byte)
    requires 0xE0 <= a <= 0xEF && Tail(b) && Tail(c)
    ensures var v := Beyond(a, 0xE0) * 0x1000 + Beyond(b, 0x80) * 0x40 + Beyond(c, 0x80);
      Decode([a, b, c]) == if v >= 0x800 && !(0xD800 <= v <= 0xDFFF) then v else -1
  {
  }

  lemma Four(a: Byte, b: Byte, c: Byte, d: Byte)
    requires 0xF0 <= a <= 0xF7 && Tail(b) && Tail(c) && Tail(d)
    ensures var v := Beyond(a, 0xF0) * 0x4_0000 + Beyond(b, 0x80) * 0x1000 + Beyond(c, 0x80) * 0x40 + Beyond(d, 0x80);
      Decode([a, b, c, d]) == if 0x1_0000 <= v <= 0x10_FFFF then v else -1
  {
  }
}
