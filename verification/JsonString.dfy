/** JSON strings as luaclib-src/cjson/lua_cjson.c writes and reads them: the escapes of
    section 7 of RFC 8259, with surrogate pairs as section 2.2 of RFC 2781 has them. */
module JsonString {
  import opened Basics
  import U = Utf8

  const QUOTE: Byte := 34
  const SLASH: Byte := 47
  const BACKSLASH: Byte := 92
  const LOWER_U: Byte := 117

  // ---- Writing ----------------------------------------------------------------------------

  function HexDigit(n: nat): (c: Byte)
    requires n < 16
  {
    if n < 10 then 48 + n else 87 + n
  }

  /** char2escape: the text a byte is written as when not as itself. */
  function Escape(b: Byte): (t: seq<Byte>)
    ensures |t| <= 6
  {
    if b == 8 then [BACKSLASH, 98]
    else if b == 9 then [BACKSLASH, 116]
    else if b == 10 then [BACKSLASH, 110]
    else if b == 12 then [BACKSLASH, 102]
    else if b == 13 then [BACKSLASH, 114]
    else if b == QUOTE || b == SLASH || b == BACKSLASH then [BACKSLASH, b]
    else if b < 32 || b == 127 then [BACKSLASH, LOWER_U, 48, 48, HexDigit(b / 16), HexDigit(b % 16)]
    else []
  }

  function WrittenAs(b: Byte): (t: seq<Byte>)
    ensures 1 <= |t| <= 6
  {
    if Escape(b) == [] then [b] else Escape(b)
  }

  function Body(s: seq<Byte>): (t: seq<Byte>)
    ensures |t| <= 6 * |s|
  {
    if s == [] then [] else Body(s[..|s| - 1]) + WrittenAs(s[|s| - 1])
  }

  /** The JSON text of a string. */
  function Encoded(s: seq<Byte>): (t: seq<Byte>)
    ensures |t| <= 6 * |s| + 2
  {
    [QUOTE] + Body(s) + [QUOTE]
  }

  /** How each byte is written: backspace, tab, line feed, form feed and carriage return,
      quote, slash and backslash after a backslash; other control characters and delete as
      four lower-case digits; all others as themselves. */
  lemma WrittenText(b: Byte)
    ensures b == 8 ==> WrittenAs(b) == [92, 98]
    ensures b == 9 ==> WrittenAs(b) == [92, 116]
    ensures b == 10 ==> WrittenAs(b) == [92, 110]
    ensures b == 12 ==> WrittenAs(b) == [92, 102]
    ensures b == 13 ==> WrittenAs(b) == [92, 114]
    ensures b == 34 || b == 47 || b == 92 ==> WrittenAs(b) == [92, b]
    ensures (b < 32 && b != 8 && b != 9 && b != 10 && b != 12 && b != 13) || b == 127 ==>
      && |WrittenAs(b)| == 6 && WrittenAs(b)[..4] == [92, 117, 48, 48]
      && b == 16 * LowerHex(WrittenAs(b)[4]) + LowerHex(WrittenAs(b)[5])
    ensures b >= 32 && b != 34 && b != 47 && b != 92 && b != 127 ==> WrittenAs(b) == [b]
  {
  }

  /** The text of a string is that of its bytes between two quotes. */
  lemma EncodedText(s: seq<Byte>, b: Byte)
    ensures Encoded([]) == [34, 34]
    ensures Encoded(s + [b]) == Encoded(s)[..|Encoded(s)| - 1] + WrittenAs(b) + [34]
  {
    hide WrittenAs;
    assert (s + [b])[..|s|] == s;
  }

  /** The value of a digit or lower-case letter; 16 for anything else. */
  function LowerHex(c: Byte): nat {
    if 48 <= c <= 57 then c - 48 else if 97 <= c <= 102 then c - 87 else 16
  }

  // ---- Reading, as a function of the text that remains -----------------------------------------

  /** escape2char: what the character after a backslash stands for, 0 when nothing. */
  function Unescape(c: Byte): Byte {
    if c == QUOTE || c == BACKSLASH || c == SLASH || c == LOWER_U then c
    else if c == 98 then 8
    else if c == 116 then 9
    else if c == 110 then 10
    else if c == 102 then 12
    else if c == 114 then 13
    else 0
  }

  /** hexdigit2int. */
  function HexValue(c: Byte): (v: int)
    ensures -1 <= v < 16
  {
    if 48 <= c <= 57 then c - 48
    else
      var d := if c / 32 % 2 == 1 then c else c + 32;
      if 97 <= d <= 102 then 10 + d - 97 else -1
  }

  /** The digits, in either case, and nothing else. */
  lemma HexDigits(c: Byte)
    ensures 48 <= c <= 57 ==> HexValue(c) == c - 48
    ensures 65 <= c <= 70 ==> HexValue(c) == c - 65 + 10
    ensures 97 <= c <= 102 ==> HexValue(c) == c - 97 + 10
    ensures HexValue(c) >= 0 ==> 48 <= c <= 57 || 65 <= c <= 70 || 97 <= c <= 102
  {
  }

  /** Four hexadecimal digits and their value. */
  predicate IsHex4(h: seq<Byte>) {
    |h| == 4 && HexValue(h[0]) >= 0 && HexValue(h[1]) >= 0 && HexValue(h[2]) >= 0 && HexValue(h[3]) >= 0
  }

  function Hex4(h: seq<Byte>): (v: nat)
    requires IsHex4(h)
    ensures v < 0x1_0000
  {
    HexValue(h[0]) * 0x1000 + HexValue(h[1]) * 0x100 + HexValue(h[2]) * 0x10 + HexValue(h[3])
  }

  lemma HexNumber(h: seq<Byte>)
    requires IsHex4(h)
    ensures Hex4(h) == 4096 * HexValue(h[0]) + 256 * HexValue(h[1]) + 16 * HexValue(h[2]) + HexValue(h[3])
  {
    hide HexValue;
  }

  predicate HighSurrogate(v: nat) {
    0xD800 <= v <= 0xDBFF
  }

  predicate LowSurrogate(v: nat) {
    0xDC00 <= v <= 0xDFFF
  }

  function Combine(high: nat, low: nat): (cp: nat)
    requires HighSurrogate(high) && LowSurrogate(low)
    ensures 0x1_0000 <= cp <= 0x10_FFFF
  {
    (high - 0xD800) * 0x400 + (low - 0xDC00) + 0x1_0000
  }

  /** One element of a string's text. */
  datatype Item =
    | Plain(b: Byte)
    | Simple(c: Byte)
    | Unit(h: seq<Byte>)
    | Pair(high: seq<Byte>, low: seq<Byte>)

  predicate ItemOk(i: Item) {
    match i
    case Plain(b) => b != QUOTE && b != BACKSLASH && b != 0
    case Simple(c) => Unescape(c) != 0 && c != LOWER_U
    case Unit(h) => IsHex4(h) && !HighSurrogate(Hex4(h)) && !LowSurrogate(Hex4(h))
    case Pair(h, l) => IsHex4(h) && IsHex4(l) && HighSurrogate(Hex4(h)) && LowSurrogate(Hex4(l))
  }

  /** What section 7 of RFC 8259 lets a string be made of, bytes beyond ASCII being left to
      the encoding of the text. */
  predicate Section7(i: Item) {
    match i
    case Plain(b) => b >= 32 && b != QUOTE && b != BACKSLASH
    case Simple(c) => Unescape(c) != 0 && c != LOWER_U
    case Unit(h) => IsHex4(h)
    case Pair(h, l) => IsHex4(h) && IsHex4(l) && HighSurrogate(Hex4(h)) && LowSurrogate(Hex4(l))
  }

  /** The reader differs from it in two ways: control characters may stand unescaped, and
      the escape of a surrogate on its own is refused. */
  lemma ReaderDiffers(i: Item)
    ensures ItemOk(i) && !Section7(i) <==> i.Plain? && 1 <= i.b < 32
    ensures Section7(i) && !ItemOk(i) <==> i.Unit? && IsHex4(i.h) && (HighSurrogate(Hex4(i.h)) || LowSurrogate(Hex4(i.h)))
  {
  }

  lemma RawControl(b: Byte)
    requires 1 <= b < 32
    ensures Scan([b, QUOTE]) == Some(([b], 2)) && !Section7(Plain(b))
  {
    var u := [b, QUOTE];
    assert FirstItem(u) == Some(Plain(b)) && u[|Text(Plain(b))|..] == [QUOTE];
    assert Scan([QUOTE]) == Some(([], 1));
    assert Meaning(Plain(b)) == [b] && [b] + [] == [b];
    assert Scan(u) == Some((Meaning(Plain(b)) + [], 2));
  }

  function Text(i: Item): (t: seq<Byte>) {
    match i
    case Plain(b) => [b]
    case Simple(c) => [BACKSLASH, c]
    case Unit(h) => [BACKSLASH, LOWER_U] + h
    case Pair(h, l) => [BACKSLASH, LOWER_U] + h + [BACKSLASH, LOWER_U] + l
  }

  function Meaning(i: Item): (m: seq<Byte>)
    requires ItemOk(i)
  {
    match i
    case Plain(b) => [b]
    case Simple(c) => [Unescape(c)]
    case Unit(h) => U.Encode(Hex4(h))
    case Pair(h, l) => U.Encode(Combine(Hex4(h), Hex4(l)))
  }

  /** The item `u` starts with. */
  function FirstItem(u: seq<Byte>): (r: Option<Item>)
    ensures r.Some? ==> ItemOk(r.value) && Text(r.value) <= u && |Text(r.value)| > 0
  {
    if u == [] || u[0] == QUOTE || u[0] == 0 then None
    else if u[0] != BACKSLASH then Some(Plain(u[0]))
    else if |u| < 2 then None
    else if u[1] == LOWER_U then Escaped(u)
    else if Unescape(u[1]) == 0 then None
    else
      assert Text(Simple(u[1])) == u[..2];
      Some(Simple(u[1]))
  }

  /** json_append_unicode_escape. */
  function Escaped(u: seq<Byte>): (r: Option<Item>)
    requires |u| >= 2 && u[0] == BACKSLASH && u[1] == LOWER_U
    ensures r.Some? ==> ItemOk(r.value) && Text(r.value) <= u && |Text(r.value)| > 0
  {
    if |u| < 6 || !IsHex4(u[2..6]) then None
    else
      var v := Hex4(u[2..6]);
      if LowSurrogate(v) then None
      else if !HighSurrogate(v) then
        assert Text(Unit(u[2..6])) == u[..6];
        Some(Unit(u[2..6]))
      else if |u| < 12 || u[6] != BACKSLASH || u[7] != LOWER_U || !IsHex4(u[8..12]) then None
      else if !LowSurrogate(Hex4(u[8..12])) then None
      else
        assert Text(Pair(u[2..6], u[8..12])) == u[..12];
        Some(Pair(u[2..6], u[8..12]))
  }

  /** The string whose text `u` is, up to the closing quote, and the length of that text. */
  function Scan(u: seq<Byte>): (r: Option<(seq<Byte>, nat)>)
    ensures r.Some? ==> r.value.1 <= |u| && |r.value.0| < r.value.1
    decreases |u|
  {
    if u != [] && u[0] == QUOTE then Some(([], 1))
    else
      var i := FirstItem(u);
      if i.None? then None
      else
        MeaningShorter(i.value);
        var n := |Text(i.value)|;
        var r := Scan(u[n..]);
        if r.None? then None else Some((Meaning(i.value) + r.value.0, n + r.value.1))
  }

  /** No item means more bytes than it is written with. */
  lemma MeaningShorter(i: Item)
    requires ItemOk(i)
    ensures |Meaning(i)| <= |Text(i)|
  {
  }

  /** A quote ends a string, a NUL is refused, and any other byte but a backslash stands
      for itself. */
  lemma PlainBytes(b: Byte, rest: seq<Byte>)
    requires b != 92
    ensures var u := [b] + rest;
      && (b == 34 ==> Scan(u) == Some(([], 1)))
      && (b == 0 ==> Scan(u) == None)
      && (b != 34 && b != 0 ==>
          && (Scan(rest).None? ==> Scan(u) == None)
          && (Scan(rest).Some? ==>
              Scan(u).Some? && Scan(u).value.0 == [b] + Scan(rest).value.0 && Scan(u).value.1 == 1 + Scan(rest).value.1))
  {
    var u := [b] + rest;
    assert u[1..] == rest;
    if b != 34 && b != 0 {
      assert FirstItem(u) == Some(Plain(b));
      assert Text(Plain(b)) == [b] && Meaning(Plain(b)) == [b];
    }
  }

  /** What the simple escapes are read as; a backslash before any other character than u
      is refused. */
  lemma SimpleEscapes(c: Byte, rest: seq<Byte>)
    requires c != 117
    ensures var u := [92, c] + rest;
      var b: int := if c == 98 then 8 else if c == 116 then 9 else if c == 110 then 10 else if c == 102 then 12
        else if c == 114 then 13 else if c == 34 || c == 47 || c == 92 then c else -1;
      && (b == -1 || Scan(rest).None? ==> Scan(u) == None)
      && (b != -1 && Scan(rest).Some? ==>
          Scan(u).Some? && Scan(u).value.0 == [b] + Scan(rest).value.0 && Scan(u).value.1 == 2 + Scan(rest).value.1)
  {
    var u := [92, c] + rest;
    assert u[2..] == rest;
    if Unescape(c) != 0 {
      assert FirstItem(u) == Some(Simple(c));
      assert Text(Simple(c)) == [92, c] && Meaning(Simple(c)) == [Unescape(c)];
    } else {
      assert FirstItem(u) == None;
    }
  }

  // ---- Reading takes exactly the strings of the grammar ------------------------------------------

  function Texts(items: seq<Item>): seq<Byte> {
    if items == [] then [] else Text(items[0]) + Texts(items[1..])
  }

  predicate ItemsOk(items: seq<Item>) {
    forall k :: 0 <= k < |items| ==> ItemOk(items[k])
  }

  function Meanings(items: seq<Item>): seq<Byte>
    requires ItemsOk(items)
  {
    if items == [] then [] else Meaning(items[0]) + Meanings(items[1..])
  }

  /** The first item is the one that was written, whatever follows. */
  lemma FirstIs(i: Item, rest: seq<Byte>)
    requires ItemOk(i)
    ensures FirstItem(Text(i) + rest) == Some(i)
  {
    hide Hex4, HexValue;
    var u := Text(i) + rest;
    match i {
      case Plain(b) =>
      case Simple(c) =>
      case Unit(h) =>
        assert u[2..6] == h;
      case Pair(h, l) =>
        assert u[2..6] == h && u[8..12] == l && u[6] == BACKSLASH && u[7] == LOWER_U;
    }
  }

  /** Every text of the grammar is read to its closing quote, as what its items mean. */
  lemma {:induction false} ScanItems(items: seq<Item>, rest: seq<Byte>)
    requires ItemsOk(items)
    ensures Scan(Texts(items) + [QUOTE] + rest) == Some((Meanings(items), |Texts(items)| + 1))
  {
    hide FirstItem, Text, Meaning, ItemOk;
    if items == [] {
      assert Texts(items) + [QUOTE] + rest == [QUOTE] + rest;
    } else {
      var tail := Texts(items[1..]) + [QUOTE] + rest;
      var u := Texts(items) + [QUOTE] + rest;
      assert u == Text(items[0]) + tail;
      FirstIs(items[0], tail);
      assert u[|Text(items[0])|..] == tail;
      ScanItems(items[1..], rest);
      FirstQuote(u);
    }
  }

  lemma FirstQuote(u: seq<Byte>)
    ensures FirstItem(u).Some? ==> u != [] && u[0] != QUOTE
  {
  }

  /** The converse: what is read is a text of the grammar. */
  lemma {:induction false} ScannedItems(u: seq<Byte>) returns (items: seq<Item>)
    requires Scan(u).Some?
    ensures ItemsOk(items) && Scan(u).value == (Meanings(items), |Texts(items)| + 1)
    ensures u[..Scan(u).value.1] == Texts(items) + [QUOTE]
    decreases |u|
  {
    hide FirstItem, Text, Meaning, ItemOk;
    if u[0] == QUOTE {
      items := [];
    } else {
      var i := FirstItem(u).value;
      var n := |Text(i)|;
      var rest := ScannedItems(u[n..]);
      items := [i] + rest;
      assert items[1..] == rest;
      var m := Scan(u[n..]).value.1;
      assert u[..n + m] == u[..n] + u[n..][..m];
    }
  }

  /** Reading succeeds exactly on the texts of the grammar, and gives their meaning. */
  lemma ScanIff(u: seq<Byte>, s: seq<Byte>, n: nat)
    requires n <= |u|
    ensures Scan(u) == Some((s, n)) <==>
      exists items :: ItemsOk(items) && u[..n] == Texts(items) + [QUOTE] && s == Meanings(items)
  {
    hide Scan, Texts, Meanings, ItemsOk;
    if Scan(u) == Some((s, n)) {
      var items := ScannedItems(u);
      assert ItemsOk(items) && u[..n] == Texts(items) + [QUOTE] && s == Meanings(items);
    }
    forall items | ItemsOk(items) && u[..n] == Texts(items) + [QUOTE] && s == Meanings(items)
      ensures Scan(u) == Some((s, n))
    {
      ScanItems(items, u[n..]);
      assert u == u[..n] + u[n..];
      assert |u[..n]| == |Texts(items)| + 1;
    }
  }

  // ---- Writing is inverted -------------------------------------------------------------------------

  /** The item a byte is written as. */
  function ItemOf(b: Byte): (i: Item)
    ensures ItemOk(i) && Text(i) == WrittenAs(b) && Meaning(i) == [b]
  {
    if Escape(b) == [] then Plain(b)
    else if b < 32 && b != 8 && b != 9 && b != 10 && b != 12 && b != 13 then ControlItem(b)
    else if b == 127 then ControlItem(b)
    else Simple(Escape(b)[1])
  }

  function ControlItem(b: Byte): (i: Item)
    requires (b < 32 && b != 8 && b != 9 && b != 10 && b != 12 && b != 13) || b == 127
    ensures ItemOk(i) && Text(i) == Escape(b) && Meaning(i) == [b]
  {
    HexBack(b / 16);
    HexBack(b % 16);
    HexBack(0);
    Unit([48, 48, HexDigit(b / 16), HexDigit(b % 16)])
  }

  lemma HexBack(n: nat)
    requires n < 16
    ensures HexValue(HexDigit(n)) == n && HexDigit(0) == 48
  {
  }

  function ItemsOf(s: seq<Byte>): (items: seq<Item>)
    ensures ItemsOk(items)
  {
    if s == [] then [] else [ItemOf(s[0])] + ItemsOf(s[1..])
  }

  lemma {:induction false} ItemsOfString(s: seq<Byte>)
    ensures Texts(ItemsOf(s)) == Body(s) && Meanings(ItemsOf(s)) == s
  {
    hide ItemOf, Text, Meaning, ItemOk, WrittenAs, Escape;
    if s != [] {
      hide Body;
      ItemsOfString(s[1..]);
      BodyCons(s);
      var i, rest := ItemOf(s[0]), ItemsOf(s[1..]);
      WrittenItem(s[0]);
      assert ItemsOf(s) == [i] + rest;
      ConsItems(i, rest);
    }
  }

  lemma ConsItems(i: Item, rest: seq<Item>)
    requires ItemOk(i) && ItemsOk(rest)
    ensures ItemsOk([i] + rest) && Texts([i] + rest) == Text(i) + Texts(rest)
    ensures Meanings([i] + rest) == Meaning(i) + Meanings(rest)
  {
    hide Text, Meaning, ItemOk;
    assert ([i] + rest)[1..] == rest;
  }

  lemma WrittenItem(b: Byte)
    ensures ItemOk(ItemOf(b)) && Text(ItemOf(b)) == WrittenAs(b) && Meaning(ItemOf(b)) == [b]
  {
  }

  lemma {:induction false} BodyCons(s: seq<Byte>)
    requires s != []
    ensures Body(s) == WrittenAs(s[0]) + Body(s[1..])
  {
    hide WrittenAs, Escape;
    var n := |s| - 1;
    if n == 0 {
      assert Body(s[..0]) == [];
    } else {
      var t := s[..n];
      BodyCons(t);
      assert t[1..] == s[1..][..n - 1] && t[0] == s[0] && s[1..][n - 1] == s[n];
      assert Body(s) == Body(t) + WrittenAs(s[n]);
      assert Body(s[1..]) == Body(t[1..]) + WrittenAs(s[n]);
    }
  }

  /** Decoding the encoding of any bytes gives them back, whatever follows. */
  lemma RoundTrip(s: seq<Byte>, rest: seq<Byte>)
    ensures Scan(Encoded(s)[1..] + rest) == Some((s, |Encoded(s)| - 1))
  {
    hide Scan, Texts, Meanings, ItemsOk, Body, ItemsOf;
    ItemsOfString(s);
    ScanItems(ItemsOf(s), rest);
    assert Encoded(s)[1..] == Body(s) + [QUOTE];
  }

  // ---- Unicode escapes ------------------------------------------------------------------------------

  /** Four digits of either case spelling a number, as the escapes are to have them. */
  predicate Spells(h: seq<Byte>, v: nat) {
    IsHex4(h) && Hex4(h) == v
  }

  /** Every character, written as one escape or as a surrogate pair, is read as its
      UTF-8 form. */
  lemma UnicodeEscape(cp: nat, h: seq<Byte>, l: seq<Byte>)
    requires U.Scalar(cp)
    requires if cp < 0x1_0000 then Spells(h, cp)
             else Spells(h, 0xD800 + (cp - 0x1_0000) / 0x400) && Spells(l, 0xDC00 + (cp - 0x1_0000) % 0x400)
    ensures var i := if cp < 0x1_0000 then Unit(h) else Pair(h, l);
      ItemOk(i) && Meaning(i) == U.Encode(cp) && U.Decode(Meaning(i)) == cp
  {
    hide HexValue;
    U.EncodeIsUtf8(cp);
  }
}
