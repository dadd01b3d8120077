/** The string writer and reader of luaclib-src/cjson/lua_cjson.c, working on the string
    buffers of luaclib-src/cjson/strbuf.c, which are sized once beforehand and then written
    to without checks. Sizes are 32-bit integers; when they stay in range the writes stay
    inside. */
module JsonCodec {
  import opened Basics
  import opened JsonString
  import opened Modular
  import opened StrbufGrowth
  import Words
  import U = Utf8

  /** The length json_append_string asks for: (int)len * 6 + 2. */
  function Request(len: nat): (r: int)
    ensures -INT_LIMIT <= r < INT_LIMIT
  {
    Int32(Int32(Int32(len) * 6) + 2)
  }

  /** The longest string for which that is a length: (2^31 - 3) / 6. */
  const LONGEST: nat := 357913940

  /** The one sizing before a string is written covers the worst case, six characters a
      byte and two quotes, exactly for strings of at most 357913940 bytes. */
  lemma RequestCovers(len: nat)
    requires len < INT_LIMIT
    ensures Request(len) >= 6 * len + 2 <==> len <= LONGEST
    ensures len <= LONGEST ==> Request(len) == 6 * len + 2
  {
  }

  /** With one byte more nothing is asked for at all. A string of that many letters "a"
      is then written outside any buffer it does not happen to fit in. */
  lemma RequestTooLong()
    ensures Request(LONGEST + 1) == -INT_LIMIT
    ensures AllPlain(seq(LONGEST + 1, _ => 97))
  {
  }

  /** strbuf_t. One byte is always left for a final NUL. */
  class StrBuf {
    var buf: array<Byte>
    var length: nat

    ghost predicate Valid()
      reads this
    {
      length < buf.Length < INT_LIMIT
    }

    ghost function Contents(): seq<Byte>
      requires Valid()
      reads this, buf
    {
      buf[..length]
    }

    /** strbuf_new, for a length that is not zero. */
    constructor (len: nat)
      requires len + 1 < INT_LIMIT
      ensures Valid() && fresh(buf) && Contents() == [] && buf.Length == len + 1
    {
      buf := new Byte[len + 1](_ => 0);
      length := 0;
    }

    function EmptyLength(): int
      reads this
    {
      buf.Length - length - 1
    }

    /** calculate_new_size, with the exponential growth that is the default: the first
        doubling of the size, as an int, that is enough. When none is, the loop is never
        left; 32 doublings show that. */
    method CalculateNewSize(len: int) returns (newsize: int, r: Outcome)
      requires Valid() && -INT_LIMIT <= len < INT_LIMIT
      ensures var req := Int32(len + 1);
        && r == (if len <= 0 then Exits else if buf.Length <= req && NeverReached(buf.Length, req) then Endless else Done)
        && (r == Done ==> if buf.Length > req then newsize == req else FirstReached(buf.Length, req, newsize))
    {
      hide Int32, Doubled;
      if len <= 0 {
        return 0, Exits;
      }
      NextInt32(len);
      var reqsize := Int32(len + 1);
      if buf.Length > reqsize {
        return reqsize, Done;
      }
      newsize := buf.Length;
      DoubledNext(buf.Length, 0);
      var i: nat := 0;
      while newsize < reqsize && i < 32
        invariant 0 <= i <= 32 && newsize == Doubled(buf.Length, i)
        invariant forall k: nat :: k < i ==> Doubled(buf.Length, k) < reqsize
        decreases 32 - i
      {
        DoubledNext(buf.Length, i);
        newsize := Int32(2 * newsize);
        i := i + 1;
      }
      if newsize < reqsize {
        NotReached(buf.Length, reqsize);
        return newsize, Endless;
      }
      r := Done;
    }

    /** strbuf_resize. A size that is not positive is too much for realloc. */
    method Resize(len: int) returns (r: Outcome)
      requires Valid() && -INT_LIMIT <= len < INT_LIMIT && (len > 0 ==> len >= length)
      modifies this`buf
      ensures Valid() && Contents() == old(Contents()) && (buf == old(buf) || fresh(buf))
      ensures r == Growth(old(buf.Length), len)
      ensures if r == Done then buf.Length > len > 0 else buf == old(buf) && (len <= 0 || len >= 0x4000_0000)
    {
      hide Int32, Doubled, NeverReached;
      NextInt32(len);
      if 0 < len < 0x4000_0000 {
        SmallReached(buf.Length, len + 1);
      }
      var newsize;
      newsize, r := CalculateNewSize(len);
      if r != Done {
        return;
      }
      if newsize <= 0 {
        return Exits;
      }
      var was := buf;
      var b := new Byte[newsize](_ => 0);
      forall i | 0 <= i < length {
        b[i] := was[i];
      }
      buf := b;
    }

    method EnsureEmptyLength(len: int) returns (r: Outcome)
      requires Valid() && -INT_LIMIT <= len < INT_LIMIT
      modifies this`buf
      ensures Valid() && Contents() == old(Contents()) && (buf == old(buf) || fresh(buf))
      ensures r == if len <= old(EmptyLength()) then Done else Growth(old(buf.Length), Int32(length + len))
      ensures r == Done ==> EmptyLength() >= len
      ensures EmptyLength() >= old(EmptyLength())
      ensures len <= old(EmptyLength()) ==> buf == old(buf)
      ensures r != Done ==> length + len >= 0x4000_0000
    {
      hide Int32, Growth;
      r := Done;
      if len > EmptyLength() {
        SumInt32(length, len);
        r := Resize(Int32(length + len));
      }
    }

    /** strbuf_append_char_unsafe: no check is made, so there must be room. */
    method AppendCharUnsafe(c: Byte)
      requires Valid() && EmptyLength() >= 1
      modifies this`length, buf
      ensures Valid() && Contents() == old(Contents()) + [c]
    {
      buf[length] := c;
      length := length + 1;
    }

    method AppendMemUnsafe(s: seq<Byte>)
      requires Valid() && EmptyLength() >= |s|
      modifies this`length, buf
      ensures Valid() && Contents() == old(Contents()) + s
    {
      forall i | 0 <= i < |s| {
        buf[length + i] := s[i];
      }
      length := length + |s|;
    }

    /** strbuf_append_string, which checks; with room for all it never resizes. */
    method AppendString(s: seq<Byte>) returns (r: Outcome)
      requires Valid()
      modifies this, buf
      ensures Valid() && (buf == old(buf) || (fresh(buf) && old(EmptyLength()) < |s|))
      ensures r == Done ==> Contents() == old(Contents()) + s && EmptyLength() >= old(EmptyLength()) - |s|
      ensures old(EmptyLength()) >= |s| ==> r == Done
      ensures r != Outside && (r != Done ==> old(length) + |s| >= 0x4000_0000)
    {
      hide Int32, Growth;
      var space := EmptyLength();
      var i := 0;
      while i < |s|
        invariant 0 <= i <= |s| && Valid() && space == EmptyLength() >= old(EmptyLength()) - i
        invariant Contents() == old(Contents()) + s[..i]
        invariant if buf == old(buf) then space == old(EmptyLength()) - i else fresh(buf) && old(EmptyLength()) < |s|
      {
        if space < 1 {
          NextInt32(length);
          r := Resize(Int32(length + 1));
          if r != Done {
            return;
          }
          space := EmptyLength();
        }
        AppendCharUnsafe(s[i]);
        assert s[..i + 1] == s[..i] + [s[i]];
        space := space - 1;
        i := i + 1;
      }
      r := Done;
    }
  }

  lemma NextInt32(x: int)
    requires -INT_LIMIT <= x < INT_LIMIT
    ensures Int32(x + 1) == if x + 1 == INT_LIMIT then -INT_LIMIT else x + 1
  {
  }

  lemma SumInt32(x: int, y: int)
    requires 0 < x + y < 2 * INT_LIMIT
    ensures Int32(x + y) == if x + y < INT_LIMIT then x + y else x + y - 2 * INT_LIMIT
  {
  }

  lemma BodyNext(s: seq<Byte>, i: nat)
    requires i < |s|
    ensures Body(s[..i + 1]) == Body(s[..i]) + WrittenAs(s[i])
    ensures |Body(s[..i + 1])| <= |Body(s)|
  {
    assert s[..i + 1][..i] == s[..i];
    BodyGrows(s, i + 1);
  }

  /** The text written so far, with one more byte. */
  lemma TextNext(before: seq<Byte>, s: seq<Byte>, i: nat)
    requires i < |s|
    ensures before + Body(s[..i]) + WrittenAs(s[i]) == before + Body(s[..i + 1])
    ensures |Body(s[..i + 1])| == |Body(s[..i])| + |WrittenAs(s[i])| <= |Body(s)|
    ensures |WrittenAs(s[i])| <= 6 && (Escape(s[i]) == [] <==> |WrittenAs(s[i])| == 1)
  {
    hide Body, WrittenAs;
    BodyNext(s, i);
    Written(s[i]);
  }

  lemma TextDone(before: seq<Byte>, s: seq<Byte>)
    ensures before + [QUOTE] + Body(s) + [QUOTE] == before + Encoded(s)
    ensures |Encoded(s)| == |Body(s)| + 2
  {
    hide Body;
  }

  lemma {:induction false} BodyGrows(s: seq<Byte>, i: nat)
    requires i <= |s|
    ensures |Body(s[..i])| <= |Body(s)|
    decreases |s|
  {
    if i < |s| {
      var t := s[..|s| - 1];
      BodyGrows(t, i);
      assert t[..i] == s[..i];
    } else {
      assert s[..i] == s;
    }
  }

  /** No byte of the string is escaped, so every append is an unchecked one. */
  predicate AllPlain(s: seq<Byte>) {
    forall i :: 0 <= i < |s| ==> Escape(s[i]) == []
  }

  /** What the loop of json_append_string does with one byte. */
  method AppendJsonByte(json: StrBuf, c: Byte) returns (r: Outcome)
    requires json.Valid()
    modifies json, json.buf
    ensures json.Valid() && (json.buf == old(json.buf) || fresh(json.buf))
    ensures r == Done ==>
      && json.Contents() == old(json.Contents()) + WrittenAs(c)
      && json.EmptyLength() >= old(json.EmptyLength()) - |WrittenAs(c)|
    ensures old(json.EmptyLength()) >= |WrittenAs(c)| || (Escape(c) == [] && r == Done) ==> r == Done && json.buf == old(json.buf)
    ensures r == Outside ==> Escape(c) == [] && old(json.EmptyLength()) < 1
    ensures r == Exits || r == Endless ==> Escape(c) != [] && old(json.length) + 6 >= 0x4000_0000
  {
    hide WrittenAs, Escape;
    Written(c);
    var escstr := Escape(c);
    if escstr != [] {
      r := json.AppendString(escstr);
      return;
    }
    if json.EmptyLength() < 1 {
      return Outside;
    }
    json.AppendCharUnsafe(c);
    r := Done;
  }

  /** json_append_string. Up to 357913940 bytes the buffer is not reallocated after the one
      sizing at the start, and nothing is written outside it. Beyond that the sizing is
      short or left out, and a string of plain bytes that does not fit by chance is
      written outside. */
  method AppendJsonString(json: StrBuf, str: seq<Byte>) returns (r: Outcome)
    requires json.Valid() && |str| < INT_LIMIT
    modifies json, json.buf
    ensures json.Valid() && (json.buf == old(json.buf) || fresh(json.buf))
    ensures r == Done ==> json.Contents() == old(json.Contents()) + Encoded(str)
    ensures r == Outside ==> |str| > LONGEST && old(json.EmptyLength()) < |Encoded(str)|
    ensures |str| <= LONGEST ==>
      r == if 6 * |str| + 2 <= old(json.EmptyLength()) then Done
           else Growth(old(json.buf.Length), Int32(old(json.length) + 6 * |str| + 2))
    ensures r == Exits || r == Endless ==> old(json.length) + 6 * |str| + 2 >= 0x4000_0000
    ensures |str| > LONGEST && AllPlain(str) && Request(|str|) <= old(json.EmptyLength()) ==>
      (r == Outside <==> old(json.EmptyLength()) < |str| + 2)
  {
    hide Body, Encoded, WrittenAs, Escape, Int32, Request, Growth;
    ghost var before, space := json.Contents(), json.EmptyLength();
    RequestCovers(|str|);
    TextDone(before, str);
    r := json.EnsureEmptyLength(Request(|str|));
    if r != Done {
      return;
    }
    if json.EmptyLength() < 1 {
      return Outside;
    }
    json.AppendCharUnsafe(QUOTE);
    r := AppendJsonBody(json, str);
    if r != Done {
      return;
    }
    if json.EmptyLength() < 1 {
      return Outside;
    }
    json.AppendCharUnsafe(QUOTE);
    r := Done;
  }

  /** Its loop over the bytes. */
  method AppendJsonBody(json: StrBuf, str: seq<Byte>) returns (r: Outcome)
    requires json.Valid()
    modifies json, json.buf
    ensures json.Valid() && (json.buf == old(json.buf) || fresh(json.buf))
    ensures r == Done ==>
      json.Contents() == old(json.Contents()) + Body(str) && json.EmptyLength() >= old(json.EmptyLength()) - |Body(str)|
    ensures old(json.EmptyLength()) >= 6 * |str| ==> r == Done
    ensures r == Outside ==> old(json.EmptyLength()) < |Body(str)|
    ensures r == Exits || r == Endless ==> old(json.length) + 6 * |str| >= 0x4000_0000
    ensures AllPlain(str) ==> |Body(str)| == |str| && (r == Done || r == Outside)
    ensures AllPlain(str) && r == Done ==> json.EmptyLength() == old(json.EmptyLength()) - |str|
  {
    hide Body, WrittenAs, Escape;
    ghost var before, space := json.Contents(), json.EmptyLength();
    NoText();
    assert str[..0] == [];
    var i := 0;
    while i < |str|
      invariant 0 <= i <= |str| && json.Valid() && (json.buf == old(json.buf) || fresh(json.buf))
      invariant json.Contents() == before + Body(str[..i])
      invariant json.EmptyLength() >= space - |Body(str[..i])| && |Body(str[..i])| <= 6 * i
      invariant AllPlain(str) ==> |Body(str[..i])| == i && json.EmptyLength() == space - i
    {
      TextNext(before, str, i);
      r := AppendJsonByte(json, str[i]);
      if r != Done {
        PlainBody(str);
        return;
      }
      i := i + 1;
    }
    assert str[..i] == str;
    r := Done;
  }

  lemma NoText()
    ensures Body([]) == []
  {
  }

  lemma {:induction false} PlainBody(s: seq<Byte>)
    ensures AllPlain(s) ==> |Body(s)| == |s|
  {
    if s != [] {
      PlainBody(s[..|s| - 1]);
    }
  }

  lemma Written(b: Byte)
    ensures WrittenAs(b) == if Escape(b) == [] then [b] else Escape(b)
    ensures |Escape(b)| <= 6
  {
  }

  // ---- Reading ---------------------------------------------------------------------------------

  /** Reading at `p` what was to be read at `start`, `done` being what came before. */
  ghost predicate Reading(data: seq<Byte>, start: nat, p: nat, done: seq<Byte>) {
    && start <= p <= |data|
    && var whole, rest := Scan(data[start..]), Scan(data[p..]);
       if rest.None? then whole == None
       else whole.Some? && whole.value.0 == done + rest.value.0 && whole.value.1 == p - start + rest.value.1
  }

  lemma ReadItem(data: seq<Byte>, start: nat, p: nat, done: seq<Byte>)
    requires Reading(data, start, p, done) && (p < |data| ==> data[p] != QUOTE)
    ensures var i := FirstItem(data[p..]);
      if i.None? then Scan(data[start..]) == None
      else
        && p + |Text(i.value)| <= |data|
        && Reading(data, start, p + |Text(i.value)|, done + Meaning(i.value))
        && |Meaning(i.value)| <= |Text(i.value)|
        && |Text(i.value)| > 0
  {
    hide FirstItem, Text, Meaning, ItemOk;
    var i := FirstItem(data[p..]);
    if i.Some? {
      var n := |Text(i.value)|;
      MeaningShorter(i.value);
      assert data[p..][n..] == data[p + n..];
    }
  }

  lemma ReadEnd(data: seq<Byte>, start: nat, p: nat, done: seq<Byte>)
    requires Reading(data, start, p, done)
    ensures p == |data| || data[p] == 0 ==> Scan(data[start..]) == None
    ensures p < |data| && data[p] == QUOTE ==>
      var r := Scan(data[start..]); r.Some? && r.value.0 == done && r.value.1 == p + 1 - start
  {
  }

  /** json_parse_t: the text, which Lua keeps followed by a NUL, and the buffer for
      decoded strings, as large as the text. */
  class Parser {
    const data: seq<Byte>
    const tmp: StrBuf
    var ptr: nat

    constructor (data: seq<Byte>)
      requires |data| + 1 < INT_LIMIT
      ensures Valid() && fresh(tmp) && fresh(tmp.buf) && this.data == data && ptr == 0
    {
      this.data := data;
      ptr := 0;
      tmp := new StrBuf(|data|);
    }

    ghost predicate Valid()
      reads this, tmp
    {
      ptr <= |data| && tmp.Valid() && tmp.buf.Length == |data| + 1
    }

    /** The character at `p`; nothing is read beyond the final NUL. */
    function At(p: nat): Byte
      requires p <= |data|
    {
      if p == |data| then 0 else data[p]
    }

    /** decode_hex4. */
    method DecodeHex4(p: nat) returns (v: int)
      requires p <= |data|
      ensures v == if p + 4 <= |data| && IsHex4(data[p..p + 4]) then Hex4(data[p..p + 4]) else -1
    {
      hide HexValue;
      NulIsNoDigit();
      var digit: seq<int> := [];
      for i := 0 to 4
        invariant p + i <= |data| && |digit| == i
        invariant forall k :: 0 <= k < i ==> digit[k] == HexValue(data[p + k]) >= 0
      {
        var d := HexValue(At(p + i));
        if d < 0 {
          assert p + 4 <= |data| ==> data[p..p + 4][i] == data[p + i];
          return -1;
        }
        digit := digit + [d];
      }
      var h := data[p..p + 4];
      assert h[0] == data[p] && h[1] == data[p + 1] && h[2] == data[p + 2] && h[3] == data[p + 3];
      v := digit[0] * 0x1000 + digit[1] * 0x100 + digit[2] * 0x10 + digit[3];
    }

    /** json_append_unicode_escape, with room for as many bytes as it may consume. */
    method AppendUnicodeEscape() returns (ok: bool)
      requires Valid() && ptr + 2 <= |data| && data[ptr] == BACKSLASH && data[ptr + 1] == LOWER_U
      requires tmp.EmptyLength() >= |data| - ptr
      modifies this`ptr, tmp`length, tmp.buf
      ensures Valid() && ok == FirstItem(old(data[ptr..])).Some?
      ensures ok ==>
        var i := FirstItem(old(data[ptr..])).value;
        ptr == old(ptr) + |Text(i)| && tmp.Contents() == old(tmp.Contents()) + Meaning(i)
    {
      hide HexValue, Hex4, IsHex4, U.Encode;
      ghost var u := data[ptr..];
      assert FirstItem(u) == Escaped(u);
      var escapeLen := 6;
      var codepoint := DecodeHex4(ptr + 2);
      if codepoint < 0 {
        assert |u| >= 6 ==> u[2..6] == data[ptr + 2..ptr + 6];
        return false;
      }
      assert u[2..6] == data[ptr + 2..ptr + 6];
      if codepoint / 0x800 == 0x1B {
        if codepoint / 0x400 % 2 == 1 {
          return false;
        }
        if At(ptr + escapeLen) != BACKSLASH || At(ptr + escapeLen + 1) != LOWER_U {
          return false;
        }
        var surrogateLow := DecodeHex4(ptr + 2 + escapeLen);
        assert |u| >= 12 ==> u[8..12] == data[ptr + 8..ptr + 12];
        if surrogateLow < 0 {
          return false;
        }
        if surrogateLow / 0x400 != 0x37 {
          return false;
        }
        codepoint := codepoint % 0x400 * 0x400 + surrogateLow % 0x400 + 0x1_0000;
        escapeLen := 12;
      }
      var utf8 := U.Encode(codepoint);
      if utf8 == [] {
        assert false;
      }
      MeaningShorter(FirstItem(u).value);
      tmp.AppendMemUnsafe(utf8);
      ptr := ptr + escapeLen;
      ok := true;
    }

    /** One round of the loop of json_next_string_token. */
    method ReadOne() returns (ok: bool)
      requires Valid() && ptr <= |data| && At(ptr) != QUOTE && tmp.EmptyLength() >= |data| - ptr
      modifies this`ptr, tmp`length, tmp.buf
      ensures Valid() && ok == FirstItem(old(data[ptr..])).Some?
      ensures ok ==>
        var i := FirstItem(old(data[ptr..])).value;
        ptr == old(ptr) + |Text(i)| && tmp.Contents() == old(tmp.Contents()) + Meaning(i)
    {
      hide Meaning, Text, FirstItem, Unescape;
      var ch := At(ptr);
      if ch == 0 {
        NoItem(data, ptr);
        return false;
      }
      ItemAt(data, ptr);
      if ch == BACKSLASH {
        ch := Unescape(At(ptr + 1));
        if ch == LOWER_U {
          ok := AppendUnicodeEscape();
          return;
        }
        if ch == 0 {
          return false;
        }
        ptr := ptr + 1;
      }
      tmp.AppendCharUnsafe(ch);
      ptr := ptr + 1;
      ok := true;
    }

    /** json_next_string_token. */
    method NextStringToken() returns (ok: bool)
      requires Valid() && ptr < |data| && data[ptr] == QUOTE
      modifies this`ptr, tmp`length, tmp.buf
      ensures Valid()
      ensures ok == Scan(old(data[ptr + 1..])).Some?
      ensures ok ==>
        var r := Scan(old(data[ptr + 1..])).value; tmp.Contents() == r.0 && ptr == old(ptr) + 1 + r.1
    {
      hide Scan, Meaning, Text, FirstItem, Reading;
      ptr := ptr + 1;
      ghost var start: nat := ptr;
      tmp.length := 0;
      StartReading(data, start);
      ok := true;
      while ok && At(ptr) != QUOTE
        invariant Valid() && (ok ==> Reading(data, start, ptr, tmp.Contents()) && tmp.length < ptr)
        invariant !ok ==> Scan(data[start..]) == None
        decreases ok, |data| - ptr
      {
        ReadEnd(data, start, ptr, tmp.Contents());
        ReadItem(data, start, ptr, tmp.Contents());
        ok := ReadOne();
      }
      if ok {
        ReadEnd(data, start, ptr, tmp.Contents());
        ptr := ptr + 1;
        tmp.buf[tmp.length] := 0;
      }
    }
  }

  lemma NoItem(data: seq<Byte>, p: nat)
    requires p <= |data| && (p == |data| || data[p] == 0)
    ensures FirstItem(data[p..]) == None
  {
  }

  lemma NulIsNoDigit()
    ensures HexValue(0) == -1
  {
  }

  lemma StartReading(data: seq<Byte>, start: nat)
    requires start <= |data|
    ensures Reading(data, start, start, [])
  {
    assert forall s: seq<Byte> :: [] + s == s;
  }

  /** The single-character items, as the loop tells them apart. */
  lemma ItemAt(data: seq<Byte>, p: nat)
    requires p < |data| && data[p] != QUOTE && data[p] != 0
    ensures var u := data[p..];
      && (data[p] != BACKSLASH ==> FirstItem(u) == Some(Plain(data[p])))
      && (data[p] == BACKSLASH ==>
          var c := if p + 1 < |data| then data[p + 1] else 0;
          && (Unescape(c) == LOWER_U ==> p + 1 < |data| && c == LOWER_U)
          && (Unescape(c) == 0 ==> FirstItem(u) == None)
          && (Unescape(c) != 0 && Unescape(c) != LOWER_U ==> FirstItem(u) == Some(Simple(c))))
    ensures forall b: Byte :: Text(Plain(b)) == [b] && Text(Simple(b)) == [BACKSLASH, b]
    ensures forall b: Byte :: ItemOk(Plain(b)) ==> Meaning(Plain(b)) == [b]
    ensures forall b: Byte :: ItemOk(Simple(b)) ==> Meaning(Simple(b)) == [Unescape(b)]
  {
    hide Hex4, HexValue;
  }
}
