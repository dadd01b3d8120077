/** Writing the protobuf wire format: pb_Buffer of luaclib-src/pb/pb.h, with
    length prefixes filled in after the body has been written. */
module WireBuffer {
  import opened Basics
  import opened Varint
  import S = WireSlice

  const SSO_SIZE: nat := 16
  const MAX_SIZE: nat := 4294967195

  /** The size of a buffer has 31 bits. */
  const SIZE_LIMIT: nat := 0x8000_0000

  lemma EncodeStep(n: nat)
    ensures n < 128 ==> Encode(n) == [n]
    ensures n >= 128 ==> Encode(n) == [n % 128 + 128] + Encode(n / 128)
  {
  }

  /** An unrolled writer has written `out` of `n`, and still has `m` to write. */
  ghost predicate Writing(out: seq<Byte>, n: nat, m: nat) {
    Encode(n) == out + Encode(m)
  }

  function Low7(m: nat): (r: Byte)
    ensures r < 128
  {
    m % 128
  }

  function Shr7(m: nat): (r: nat)
    ensures 128 * r <= m
  {
    m / 128
  }

  lemma StartWriting(n: nat)
    ensures Writing([], n, n)
  {
  }

  /** One line of an unrolled writer. */
  lemma Line(out: seq<Byte>, n: nat, m: nat)
    requires Writing(out, n, m)
    ensures if Shr7(m) == 0 then Writing(out, n, Low7(m)) && Low7(m) == m
            else Writing(out + [Low7(m) + 128], n, Shr7(m))
  {
    EncodeStep(m);
  }

  lemma FinishWriting(out: seq<Byte>, n: nat, p: nat)
    requires Writing(out, n, p) && p < 128
    ensures out + [p] == Encode(n)
  {
    EncodeStep(p);
  }

  method Write32(n: nat) returns (out: seq<Byte>)
    requires n < U32
    ensures out == Encode(n) && |out| <= 5
  {
    hide Encode, Writing, Low7, Shr7;
    var m: nat, p: Byte := n, 0;
    out := [];
    StartWriting(n);
    label Unrolled: {
      Line(out, n, m);
      p := Low7(m); m := Shr7(m); if m == 0 { break Unrolled; } out := out + [p + 128];
      Line(out, n, m);
      p := Low7(m); m := Shr7(m); if m == 0 { break Unrolled; } out := out + [p + 128];
      Line(out, n, m);
      p := Low7(m); m := Shr7(m); if m == 0 { break Unrolled; } out := out + [p + 128];
      Line(out, n, m);
      p := Low7(m); m := Shr7(m); if m == 0 { break Unrolled; } out := out + [p + 128];
      p := m;
    }
    FinishWriting(out, n, p);
    out := out + [p];
  }

  method Write64(n: nat) returns (out: seq<Byte>)
    requires n < U64
    ensures out == Encode(n) && |out| <= 10
  {
    hide Encode, Writing, Low7, Shr7;
    var m: nat, p: Byte := n, 0;
    out := [];
    StartWriting(n);
    label Unrolled: {
      Line(out, n, m);
      p := Low7(m); m := Shr7(m); if m == 0 { break Unrolled; } out := out + [p + 128];
      Line(out, n, m);
      p := Low7(m); m := Shr7(m); if m == 0 { break Unrolled; } out := out + [p + 128];
      Line(out, n, m);
      p := Low7(m); m := Shr7(m); if m == 0 { break Unrolled; } out := out + [p + 128];
      Line(out, n, m);
      p := Low7(m); m := Shr7(m); if m == 0 { break Unrolled; } out := out + [p + 128];
      Line(out, n, m);
      p := Low7(m); m := Shr7(m); if m == 0 { break Unrolled; } out := out + [p + 128];
      Line(out, n, m);
      p := Low7(m); m := Shr7(m); if m == 0 { break Unrolled; } out := out + [p + 128];
      Line(out, n, m);
      p := Low7(m); m := Shr7(m); if m == 0 { break Unrolled; } out := out + [p + 128];
      Line(out, n, m);
      p := Low7(m); m := Shr7(m); if m == 0 { break Unrolled; } out := out + [p + 128];
      Line(out, n, m);
      p := Low7(m); m := Shr7(m); if m == 0 { break Unrolled; } out := out + [p + 128];
      Line(out, n, m);
      p := Low7(m);
    }
    FinishWriting(out, n, p);
    out := out + [p];
  }

  /** `c` with `ins` in place of the `cut` bytes at `at`. */
  function Replaced(c: seq<Byte>, at: nat, cut: nat, ins: seq<Byte>): (r: seq<Byte>)
    requires at + cut <= |c|
    ensures |r| == |c| - cut + |ins|
  {
    c[..at] + ins + c[at + cut..]
  }

  function Moved(c: seq<Byte>, to: nat, from: nat, n: nat): (r: seq<Byte>)
    requires to + n <= |c| && from + n <= |c|
    ensures |r| == |c|
  {
    c[..to] + c[from..from + n] + c[to + n..]
  }

  /** memcpy to a place in the buffer. */
  method CopyIn(buff: array<Byte>, at: nat, bytes: seq<Byte>)
    requires at + |bytes| <= buff.Length
    modifies buff
    ensures buff[..] == Replaced(old(buff[..]), at, |bytes|, bytes)
  {
    forall i | 0 <= i < |bytes| {
      buff[at + i] := bytes[i];
    }
  }

  /** memmove within the buffer, whose two stretches may overlap. */
  method MoveWithin(buff: array<Byte>, to: nat, from: nat, n: nat)
    requires to + n <= buff.Length && from + n <= buff.Length
    modifies buff
    ensures buff[..] == Moved(old(buff[..]), to, from, n)
  {
    forall i | 0 <= i < n {
      buff[to + i] := buff[from + i];
    }
  }

  lemma Shifted(was: seq<Byte>, size: nat, at: nat, cut: nat, ins: seq<Byte>)
    requires at + cut <= size && cut <= |ins| && size + |ins| - cut <= |was|
    ensures var moved := if |ins| > cut then Moved(was, at + |ins|, at + cut, size - at - cut) else was;
      Replaced(moved, at, |ins|, ins)[..size + |ins| - cut] == Replaced(was[..size], at, cut, ins)
  {
    hide Replaced, Moved;
    var ml := |ins|;
    var moved := if ml > cut then Moved(was, at + ml, at + cut, size - at - cut) else was;
    var now := Replaced(moved, at, ml, ins);
    var goal := Replaced(was[..size], at, cut, ins);
    forall i | 0 <= i < |goal| ensures now[i] == goal[i] {
      ReplacedAt(moved, at, ml, ins, i);
      ReplacedAt(was[..size], at, cut, ins, i);
      if ml > cut {
        MovedAt(was, at + ml, at + cut, size - at - cut, i);
      }
    }
    assert now[..|goal|] == goal;
  }

  lemma Appended(was: seq<Byte>, size: nat, bytes: seq<Byte>)
    requires size + |bytes| <= |was|
    ensures Replaced(was, size, |bytes|, bytes)[..size + |bytes|] == was[..size] + bytes
  {
  }

  lemma ReplacedAt(c: seq<Byte>, at: nat, cut: nat, ins: seq<Byte>, i: nat)
    requires at + cut <= |c| && i < |c| - cut + |ins|
    ensures Replaced(c, at, cut, ins)[i] ==
      if i < at then c[i] else if i < at + |ins| then ins[i - at] else c[i - |ins| + cut]
  {
  }

  lemma MovedAt(c: seq<Byte>, to: nat, from: nat, n: nat, i: nat)
    requires to + n <= |c| && from + n <= |c| && i < |c|
    ensures Moved(c, to, from, n)[i] == if to <= i < to + n then c[i - to + from] else c[i]
  {
  }

  /** pb_Buffer. A small buffer lives in the structure itself; here both kinds are
      an array, and the size of the small one is the initial capacity. */
  class Buffer {
    var buff: array<Byte>
    var size: nat

    ghost predicate Valid()
      reads this
    {
      size <= buff.Length < U64 && size < SIZE_LIMIT
    }

    ghost function Contents(): seq<Byte>
      requires Valid()
      reads this, buff
    {
      buff[..size]
    }

    constructor ()
      ensures Valid() && fresh(buff) && Contents() == []
    {
      buff := new Byte[SSO_SIZE](i => 0);
      size := 0;
    }

    /** Makes room for `len` more bytes. */
    method PrepBuffSize(len: nat) returns (ok: bool)
      requires Valid()
      modifies this`buff
      ensures Valid() && Contents() == old(Contents()) && (buff == old(buff) || fresh(buff))
      ensures if ok then size + len <= buff.Length else size + len > MAX_SIZE / 2 && buff == old(buff)
    {
      if size + len > buff.Length {
        var expected := size + len;
        var newsize := SSO_SIZE;
        while newsize < MAX_SIZE / 2 && newsize < expected
          invariant SSO_SIZE <= newsize < MAX_SIZE
          decreases expected - newsize
        {
          newsize := newsize + newsize / 2;
        }
        if newsize < expected {
          return false;
        }
        var newp := new Byte[newsize](i => 0);
        forall i | 0 <= i < size {
          newp[i] := buff[i];
        }
        buff := newp;
      }
      return true;
    }

    /** pb_addsize, which drops what 31 bits cannot hold. */
    method AddSize(n: nat)
      requires Valid() && size + n <= buff.Length
      modifies this`size
      ensures Valid() && size == (old(size) + n) % SIZE_LIMIT
      ensures size == old(size) + n <==> old(size) + n < SIZE_LIMIT
      ensures size <= old(size) + n && Contents() == buff[..old(size) + n][..size]
    {
      size := (size + n) % SIZE_LIMIT;
    }

    /** pb_addslice. There is room for up to some three billion bytes, but the bytes are
        appended exactly when they end below 2^31; beyond that the size wraps. */
    method AddSlice(s: seq<Byte>) returns (n: nat)
      requires Valid()
      modifies this, buff
      ensures Valid() && (buff == old(buff) || fresh(buff))
      ensures n == |s| || n == 0
      ensures n < |s| ==> Contents() == old(Contents()) && old(size) + |s| > MAX_SIZE / 2
      ensures n == |s| ==>
        && size == (old(size) + n) % SIZE_LIMIT && Contents() == (old(Contents()) + s)[..size]
        && (Contents() == old(Contents()) + s <==> old(size) + |s| < 0x8000_0000)
    {
      var ok := PrepBuffSize(|s|);
      if !ok {
        return 0;
      }
      ghost var was := buff[..];
      CopyIn(buff, size, s);
      Appended(was, size, s);
      AddSize(|s|);
      return |s|;
    }

    /** pb_addvarint32 */
    method AddVarint32(v: nat) returns (n: nat)
      requires Valid() && v < U32
      modifies this, buff
      ensures Valid() && (buff == old(buff) || fresh(buff))
      ensures n == 0 ==> Contents() == old(Contents()) && old(size) + 5 > MAX_SIZE / 2
      ensures n > 0 ==>
        && n == |Encode(v)|
        && size == (old(size) + n) % SIZE_LIMIT && Contents() == (old(Contents()) + Encode(v))[..size]
        && (Contents() == old(Contents()) + Encode(v) <==> old(size) + n < SIZE_LIMIT)
    {
      hide Encode, Replaced;
      var ok := PrepBuffSize(5);
      if !ok {
        return 0;
      }
      ghost var was := buff[..];
      var bytes := Write32(v);
      CopyIn(buff, size, bytes);
      Appended(was, size, bytes);
      AddSize(|bytes|);
      return |bytes|;
    }

    /** Writes a prefix over the `prealloc` bytes at `s`, after moving what follows
        to where the prefix will end. */
    method InsertPrefix(s: nat, prealloc: nat, prefix: seq<Byte>)
      requires Valid() && s + prealloc <= size && prealloc <= |prefix|
      requires size + |prefix| - prealloc <= buff.Length
      modifies this`size, buff
      ensures Valid() && size == (old(size) + |prefix| - prealloc) % SIZE_LIMIT
      ensures Contents() == Replaced(old(Contents()), s, prealloc, prefix)[..size]
    {
      hide Replaced, Moved;
      ghost var was := buff[..];
      var ml := |prefix|;
      if ml > prealloc {
        MoveWithin(buff, s + ml, s + prealloc, size - s - prealloc);
      }
      CopyIn(buff, s, prefix);
      Shifted(was, size, s, prealloc, prefix);
      AddSize(ml - prealloc);
    }

    /** Puts the length of all that follows `len` in front of it, over the last
        `prealloc` bytes before `len`. */
    method AddLength(len: nat, prealloc: nat) returns (n: nat)
      requires Valid() && prealloc <= len
      requires len <= size ==> prealloc <= |Encode(size - len)|
      modifies this, buff
      ensures Valid() && (buff == old(buff) || fresh(buff))
      ensures n == 0 ==> Contents() == old(Contents()) && (len > size || size + 10 > MAX_SIZE / 2)
      ensures n > 0 ==> len <= old(size) && n == |Encode(old(size) - len)| + (old(size) - len)
      ensures n > 0 ==>
        var goal := Replaced(old(Contents()), len - prealloc, prealloc, Encode(old(size) - len));
        && size == |goal| % SIZE_LIMIT && Contents() == goal[..size] && |goal| <= old(size) - prealloc + 10
        && (Contents() == goal <==> |goal| < SIZE_LIMIT)
    {
      hide Encode, Replaced;
      var bl := size;
      if bl < len {
        return 0;
      }
      var prefix := Write64(bl - len);
      var ml := |prefix|;
      if ml > prealloc {
        var ok := PrepBuffSize(ml - prealloc);
        if !ok {
          return 0;
        }
      }
      InsertPrefix(len - prealloc, prealloc, prefix);
      return ml + (bl - len);
    }
  }

  // ---- Nested messages ------------------------------------------------------------------

  /** A message body: plain bytes, and length-delimited bodies within it. */
  datatype Body =
    | Nil
    | Plain(bytes: seq<Byte>, rest: Body)
    | Nested(body: Body, rest: Body)

  function Wire(b: Body): seq<Byte> {
    match b
    case Nil => []
    case Plain(bytes, rest) => bytes + Wire(rest)
    case Nested(body, rest) => Encode(|Wire(body)|) + Wire(body) + Wire(rest)
  }

  /** How writing a body ends. Once the size of the buffer has wrapped the code goes on
      from a wrong place without noticing; nothing is said about what it does then. */
  datatype Outcome = Done | NoRoom | Wrapped

  /** Writes a body the way the encoder does: an empty length first, which is filled
      in once the nested body has been written. */
  method Emit(b: Buffer, body: Body) returns (r: Outcome)
    requires b.Valid()
    modifies b, b.buff
    ensures b.Valid() && (b.buff == old(b.buff) || fresh(b.buff))
    ensures r == Done ==> b.Contents() == old(b.Contents()) + Wire(body)
    ensures r == NoRoom ==> old(b.size) + |Wire(body)| + 10 > MAX_SIZE / 2
    ensures r == Wrapped ==> old(b.size) + |Wire(body)| >= SIZE_LIMIT
    decreases body, 0
  {
    hide Wire, Encode, Replaced;
    ghost var before := b.Contents();
    WireParts(body);
    match body {
      case Nil =>
        r := Done;
      case Plain(bytes, rest) =>
        var bl := b.size;
        var n := b.AddSlice(bytes);
        if n < |bytes| {
          return NoRoom;
        }
        if b.size < bl + n {
          return Wrapped;
        }
        r := Emit(b, rest);
        assert r == Done ==> b.Contents() == before + (bytes + Wire(rest));
      case Nested(inner, rest) =>
        r := EmitNested(b, inner);
        if r == Done {
          r := Emit(b, rest);
          ghost var written := Encode(|Wire(inner)|) + Wire(inner);
          assert before + written + Wire(rest) == before + (written + Wire(rest));
        }
    }
  }

  method EmitNested(b: Buffer, inner: Body) returns (r: Outcome)
    requires b.Valid()
    modifies b, b.buff
    ensures b.Valid() && (b.buff == old(b.buff) || fresh(b.buff))
    ensures var written := Encode(|Wire(inner)|) + Wire(inner);
      && (r == Done ==> b.Contents() == old(b.Contents()) + written)
      && (r == NoRoom ==> old(b.size) + |written| + 10 > MAX_SIZE / 2)
      && (r == Wrapped ==> old(b.size) + |written| >= SIZE_LIMIT)
    decreases inner, 1
  {
    hide Wire, Encode, Replaced;
    ghost var before := b.Contents();
    Prefixed(before, Wire(inner), |before| + 1);
    var bl := b.size;
    var n := b.AddVarint32(0);
    if n == 0 {
      return NoRoom;
    }
    var len := b.size;
    if len < bl + n {
      return Wrapped;
    }
    assert b.Contents() == before + [0] && len == |before| + 1;
    r := Emit(b, inner);
    if r != Done {
      return;
    }
    assert b.Contents() == before + [0] + Wire(inner);
    var last := b.size;
    n := b.AddLength(len, 1);
    if n == 0 {
      return NoRoom;
    }
    if b.size < last {
      return Wrapped;
    }
  }

  lemma WireParts(b: Body)
    ensures match b
      case Nil => Wire(b) == []
      case Plain(bytes, rest) => Wire(b) == bytes + Wire(rest)
      case Nested(body, rest) => Wire(b) == Encode(|Wire(body)|) + Wire(body) + Wire(rest)
  {
  }

  lemma Prefixed(before: seq<Byte>, w: seq<Byte>, len: nat)
    requires len == |before| + 1
    ensures Encode(0) == [0] && |Encode(|w|)| > 0
    ensures Replaced(before + [0] + w, len - 1, 1, Encode(|w|)) == before + (Encode(|w|) + w)
  {
    EncodeStep(0);
    hide Encode;
    var c := before + [0] + w;
    assert c[..len - 1] == before && c[len..] == w;
  }

  /** Reading `u` along the shape of a body gives that body: its plain bytes stand
      where they should, and pb_readbytes delimits each nested body exactly. */
  ghost predicate ReadsAs(u: seq<Byte>, b: Body)
    decreases b
  {
    match b
    case Nil => u == []
    case Plain(bytes, rest) => bytes <= u && ReadsAs(u[|bytes|..], rest)
    case Nested(body, rest) =>
      var n, l := S.BytesExtent(u), Length(u);
      0 < n && l <= n && ReadsAs(u[l..n], body) && ReadsAs(u[n..], rest)
  }

  /** A body closed by its length is returned unchanged, whatever follows. */
  lemma ReadBack(w: seq<Byte>, tail: seq<Byte>)
    requires |w| < U64
    ensures var u := Encode(|w|) + w + tail;
      var n, l := S.BytesExtent(u), Length(u);
      0 < l <= n == |Encode(|w|) + w| && u[l..n] == w && u[n..] == tail
  {
    hide Encode, Length, Value64, Run;
    var u := Encode(|w|) + w + tail;
    assert u == Encode(|w|) + (w + tail);
    RoundTrip(|w|, w + tail);
  }

  /** Every body that was written is read back, at every depth of nesting. */
  lemma {:induction false} NestedReadBack(b: Body)
    requires |Wire(b)| < U64
    ensures ReadsAs(Wire(b), b)
  {
    match b
    case Nil =>
    case Plain(bytes, rest) =>
      NestedReadBack(rest);
      assert (bytes + Wire(rest))[|bytes|..] == Wire(rest);
    case Nested(body, rest) =>
      NestedReadBack(body);
      NestedReadBack(rest);
      ReadBack(Wire(body), Wire(rest));
  }
}
