/** Reading the protobuf wire format: pb_Slice and its readers in
    luaclib-src/pb/pb.h. The meaning of varints is in module Varint; here also
    stand the grammar of wire values, with their nested groups, and the proof that
    skipping a value consumes exactly one phrase of it. */
module WireSlice {
  import opened Basics
  import opened Modular
  import opened Varint
  import Words

  // ---- Skipping, as a function of the bytes that remain --------------------------------

  const WIRE_VARINT: nat := 0
  const WIRE_64BIT: nat := 1
  const WIRE_BYTES: nat := 2
  const WIRE_GSTART: nat := 3
  const WIRE_GEND: nat := 4
  const WIRE_32BIT: nat := 5

  /** The bytes of a length-delimited value, length prefix included; 0 for none. */
  function BytesExtent(u: seq<Byte>): (n: nat)
    ensures n <= |u|
  {
    var l := Length(u);
    if l == 0 || |u| - l < Value64(u) then 0 else l + Value64(u)
  }

  /** The bytes pb_skipvalue skips for a field tag; 0 when it fails. */
  function ValueExtent(u: seq<Byte>, tag: nat): (n: nat)
    ensures n <= |u|
    decreases |u|, 1
  {
    if tag % 8 == WIRE_VARINT then Run(u)
    else if tag % 8 == WIRE_64BIT then if |u| >= 8 then 8 else 0
    else if tag % 8 == WIRE_BYTES then BytesExtent(u)
    else if tag % 8 == WIRE_32BIT then if |u| >= 4 then 4 else 0
    else if tag % 8 == WIRE_GSTART then GroupExtent(u, tag).0
    else 0
  }

  /** A varint field is skipped just as its value would be read exactly when it has at
      most ten bytes, or no end. */
  lemma SkipsAsRead(u: seq<Byte>, tag: nat)
    requires tag % 8 == WIRE_VARINT
    ensures ValueExtent(u, tag) == Length(u) <==> Run(u) <= 10
  {
  }

  /** Eleven bytes: ten with the continuation bit, and a last one. */
  lemma SkipsElevenBytes()
    ensures var u := seq(10, _ => 128) + [0]; Length(u) == 0 && ValueExtent(u, WIRE_VARINT) == 11
  {
    var u := seq(10, _ => 128) + [0];
    RunOfOnes(u, 0);
  }

  lemma {:induction false} RunOfOnes(u: seq<Byte>, i: nat)
    requires |u| == 11 && i <= 10 && u[10] == 0 && forall k :: 0 <= k < 10 ==> u[k] == 128
    ensures Run(u[i..]) == 11 - i
    ensures u[0..] == u
    decreases 10 - i
  {
    if i < 10 {
      RunOfOnes(u, i + 1);
      assert u[i..][1..] == u[i + 1..];
    }
  }

  /** The bytes of a group up to the end of its end tag, and up to the start of it. */
  function GroupExtent(u: seq<Byte>, tag: nat): (r: (nat, nat))
    ensures r.1 <= r.0 <= |u|
    decreases |u|, 0
  {
    var l := Length(u);
    var t := Value32(u);
    if l == 0 then (0, 0)
    else if t % 8 == WIRE_GEND then if t / 8 == tag / 8 then (l, 0) else (0, 0)
    else
      var n := ValueExtent(u[l..], t);
      if n == 0 then (0, 0)
      else
        var g := GroupExtent(u[l + n..], tag);
        if g.0 == 0 then (0, 0) else (l + n + g.0, l + n + g.1)
  }

  /** By the numbers of the encoding guide: 0 is a varint, 1 eight bytes, 2 a length and its
      body, 3 a group, 5 four bytes; 4 ends a group and is no value, as are 6 and 7. */
  lemma WireTypes(u: seq<Byte>, tag: nat)
    ensures tag % 8 == 0 ==> ValueExtent(u, tag) == Run(u)
    ensures tag % 8 == 1 ==> ValueExtent(u, tag) == if |u| >= 8 then 8 else 0
    ensures tag % 8 == 2 && (Length(u) == 0 || Length(u) + Value64(u) > |u|) ==> ValueExtent(u, tag) == 0
    ensures tag % 8 == 2 && Length(u) > 0 && Length(u) + Value64(u) <= |u| ==> ValueExtent(u, tag) == Length(u) + Value64(u)
    ensures tag % 8 == 3 ==> ValueExtent(u, tag) == GroupExtent(u, tag).0
    ensures tag % 8 == 5 ==> ValueExtent(u, tag) == if |u| >= 4 then 4 else 0
    ensures tag % 8 == 4 || tag % 8 == 6 || tag % 8 == 7 ==> ValueExtent(u, tag) == 0
  {
  }

  /** A group goes on field by field to the first tag that is 4 modulo 8, which has to be of
      its own number. */
  lemma GroupEndsAt4(u: seq<Byte>, tag: nat)
    requires Length(u) > 0
    ensures Value32(u) % 8 == 4 ==> GroupExtent(u, tag) == (if Value32(u) / 8 == tag / 8 then Length(u) else 0, 0)
    ensures Value32(u) % 8 != 4 ==>
      var l, n := Length(u), ValueExtent(u[Length(u)..], Value32(u));
      && (GroupExtent(u, tag).0 > 0 <==> n > 0 && GroupExtent(u[l + n..], tag).0 > 0)
      && (GroupExtent(u, tag).0 > 0 ==>
          && GroupExtent(u, tag).0 == l + n + GroupExtent(u[l + n..], tag).0
          && GroupExtent(u, tag).1 == l + n + GroupExtent(u[l + n..], tag).1)
  {
  }

  /** A group of field 1 that holds the field 2 with eight bytes. */
  lemma SmallGroup(b: seq<Byte>)
    requires |b| == 8
    ensures ValueExtent([0x11] + b + [0x0C], 0x0B) == 10
  {
    var u := [0x11] + b + [0x0C];
    assert u[1..] == b + [0x0C] && u[1 + 8..] == [0x0C];
    OneByteTag(u);
    OneByteTag(u[9..]);
    WireTypes(u, 0x0B);
    WireTypes(u[1..], 0x11);
    GroupEndsAt4(u, 0x0B);
    GroupEndsAt4(u[9..], 0x0B);
  }

  lemma OneByteTag(u: seq<Byte>)
    requires u != [] && u[0] < 128
    ensures Length(u) == 1 && Value32(u) == u[0]
  {
    assert Run(u) == 1;
    assert Raw(u, 1) == u[0];
  }

  // ---- The grammar of wire values ------------------------------------------------------

  datatype Value =
    | Number(bytes: seq<Byte>)
    | Fixed(bytes: seq<Byte>)
    | Delimited(length: seq<Byte>, body: seq<Byte>)
    | Group(fields: Fields)

  datatype Fields =
    | End(tag: seq<Byte>)
    | More(tag: seq<Byte>, value: Value, rest: Fields)

  function Wire(v: Value): seq<Byte> {
    match v
    case Number(b) => b
    case Fixed(b) => b
    case Delimited(l, b) => l + b
    case Group(f) => WireFields(f)
  }

  function WireFields(f: Fields): seq<Byte> {
    match f
    case End(t) => t
    case More(t, v, rest) => t + Wire(v) + WireFields(rest)
  }

  function EndTag(f: Fields): seq<Byte> {
    match f
    case End(t) => t
    case More(_, _, rest) => EndTag(rest)
  }

  /** A varint the readers accept. Skipped varints may be longer. */
  ghost predicate IsShortVarint(u: seq<Byte>) {
    IsVarint(u) && |u| <= 10
  }

  /** `v` is a value of the wire type of `tag`. */
  ghost predicate WellFormed(v: Value, tag: nat) {
    match v
    case Number(b) => tag % 8 == WIRE_VARINT && IsVarint(b)
    case Fixed(b) => (tag % 8 == WIRE_64BIT && |b| == 8) || (tag % 8 == WIRE_32BIT && |b| == 4)
    case Delimited(l, b) => tag % 8 == WIRE_BYTES && IsShortVarint(l) && Value64(l) == |b|
    case Group(f) => tag % 8 == WIRE_GSTART && FieldsOk(f, tag)
  }

  /** The fields of a group opened by `tag`, up to the end tag of the same number. */
  ghost predicate FieldsOk(f: Fields, tag: nat) {
    match f
    case End(t) => IsShortVarint(t) && Value32(t) % 8 == WIRE_GEND && Value32(t) / 8 == tag / 8
    case More(t, v, rest) =>
      IsShortVarint(t) && Value32(t) % 8 != WIRE_GEND && WellFormed(v, Value32(t)) && FieldsOk(rest, tag)
  }

  // ---- Skipping consumes exactly one value ----------------------------------------------

  /** Every well-formed value is skipped to its end, whatever bytes follow. */
  lemma {:induction false} SkipsValue(v: Value, tag: nat, rest: seq<Byte>)
    requires WellFormed(v, tag)
    ensures ValueExtent(Wire(v) + rest, tag) == |Wire(v)| > 0
  {
    match v
    case Number(b) => VarintIsRun(b, rest);
    case Fixed(b) =>
    case Delimited(l, b) =>
      assert l + b + rest == l + (b + rest);
      Trailing(l, b + rest);
    case Group(f) => SkipsGroup(f, tag, rest);
  }

  /** So is every group, and its contents end where its end tag starts. */
  lemma {:induction false} SkipsGroup(f: Fields, tag: nat, rest: seq<Byte>)
    requires FieldsOk(f, tag)
    ensures GroupExtent(WireFields(f) + rest, tag) == (|WireFields(f)|, |WireFields(f)| - |EndTag(f)|)
    ensures 0 < |EndTag(f)| <= |WireFields(f)|
  {
    hide Length, Value32, Run, ValueExtent, Wire, GroupExtent, WellFormed, WireFields;
    match f
    case End(t) =>
      GroupEnd(t, rest, tag);
      assert WireFields(f) == t by { EndWire(t); }
    case More(t, v, more) =>
      var u2 := WireFields(more) + rest;
      var u1 := Wire(v) + u2;
      var u := t + u1;
      MoreWire(t, v, more, rest);
      Trailing(t, u1);
      ShortLength(t);
      SkipsValue(v, Value32(t), u2);
      SkipsGroup(more, tag, rest);
      Tails(t, Wire(v), u2);
      GroupStep(u, |t|, |Wire(v)|, tag);
  }

  lemma ShortLength(t: seq<Byte>)
    requires IsShortVarint(t)
    ensures Length(t) == |t| > 0
  {
    VarintIsRun(t, []);
    assert t + [] == t;
  }

  lemma GroupEnd(t: seq<Byte>, rest: seq<Byte>, tag: nat)
    requires FieldsOk(End(t), tag)
    ensures GroupExtent(t + rest, tag) == (|t|, 0) && |t| > 0
  {
    hide Length, Value32, Run, ValueExtent;
    Trailing(t, rest);
    ShortLength(t);
  }

  /** Where a group ends or breaks off. */
  lemma GroupStop(u: seq<Byte>, tag: nat)
    ensures Length(u) == 0 ==> GroupExtent(u, tag) == (0, 0)
    ensures Length(u) > 0 && Value32(u) % 8 == WIRE_GEND ==>
      GroupExtent(u, tag) == if Value32(u) / 8 == tag / 8 then (Length(u), 0) else (0, 0)
    ensures Length(u) > 0 && Value32(u) % 8 != WIRE_GEND && ValueExtent(u[Length(u)..], Value32(u)) == 0 ==>
      GroupExtent(u, tag) == (0, 0)
  {
    hide Length, Value32, ValueExtent;
  }

  /** One field of a group. */
  lemma GroupStep(u: seq<Byte>, l: nat, n: nat, tag: nat)
    requires 0 < l == Length(u) && Value32(u) % 8 != WIRE_GEND
    requires 0 < n == ValueExtent(u[l..], Value32(u))
    ensures var g := GroupExtent(u[l + n..], tag);
      GroupExtent(u, tag) == if g.0 == 0 then (0, 0) else (l + n + g.0, l + n + g.1)
  {
    hide Length, Value32, ValueExtent;
  }

  /** The converse: the bytes skipped are a well-formed value. */
  lemma {:induction false} ParseValue(u: seq<Byte>, tag: nat) returns (v: Value)
    requires ValueExtent(u, tag) > 0
    ensures WellFormed(v, tag) && Wire(v) == u[..ValueExtent(u, tag)]
    decreases |u|, 1
  {
    hide GroupExtent, Length, Value64, Value32, Run;
    if tag % 8 == WIRE_VARINT {
      RunIsVarint(u);
      v := Number(u[..Run(u)]);
    } else if tag % 8 == WIRE_BYTES {
      var l := Length(u);
      Prefix(u, l);
      v := Delimited(u[..l], u[l..BytesExtent(u)]);
    } else if tag % 8 == WIRE_GSTART {
      var f := ParseFields(u, tag);
      v := Group(f);
    } else {
      v := Fixed(u[..ValueExtent(u, tag)]);
    }
  }

  lemma {:induction false} ParseFields(u: seq<Byte>, tag: nat) returns (f: Fields)
    requires GroupExtent(u, tag).0 > 0
    ensures FieldsOk(f, tag) && WireFields(f) == u[..GroupExtent(u, tag).0]
    ensures |EndTag(f)| == GroupExtent(u, tag).0 - GroupExtent(u, tag).1
    decreases |u|, 0
  {
    hide ValueExtent, Length, Value64, Value32, Run, IsShortVarint, Wire;
    var l := Length(u);
    Prefix(u, l);
    if Value32(u) % 8 == WIRE_GEND {
      f := End(u[..l]);
    } else {
      var n := ValueExtent(u[l..], Value32(u));
      var v := ParseValue(u[l..], Value32(u));
      var more := ParseFields(u[l + n..], tag);
      f := More(u[..l], v, more);
      Reassembled(u, l, n, GroupExtent(u[l + n..], tag).0);
    }
  }

  lemma EndWire(t: seq<Byte>)
    ensures WireFields(End(t)) == t
  {
  }

  lemma MoreWire(t: seq<Byte>, v: Value, more: Fields, rest: seq<Byte>)
    ensures WireFields(More(t, v, more)) + rest == t + (Wire(v) + (WireFields(more) + rest))
    ensures |WireFields(More(t, v, more))| == |t| + |Wire(v)| + |WireFields(more)|
  {
  }

  lemma Tails(a: seq<Byte>, b: seq<Byte>, c: seq<Byte>)
    ensures (a + (b + c))[|a|..] == b + c && (a + (b + c))[|a| + |b|..] == c
  {
  }

  lemma Reassembled(u: seq<Byte>, l: nat, n: nat, g: nat)
    requires l + n + g <= |u|
    ensures u[..l] + u[l..][..n] + u[l + n..][..g] == u[..l + n + g]
  {
  }

  lemma Prefix(u: seq<Byte>, l: nat)
    requires l == Length(u)
    ensures l > 0 ==> IsShortVarint(u[..l]) && Value64(u[..l]) == Value64(u) && Value32(u[..l]) == Value32(u)
  {
    if l > 0 {
      RunIsVarint(u);
      Trailing(u[..l], u[l..]);
      assert u[..l] + u[l..] == u;
    }
  }

  /** Skipping succeeds exactly on input that starts with a well-formed value. */
  lemma SkipIffValue(u: seq<Byte>, tag: nat, n: nat)
    requires 0 < n <= |u|
    ensures ValueExtent(u, tag) == n <==> exists v :: WellFormed(v, tag) && Wire(v) == u[..n]
  {
    if ValueExtent(u, tag) == n {
      var v := ParseValue(u, tag);
      assert WellFormed(v, tag) && Wire(v) == u[..n];
    }
    forall v | WellFormed(v, tag) && Wire(v) == u[..n] ensures ValueExtent(u, tag) == n {
      SkipsValue(v, tag, u[n..]);
      assert u == u[..n] + u[n..];
    }
  }

  // ---- The readers ------------------------------------------------------------------------

  lemma RawNone(u: seq<Byte>)
    ensures Raw(u, 0) == 0
  {
  }

  /** A shift left by 7 * i. */
  function Shift7(i: nat): nat {
    Pow128(i)
  }

  /** Another seven bits on top of the `i` groups read. */
  lemma AddGroup(u: seq<Byte>, i: nat)
    requires i < |u| && i < 10
    ensures Raw(u, i) < Shift7(i)
    ensures i < 9 ==> Raw(u, i) + u[i] % 128 * Shift7(i) % U64 == Raw(u, i + 1)
    ensures i == 9 ==> Raw(u, i) + u[i] % 128 * Shift7(i) % U64 == Raw(u, i + 1) % U64
    ensures i < 9 ==> Raw(u, i + 1) < U64
  {
    RawBound(u, i);
    RawBound(u, i + 1);
    Powers();
    if i < 9 {
      PowerBelow(i + 1);
    }
  }

  lemma PowerBelow(i: nat)
    requires i <= 9
    ensures Pow128(i) < U64
  {
    Powers();
  }

  /** Before the first byte. */
  lemma Start(u: seq<Byte>)
    ensures GoesOn(u, 0) && (|u| > 0 && u[0] >= 128 ==> Raw(u, 1) + 128 == u[0])
  {
    assert Raw(u, 0) == 0;
  }

  function Add32(a: int, b: int): (r: nat)
    ensures r < U32
  {
    (a + b) % U32
  }

  function Sub32(a: int, b: int): (r: nat)
    ensures r < U32
  {
    (a - b) % U32
  }

  function Mul32(a: int, b: int): (r: nat)
    ensures r < U32
  {
    a * b % U32
  }

  /** The line of a 28-bit part `w` of the varint in the 64-bit reader. */
  lemma Line64(w: seq<Byte>, k: nat, c: nat, v: nat, b: nat)
    requires 1 <= k <= 3 && k < |w| && c == Pow128(k) && v == Raw(w, k) + c && b == w[k]
    ensures Add32(Sub32(v, c), Mul32(b, c)) == Raw(w, k + 1) + (if b >= 128 then 128 * c else 0)
  {
    hide Raw, Pow128;
    WholeByte(w, k, c);
    RawBound(w, k);
    RawBound(w, k + 1);
    Powers();
    Small(b, c);
  }

  /** One line of the unrolled 32-bit reader: the continuation bit of the byte
      before is taken away again, and byte `k` added. */
  lemma Line32(u: seq<Byte>, k: nat, c: nat, v: nat)
    requires 1 <= k <= 3 && GoesOn(u, k) && SafeToRun(u) && c == Pow128(k) && v == Raw(u, k) + c
    ensures k < |u| && (if u[k] >= 128 then GoesOn(u, k + 1) else Run(u) == Length(u) == k + 1)
    ensures var r := Add32(Sub32(v, c), Mul32(u[k], c));
      if u[k] < 128 then r == Value32(u) else r == Raw(u, k + 1) + 128 * c
  {
    hide Raw, Pow128, Run, Length, GoesOn, SafeToRun, Add32, Sub32, Mul32;
    NextByte(u, k);
    Line64(u, k, c, v, u[k]);
    Reduced(u, k + 1);
  }

  lemma Reduced(u: seq<Byte>, n: nat)
    requires n <= |u| && n <= 4
    ensures Raw(u, n) < U32
  {
    RawBound(u, n);
    PowerMonotone(n, 4);
    Powers();
  }

  /** The line of the fifth byte, whose high bits are lost. */
  lemma Line32Last(u: seq<Byte>, v: nat)
    requires GoesOn(u, 4) && SafeToRun(u) && v == Raw(u, 4) + 0x1000_0000
    ensures 4 < |u| && (if u[4] >= 128 then GoesOn(u, 5) else Run(u) == Length(u) == 5)
    ensures var r := Add32(Sub32(v, 0x1000_0000), Mul32(u[4], 0x1000_0000));
      r == Raw(u, 5) % U32 && (u[4] < 128 ==> r == Value32(u))
  {
    hide Raw, Pow128, Run, Length, GoesOn, SafeToRun;
    NextByte(u, 4);
    Powers();
    WholeByte(u, 4, 0x1000_0000);
    Reduced(u, 4);
    var b: int := u[4];
    WrapSum(Raw(u, 4), b * 0x1000_0000, U32);
    Periodic(Raw(u, 5), 8, U32);
  }

  lemma Small(b: nat, c: nat)
    requires b < 256
    ensures b * c <= 255 * c
  {
  }

  lemma Ignored32(u: seq<Byte>)
    requires GoesOn(u, 5)
    ensures Length(u) > 0 ==> Value32(u) == Raw(u, 5) % U32
  {
    RunBeyond(u, 5);
    if Run(u) > 5 {
      RawHigh32(u, Run(u));
    }
  }

  /** The last line of a part only drops its continuation bit; the next part starts. */
  lemma NextPart(w: seq<Byte>, v: nat, b: nat)
    requires |w| >= 5 && v == Raw(w, 4) + 0x1000_0000 && b == w[4]
    ensures Sub32(v, 0x1000_0000) == Raw(w, 4) < 0x1000_0000
    ensures Add32(0, b) == b == Raw(w[4..], 1) + (if b >= 128 then 128 else 0)
  {
    RawBound(w, 4);
    Powers();
    assert Raw(w[4..], 0) == 0;
  }

  lemma {:induction false} RawSplit(u: seq<Byte>, base: nat, n: nat)
    requires base + n <= |u|
    ensures Raw(u, base + n) == Raw(u, base) + Pow128(base) * Raw(u[base..], n)
  {
    if n > 0 {
      RawSplit(u, base, n - 1);
      PowerSum(base, n - 1);
      var b := u[base + n - 1] % 128;
      assert u[base..][n - 1] == u[base + n - 1];
      Expand(Pow128(base), Raw(u[base..], n - 1), b, Pow128(n - 1));
    }
  }

  lemma Expand(p: nat, r: nat, b: nat, q: nat)
    ensures p * (r + b * q) == p * r + b * (p * q)
  {
    assert p * (r + b * q) == p * r + p * (b * q);
    assert p * (b * q) == b * (p * q);
  }

  lemma {:induction false} PowerSum(a: nat, b: nat)
    ensures Pow128(a + b) == Pow128(a) * Pow128(b)
  {
    if a > 0 {
      PowerSum(a - 1, b);
      Regrouped(Pow128(a - 1), Pow128(b));
    }
  }

  lemma Regrouped(x: nat, y: nat)
    ensures 128 * (x * y) == 128 * x * y
  {
  }

  /** The three parts put together; the bits of each are clear of the others', so
      the bitwise or of the source is their sum. */
  function Glue(n1: nat, n2: nat, n3: nat): (v: nat)
    requires n1 < 0x1000_0000 && n2 < 0x1000_0000
  {
    n1 + n2 * 0x1000_0000 + n3 * 0x100_0000_0000_0000 % U64
  }

  /** The parts as far as a varint of `n` bytes fills them. */
  ghost predicate Parts(u: seq<Byte>, n: nat, n1: nat, n2: nat, n3: nat) {
    && n <= |u|
    && n1 == Raw(u, if n < 4 then n else 4)
    && n2 == (if n <= 4 then 0 else Raw(u[4..], if n < 8 then n - 4 else 4))
    && n3 == (if n <= 8 then 0 else Raw(u[8..], n - 8))
  }

  lemma PartsSmall(u: seq<Byte>, n: nat, n1: nat, n2: nat, n3: nat)
    requires Parts(u, n, n1, n2, n3) && n <= 10
    ensures n1 < 0x1000_0000 && n2 < 0x1000_0000 && n3 < 0x4000
  {
    RawBound(u, if n < 4 then n else 4);
    if n > 4 {
      RawBound(u[4..], if n < 8 then n - 4 else 4);
    }
    if n > 8 {
      RawBound(u[8..], n - 8);
    }
    Powers();
    PowerMonotone(if n < 4 then n else 4, 4);
    if n > 4 {
      PowerMonotone(if n < 8 then n - 4 else 4, 4);
    }
    if n > 8 {
      PowerMonotone(n - 8, 2);
    }
  }

  lemma {:induction false} PowerMonotone(a: nat, b: nat)
    requires a <= b
    ensures Pow128(a) <= Pow128(b)
  {
    if a < b {
      PowerMonotone(a, b - 1);
    }
  }

  lemma Glued(u: seq<Byte>, n: nat, n1: nat, n2: nat, n3: nat)
    requires Parts(u, n, n1, n2, n3) && 1 <= n <= 10 && Run(u) == n
    ensures n1 < 0x1000_0000 && n2 < 0x1000_0000 && Glue(n1, n2, n3) == Value64(u)
  {
    hide Raw, Pow128, Run;
    Powers();
    PartsSmall(u, n, n1, n2, n3);
    if n > 4 {
      RawSplit(u, 4, if n < 8 then n - 4 else 4);
    }
    if n > 8 {
      RawSplit(u, 8, n - 8);
    }
    assert Raw(u, n) == n1 + n2 * 0x1000_0000 + n3 * 0x100_0000_0000_0000;
    GlueWraps(n1 + n2 * 0x1000_0000, n3);
  }

  lemma GlueWraps(low: nat, n3: nat)
    requires low < 0x100_0000_0000_0000 && n3 < 0x4000
    ensures low + n3 * 0x100_0000_0000_0000 % U64 == (low + n3 * 0x100_0000_0000_0000) % U64
  {
    var q, r := n3 / 256, n3 % 256;
    assert n3 * 0x100_0000_0000_0000 == U64 * q + r * 0x100_0000_0000_0000;
    Words.ModUnique(n3 * 0x100_0000_0000_0000, U64, q, r * 0x100_0000_0000_0000);
    Words.ModUnique(low + n3 * 0x100_0000_0000_0000, U64, q, low + r * 0x100_0000_0000_0000);
  }

  lemma OneByte(u: seq<Byte>)
    requires |u| > 0 && u[0] < 128
    ensures Length(u) == 1 && Value64(u) == Value32(u) == u[0]
  {
    assert Raw(u, 1) == Raw(u, 0) + u[0] % 128 * Pow128(0);
  }

  lemma Narrow(u: seq<Byte>)
    ensures Value64(u) % U32 == Value32(u)
  {
    var x := Raw(u, Run(u));
    var q, r := x / U64, x % U64;
    assert x == r + (q * U32) * U32;
    Periodic(r, q * U32, U32);
  }

  lemma EmptyLength(u: seq<Byte>)
    requires u == []
    ensures Length(u) == 0 && Run(u) == 0
  {
  }

  /** A group read as far as offset `k`, where another tag starts. */
  ghost predicate GroupRest(u: seq<Byte>, tag: nat, k: nat) {
    && k <= |u|
    && var g := GroupExtent(u[k..], tag);
       GroupExtent(u, tag) == if g.0 == 0 then (0, 0) else (k + g.0, k + g.1)
  }

  lemma GroupStart(u: seq<Byte>, tag: nat)
    ensures GroupRest(u, tag, 0)
  {
    hide GroupExtent;
    assert u[0..] == u;
  }

  /** What the tag at offset `k` of a group comes to. */
  lemma GroupNext(u: seq<Byte>, tag: nat, k: nat)
    requires GroupRest(u, tag, k)
    ensures var l, t := Length(u[k..]), Value32(u[k..]);
      if l == 0 then GroupExtent(u, tag) == (0, 0)
      else if t % 8 == WIRE_GEND then GroupExtent(u, tag) == if t / 8 == tag / 8 then (k + l, k) else (0, 0)
      else
        k + l <= |u| &&
        var n := ValueExtent(u[k + l..], t);
        if n == 0 then GroupExtent(u, tag) == (0, 0) else GroupRest(u, tag, k + l + n)
  {
    hide Length, Value32, ValueExtent, GroupExtent;
    var w := u[k..];
    var l, t := Length(w), Value32(w);
    assert w[l..] == u[k + l..];
    GroupStop(w, tag);
    if l > 0 && t % 8 != WIRE_GEND {
      var n := ValueExtent(w[l..], t);
      if n > 0 {
        GroupStep(w, l, n, tag);
        assert w[l + n..] == u[k + l + n..];
      }
    }
  }

  /** pb_Slice: the bytes it delimits, and the cursor. */
  class Slice {
    const data: seq<Byte>
    var p: nat

    constructor (data: seq<Byte>)
      ensures this.data == data && p == 0
    {
      this.data := data;
      p := 0;
    }

    ghost predicate Valid()
      reads this
    {
      p <= |data|
    }

    /** The bytes still to be read. */
    ghost function Rest(): (u: seq<Byte>)
      requires Valid()
      reads this
    {
      data[p..]
    }

    method ReadVarintSlow() returns (n: nat, v: nat)
      requires Valid()
      modifies this`p
      ensures Valid() && n == Length(old(Rest())) && p == old(p) + n
      ensures n > 0 ==> v == Value64(old(Rest()))
    {
      hide Raw, Pow128, Run, Length;
      ghost var u := Rest();
      var start := p;
      v := 0;
      var i := 0;
      assert v == Raw(u, 0) by { RawNone(u); }
      while p < |data| && i < 10
        invariant 0 <= i <= 10 && p == start + i <= |data| && GoesOn(u, i)
        invariant i < 10 ==> v == Raw(u, i)
      {
        var b := data[p];
        p := p + 1;
        // The bits added are clear in v, so this is the bitwise or.
        NextByte(u, i);
        AddGroup(u, i);
        v := v + b % 128 * Shift7(i) % U64;
        i := i + 1;
        if b < 128 {
          return i, v;
        }
      }
      NextByte(u, i);
      p := start;
      return 0, 0;
    }

    method ReadVarint32Fallback() returns (n: nat, v: nat)
      requires Valid() && SafeToRun(Rest()) && data[p] >= 128
      modifies this`p
      ensures Valid() && n == Length(old(Rest())) && p == old(p) + n
      ensures n > 0 ==> v == Value32(old(Rest()))
    {
      hide Raw, Pow128, Run, Length, GoesOn, SafeToRun, Value32, Add32, Sub32, Mul32;
      ghost var u := Rest();
      Powers();
      Start(u);
      var q := p;
      var b: int;
      label Unrolled: {
        NextByte(u, 0);
        Line32(u, 1, 0x80, data[q]);
        v := Sub32(data[q], 0x80); q := q + 1;
        b := data[q]; q := q + 1; v := Add32(v, Mul32(b, 0x80)); if b < 0x80 { break Unrolled; }
        Line32(u, 2, 0x4000, v);
        v := Sub32(v, 0x4000); b := data[q]; q := q + 1; v := Add32(v, Mul32(b, 0x4000)); if b < 0x80 { break Unrolled; }
        Line32(u, 3, 0x20_0000, v);
        v := Sub32(v, 0x20_0000); b := data[q]; q := q + 1; v := Add32(v, Mul32(b, 0x20_0000)); if b < 0x80 { break Unrolled; }
        Line32Last(u, v);
        v := Sub32(v, 0x1000_0000); b := data[q]; q := q + 1; v := Add32(v, Mul32(b, 0x1000_0000)); if b < 0x80 { break Unrolled; }
        NextByte(u, 5); Ignored32(u);
        b := data[q]; q := q + 1; if b < 0x80 { break Unrolled; }
        NextByte(u, 6);
        b := data[q]; q := q + 1; if b < 0x80 { break Unrolled; }
        NextByte(u, 7);
        b := data[q]; q := q + 1; if b < 0x80 { break Unrolled; }
        NextByte(u, 8);
        b := data[q]; q := q + 1; if b < 0x80 { break Unrolled; }
        NextByte(u, 9);
        b := data[q]; q := q + 1; if b < 0x80 { break Unrolled; }
        NextByte(u, 10);
        return 0, 0;
      }
      n := q - p;
      p := q;
    }

    method ReadVarint64Fallback() returns (n: nat, v: nat)
      requires Valid() && SafeToRun(Rest()) && data[p] >= 128
      modifies this`p
      ensures Valid() && n == Length(old(Rest())) && p == old(p) + n
      ensures n > 0 ==> v == Value64(old(Rest()))
    {
      hide Raw, Pow128, Run, Length, GoesOn, SafeToRun, Value64, Add32, Sub32, Mul32, Glue;
      ghost var u := Rest();
      ghost var u4, u8 := if |u| < 4 then [] else u[4..], if |u| < 8 then [] else u[8..];
      Powers();
      Start(u);
      var q := p;
      var b: int, n1, n2, n3 := 0, 0, 0, 0;
      label Unrolled: {
        NextByte(u, 0); NextByte(u, 1);
        Line64(u, 1, 0x80, data[q], data[q + 1]);
        n1 := Sub32(data[q], 0x80); q := q + 1;
        b := data[q]; q := q + 1; n1 := Add32(n1, Mul32(b, 0x80)); if b < 0x80 { break Unrolled; }
        NextByte(u, 2); Line64(u, 2, 0x4000, n1, data[q]);
        n1 := Sub32(n1, 0x4000); b := data[q]; q := q + 1; n1 := Add32(n1, Mul32(b, 0x4000)); if b < 0x80 { break Unrolled; }
        NextByte(u, 3); Line64(u, 3, 0x20_0000, n1, data[q]);
        n1 := Sub32(n1, 0x20_0000); b := data[q]; q := q + 1; n1 := Add32(n1, Mul32(b, 0x20_0000)); if b < 0x80 { break Unrolled; }
        NextByte(u, 4); NextPart(u, n1, data[q]);
        n1 := Sub32(n1, 0x1000_0000); b := data[q]; q := q + 1; n2 := Add32(n2, b); if b < 0x80 { break Unrolled; }
        NextByte(u, 5); Line64(u4, 1, 0x80, n2, data[q]);
        n2 := Sub32(n2, 0x80); b := data[q]; q := q + 1; n2 := Add32(n2, Mul32(b, 0x80)); if b < 0x80 { break Unrolled; }
        NextByte(u, 6); Line64(u4, 2, 0x4000, n2, data[q]);
        n2 := Sub32(n2, 0x4000); b := data[q]; q := q + 1; n2 := Add32(n2, Mul32(b, 0x4000)); if b < 0x80 { break Unrolled; }
        NextByte(u, 7); Line64(u4, 3, 0x20_0000, n2, data[q]);
        n2 := Sub32(n2, 0x20_0000); b := data[q]; q := q + 1; n2 := Add32(n2, Mul32(b, 0x20_0000)); if b < 0x80 { break Unrolled; }
        NextByte(u, 8); NextPart(u4, n2, data[q]);
        assert u4[4..] == u8;
        n2 := Sub32(n2, 0x1000_0000); b := data[q]; q := q + 1; n3 := Add32(n3, b); if b < 0x80 { break Unrolled; }
        NextByte(u, 9); Line64(u8, 1, 0x80, n3, data[q]);
        n3 := Sub32(n3, 0x80); b := data[q]; q := q + 1; n3 := Add32(n3, Mul32(b, 0x80)); if b < 0x80 { break Unrolled; }
        NextByte(u, 10);
        return 0, 0;
      }
      n := q - p;
      Glued(u, n, n1, n2, n3);
      v := Glue(n1, n2, n3);
      p := q;
    }

    method ReadVarint32() returns (n: nat, v: nat)
      requires Valid()
      modifies this`p
      ensures Valid() && n == Length(old(Rest())) && p == old(p) + n
      ensures n > 0 ==> v == Value32(old(Rest()))
    {
      hide Run, Length, Value32, Value64;
      EmptyLength([]);
      if p >= |data| {
        return 0, 0;
      }
      if data[p] < 0x80 {
        OneByte(Rest());
        v := data[p];
        p := p + 1;
        return 1, v;
      }
      if |data| - p >= 10 || data[|data| - 1] < 0x80 {
        n, v := ReadVarint32Fallback();
        return;
      }
      Narrow(Rest());
      n, v := ReadVarintSlow();
      v := v % U32;
    }

    method ReadVarint64() returns (n: nat, v: nat)
      requires Valid()
      modifies this`p
      ensures Valid() && n == Length(old(Rest())) && p == old(p) + n
      ensures n > 0 ==> v == Value64(old(Rest()))
    {
      hide Run, Length, Value32, Value64;
      EmptyLength([]);
      if p >= |data| {
        return 0, 0;
      }
      if data[p] < 0x80 {
        OneByte(Rest());
        v := data[p];
        p := p + 1;
        return 1, v;
      }
      if |data| - p >= 10 || data[|data| - 1] < 0x80 {
        n, v := ReadVarint64Fallback();
        return;
      }
      n, v := ReadVarintSlow();
    }

    /** The bytes of a length-delimited value, without the prefix. */
    method ReadBytes() returns (n: nat, start: nat, end: nat)
      requires Valid()
      modifies this`p
      ensures Valid() && n == BytesExtent(old(Rest())) && p == old(p) + n
      ensures n > 0 ==> start == old(p) + Length(old(Rest())) && end == p
    {
      hide Length, Value64;
      var from: nat := p;
      var l, len := ReadVarint64();
      if l == 0 || |data| - p < len {
        p := from;
        return 0, 0, 0;
      }
      start := p;
      end := p + len;
      p := end;
      n := p - from;
    }

    method SkipVarint() returns (n: nat)
      requires Valid()
      modifies this`p
      ensures Valid() && n == Run(old(Rest())) && p == old(p) + n
    {
      hide Run;
      ghost var u := Rest();
      var q := p;
      while q < |data| && data[q] >= 0x80
        invariant p <= q <= |data| && GoesOn(u, q - p)
      {
        q := q + 1;
      }
      NextByte(u, q - p);
      RunBeyond(u, q - p);
      if q >= |data| {
        return 0;
      }
      q := q + 1;
      n := q - p;
      p := q;
    }

    method SkipBytes() returns (n: nat)
      requires Valid()
      modifies this`p
      ensures Valid() && n == BytesExtent(old(Rest())) && p == old(p) + n
    {
      hide Length, Value64;
      var from: nat := p;
      var l, len := ReadVarint64();
      if l == 0 {
        return 0;
      }
      if |data| - p < len {
        p := from;
        return 0;
      }
      p := p + len;
      n := p - from;
    }

    method SkipSlice(len: nat) returns (n: nat)
      requires Valid()
      modifies this`p
      ensures Valid() && n == (if |old(Rest())| >= len then len else 0) && p == old(p) + n
    {
      if p + len > |data| {
        return 0;
      }
      p := p + len;
      return len;
    }

    method SkipValue(tag: nat) returns (n: nat)
      requires Valid()
      modifies this`p
      ensures Valid() && n == ValueExtent(old(Rest()), tag) && p == old(p) + n
      ensures tag % 8 == 1 ==> n == if |old(Rest())| >= 8 then 8 else 0
      ensures tag % 8 == 5 ==> n == if |old(Rest())| >= 4 then 4 else 0
      ensures tag % 8 == 4 || tag % 8 == 6 || tag % 8 == 7 ==> n == 0
      decreases |data| - p, 1
    {
      hide Run, GroupExtent, BytesExtent;
      var from: nat := p;
      n := 0;
      if tag % 8 == WIRE_VARINT {
        n := SkipVarint();
      } else if tag % 8 == WIRE_64BIT {
        n := SkipSlice(8);
      } else if tag % 8 == WIRE_BYTES {
        n := SkipBytes();
      } else if tag % 8 == WIRE_32BIT {
        n := SkipSlice(4);
      } else if tag % 8 == WIRE_GSTART {
        var start, end;
        n, start, end := ReadGroup(tag);
      }
      if n == 0 {
        p := from;
      }
    }

    /** Reads a group whose start tag has been read; `start` and `end` delimit its
        contents. */
    method ReadGroup(tag: nat) returns (n: nat, start: nat, end: nat)
      requires Valid()
      modifies this`p
      ensures Valid() && n == GroupExtent(old(Rest()), tag).0 && p == old(p) + n
      ensures n > 0 ==> start == old(p) && end == start + GroupExtent(old(Rest()), tag).1
      decreases |data| - p, 0
    {
      hide Length, Value32, ValueExtent, GroupExtent, GroupRest;
      var from: nat := p;
      ghost var u := Rest();
      GroupStart(u, tag);
      ghost var k := 0;
      GroupNext(u, tag, k);
      assert u[0..] == u;
      var count, newtag := ReadVarint32();
      while count != 0
        invariant 0 <= k <= |u| && p == from + k + count <= |data| && GroupRest(u, tag, k)
        invariant count == 0 ==> GroupExtent(u, tag) == (0, 0)
        invariant count == Length(u[k..]) && (count > 0 ==> newtag == Value32(u[k..]))
        decreases |data| - p, count
      {
        GroupNext(u, tag, k);
        if newtag % 8 == WIRE_GEND {
          if newtag / 8 != tag / 8 {
            break;
          }
          start := from;
          end := p - count;
          return p - from, start, end;
        }
        assert u[k + count..] == Rest();
        var n1 := SkipValue(newtag);
        if n1 == 0 {
          break;
        }
        k := k + count + n1;
        assert u[k..] == Rest();
        GroupNext(u, tag, k);
        count, newtag := ReadVarint32();
      }
      p := from;
      return 0, 0, 0;
    }
  }
}
