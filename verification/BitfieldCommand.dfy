/** BITFIELD (redislib-src/facade/bitmap.c): a list of reads, writes and increments of
    integer fields, carried out one after the other on a bitmap that has first been
    grown to hold every field written. */
module BitfieldCommand {
  import opened Bits
  import opened Modular
  import opened Bitfield
  import Words

  datatype Opcode = Get | Set | IncrBy

  datatype FieldOp = FieldOp(offset: nat, value: int, opcode: Opcode, owtype: Overflow, bits: nat, signed: bool)

  /** None stands for the null of an operation that OVERFLOW FAIL has refused. */
  datatype Reply = Int(value: int) | None

  /** What the parser lets through. */
  predicate OpOk(op: FieldOp) {
    && I64_MIN <= op.value <= I64_MAX
    && 1 <= op.bits <= if op.signed then 64 else 63
  }

  function Lowest(op: FieldOp): int
    requires OpOk(op)
  {
    if op.signed then -(Words.Pow2(op.bits - 1) as int) else 0
  }

  function Highest(op: FieldOp): int
    requires OpOk(op)
  {
    if op.signed then Words.Pow2(op.bits - 1) - 1 else Words.Pow2(op.bits) - 1
  }

  /** The number a field of the op's type holds. */
  function Read(p: seq<bv8>, op: FieldOp): int
    requires OpOk(op)
  {
    var v := FieldValue(p, op.offset, op.bits);
    if op.signed then SignedValue(v, op.bits) else v
  }

  /** The number an operation is about to store, before its width matters. */
  function Target(prior: int, op: FieldOp): int {
    if op.opcode == IncrBy then prior + op.value
    else if op.signed then op.value
    else ToU64(op.value)
  }

  function WrapTo(x: int, op: FieldOp): int
    requires OpOk(op)
  {
    if op.signed then WrapSigned(x, op.bits) else x % Words.Pow2(op.bits)
  }

  /** SET takes a signed value this far below the range for one above it. */
  predicate TakenForHigh(op: FieldOp)
    requires OpOk(op)
  {
    op.opcode == Set && op.signed && op.value < Highest(op) - I64_MAX
  }

  /** What a write stores: the target when it fits, else what OVERFLOW says, which is
      nothing under FAIL. */
  function Stored(prior: int, op: FieldOp): (v: Reply)
    requires OpOk(op)
  {
    var x := Target(prior, op);
    if Lowest(op) <= x <= Highest(op) then Int(x)
    else match op.owtype
      case Wrap => Int(WrapTo(x, op))
      case Sat => Int(if x > Highest(op) || TakenForHigh(op) then Highest(op) else Lowest(op))
      case Fail => None
  }

  /** The number of a type nearest to `x`. */
  function Clamp(x: int, op: FieldOp): int
    requires OpOk(op)
  {
    if x < Lowest(op) then Lowest(op) else if x > Highest(op) then Highest(op) else x
  }

  /** A saturating SET of a signed field stores the nearest number of its type exactly
      when the value is not below max - (2^63 - 1), or the field has all 64 bits. */
  lemma SatStoresNearest(prior: int, op: FieldOp)
    requires OpOk(op) && op.opcode == Set && op.signed && op.owtype == Sat
    ensures Stored(prior, op) == Int(Clamp(op.value, op)) <==> op.value >= Highest(op) - I64_MAX || op.bits == 64
  {
    Powers(op.bits);
    if op.bits == 64 {
      assert Words.Pow2(op.bits - 1) == I64_MAX + 1;
    }
    hide Words.Pow2;
  }

  /** So setting the smallest 64-bit number in eight signed bits stores 127. */
  lemma SatStoresHighest(prior: int)
    ensures Stored(prior, FieldOp(0, I64_MIN, Set, Sat, 8, true)) == Int(127)
  {
    assert Words.Pow2(7) == 128;
  }

  /** The meaning of one operation: its reply, and the bitmap before and after. */
  ghost predicate Does(was: seq<bv8>, op: FieldOp, reply: Reply, now: seq<bv8>)
    requires OpOk(op)
  {
    var prior := Read(was, op);
    if op.opcode == Get then reply == Int(prior) && now == was
    else
      match Stored(prior, op)
      case None => reply == None && now == was
      case Int(v) =>
        && reply == Int(if op.opcode == IncrBy then v else prior)
        && FieldWritten(was, now, op.offset, op.bits, ToU64(v))
  }

  // ---- What a write leaves in its field ----------------------------------------------------

  lemma RangeOfRead(p: seq<bv8>, op: FieldOp)
    requires OpOk(op)
    ensures Lowest(op) <= Read(p, op) <= Highest(op)
  {
    FieldBound(p, op.offset, op.bits);
    Powers(op.bits);
    hide Words.Pow2, FieldValue;
  }

  lemma StoredInRange(prior: int, op: FieldOp)
    requires OpOk(op)
    ensures Stored(prior, op).Int? ==> Lowest(op) <= Stored(prior, op).value <= Highest(op)
  {
    Powers(op.bits);
    hide Words.Pow2;
  }

  /** The number stored is the number read back, whatever was there before. */
  lemma ReadsBack(was: seq<bv8>, now: seq<bv8>, op: FieldOp, v: int)
    requires OpOk(op) && op.offset + op.bits <= 8 * |was|
    requires Lowest(op) <= v <= Highest(op) && FieldWritten(was, now, op.offset, op.bits, ToU64(v))
    ensures Read(now, op) == v
  {
    FieldRoundTrip(was, now, op.offset, op.bits, ToU64(v));
    Powers(op.bits);
    MaskedSum(v, op.bits);
    hide Words.Pow2, FieldValue;
    var m := Words.Pow2(op.bits);
    if v < 0 {
      Words.ModUnique(v, m, -1, v + m);
    } else {
      Words.ModUnique(v, m, 0, v);
    }
  }

  /** A write by its numbers. SET takes the value, an unsigned one modulo 2^64, and answers
      what was there; INCRBY adds it, and answers the sum stored. What does not fit the type
      is wrapped, clamped or refused. A GET answers the number and changes nothing. */
  lemma CommandMeaning(was: seq<bv8>, op: FieldOp, reply: Reply, now: seq<bv8>)
    requires OpOk(op) && op.offset + op.bits <= 8 * |was| && Does(was, op, reply, now)
    ensures var prior, m := Read(was, op), Words.Pow2(op.bits);
      var x := if op.opcode == IncrBy then prior + op.value else if op.signed then op.value else op.value % U64;
      var lo, hi := if op.signed then -(Words.Pow2(op.bits - 1) as int) else 0,
                    if op.signed then Words.Pow2(op.bits - 1) - 1 else m - 1;
      && lo <= prior <= hi
      && (op.opcode == Get ==> reply == Int(prior) && now == was)
      && (op.opcode != Get && lo <= x <= hi ==> Read(now, op) == x)
      && (op.opcode != Get && !(lo <= x <= hi) ==>
          match op.owtype
          case Fail => reply == None && now == was
          case Wrap => lo <= Read(now, op) <= hi && (Read(now, op) - x) % m == 0
          case Sat => op.opcode == IncrBy || !op.signed || x > hi || x >= hi - I64_MAX ==> Read(now, op) == if x < lo then lo else hi)
      && (op.opcode != Get && reply != None ==> reply == Int(if op.opcode == IncrBy then Read(now, op) else prior))
      && (reply == None ==> op.owtype == Fail && !(lo <= x <= hi))
  {
    hide FieldValue, Read, FieldWritten, WrapTo;
    RangeOfRead(was, op);
    if op.opcode != Get {
      match Stored(Read(was, op), op) {
        case None =>
        case Int(v) =>
          StoredInRange(Read(was, op), op);
          ReadsBack(was, now, op, v);
          WrapToMeaning(Target(Read(was, op), op), op);
      }
    }
  }

  lemma WrapToMeaning(x: int, op: FieldOp)
    requires OpOk(op)
    ensures (WrapTo(x, op) - x) % Words.Pow2(op.bits) == 0
  {
    WrapMeaning(x, op.bits);
    hide Words.Pow2;
    var m := Words.Pow2(op.bits);
    if !op.signed {
      var q := x / m;
      assert x == m * q + x % m;
      Negated(m, q);
      Words.ModUnique(x % m - x, m, -q, 0);
    }
  }

  /** A write that is not refused stores a number of its type, which a later read of
      the same field finds. */
  lemma WriteThenRead(was: seq<bv8>, op: FieldOp, reply: Reply, now: seq<bv8>)
    requires OpOk(op) && op.opcode != Get && op.offset + op.bits <= 8 * |was| && Does(was, op, reply, now)
    ensures Read(now, op) == (match Stored(Read(was, op), op) case Int(v) => v case None => Read(was, op))
    ensures forall o: nat, n: nat :: o + n <= op.offset || op.offset + op.bits <= o ==>
      FieldValue(now, o, n) == FieldValue(was, o, n)
  {
    hide FieldValue, Read, FieldWritten, Lowest, Highest;
    match Stored(Read(was, op), op) {
      case None =>
      case Int(v) =>
        StoredInRange(Read(was, op), op);
        ReadsBack(was, now, op, v);
        forall o: nat, n: nat | o + n <= op.offset || op.offset + op.bits <= o
          ensures FieldValue(now, o, n) == FieldValue(was, o, n)
        {
          FieldApart(was, now, op.offset, op.bits, ToU64(v), o, n);
        }
    }
  }

  // ---- Carrying the operations out ------------------------------------------------------------

  lemma {:induction false} FieldMoved(p: seq<bv8>, q: seq<bv8>, o: nat, d: nat, n: nat)
    requires forall x :: o <= x < o + n ==> PadBit(q, x) == PadBit(p, x + d)
    ensures FieldValue(q, o, n) == FieldValue(p, o + d, n)
  {
    hide PadBit;
    if n > 0 {
      FieldMoved(p, q, o, d, n - 1);
      var x := o + n - 1;
      assert PadBit(q, x) == PadBit(p, x + d);
    }
  }

  /** The nine bytes a read copies, with zeros beyond the end of the string. */
  ghost predicate Copied(p: seq<bv8>, buf: seq<bv8>, byte: nat) {
    |buf| == 9 && forall i :: 0 <= i < 9 ==> buf[i] == if byte + i < |p| then p[byte + i] else 0
  }

  lemma CopiedField(p: seq<bv8>, buf: seq<bv8>, op: FieldOp)
    requires OpOk(op) && Copied(p, buf, op.offset / 8)
    ensures FieldValue(buf, op.offset - 8 * (op.offset / 8), op.bits) == FieldValue(p, op.offset, op.bits)
  {
    hide FieldValue;
    var byte := op.offset / 8;
    forall x | 0 <= x < 72 ensures PadBit(buf, x) == PadBit(p, x + 8 * byte) {
      CopiedBit(p, buf, byte, x);
    }
    FieldMoved(p, buf, op.offset - 8 * byte, 8 * byte, op.bits);
  }

  lemma CopiedBit(p: seq<bv8>, buf: seq<bv8>, byte: nat, x: nat)
    requires Copied(p, buf, byte) && x < 72
    ensures PadBit(buf, x) == PadBit(p, x + 8 * byte)
  {
    ZeroByte(x % 8);
    hide BitOf;
    ByteIndex(byte + x / 8, x % 8);
    assert x + 8 * byte == 8 * (byte + x / 8) + x % 8;
  }

  lemma ZeroByte(k: nat)
    requires k < 8
    ensures !BitOf(0, k)
  {
  }

  /** A string grown with zeros to `n` bytes. */
  function Grown(p: seq<bv8>, n: nat): seq<bv8> {
    if |p| < n then p + seq(n - |p|, _ => 0) else p
  }

  /** The bytes needed for every field that is written. */
  function Needed(ops: seq<FieldOp>): (n: nat)
    requires forall op :: op in ops ==> OpOk(op)
    ensures forall i :: 0 <= i < |ops| && ops[i].opcode != Get ==> ops[i].offset + ops[i].bits <= 8 * n
  {
    if ops == [] then 0
    else
      var op := ops[|ops| - 1];
      var n := Needed(ops[..|ops| - 1]);
      var here := (op.offset + op.bits - 1) / 8 + 1;
      assert forall i :: 0 <= i < |ops| - 1 ==> ops[..|ops| - 1][i] == ops[i];
      if op.opcode != Get && here > n then here else n
  }

  /** No more bytes than that: the last one holds the end of a field that is written. */
  lemma {:induction false} NeededIsLeast(ops: seq<FieldOp>)
    requires forall op :: op in ops ==> OpOk(op)
    ensures Needed(ops) > 0 ==>
      exists i :: 0 <= i < |ops| && ops[i].opcode != Get && 8 * (Needed(ops) - 1) < ops[i].offset + ops[i].bits
  {
    if ops != [] {
      var k := |ops| - 1;
      NeededIsLeast(ops[..k]);
      if Needed(ops) == Needed(ops[..k]) && Needed(ops) > 0 {
        var i :| 0 <= i < k && ops[..k][i].opcode != Get && 8 * (Needed(ops) - 1) < ops[..k][i].offset + ops[..k][i].bits;
        assert ops[i] == ops[..k][i];
      } else if Needed(ops) > 0 {
        assert ops[k].opcode != Get && 8 * (Needed(ops) - 1) < ops[k].offset + ops[k].bits;
      }
    }
  }

  class Bitmap {
    var str: array<bv8>

    constructor ()
      ensures fresh(str) && str.Length == 0
    {
      str := new bv8[0];
    }

    /** sdsgrowzero. */
    method GrowZero(n: nat)
      modifies this
      ensures str[..] == Grown(old(str[..]), n) && (str == old(str) || fresh(str))
    {
      if str.Length < n {
        var was := str;
        str := new bv8[n](i requires 0 <= i reads was => if i < was.Length then was[i] else 0);
      }
    }

    method CopyNine(byte: nat) returns (buf: seq<bv8>)
      ensures Copied(str[..], buf, byte)
    {
      var b := new bv8[9](_ => 0);
      var i := 0;
      while i < 9
        invariant 0 <= i <= 9 && fresh(b)
        invariant forall k :: 0 <= k < i ==> b[k] == if byte + k < str.Length then str[byte + k] else 0
        invariant forall k :: i <= k < 9 ==> b[k] == 0
      {
        if i + byte >= str.Length {
          break;
        }
        b[i] := str[i + byte];
        i := i + 1;
      }
      buf := b[..];
    }

    method ExecGet(op: FieldOp) returns (reply: Reply)
      requires OpOk(op)
      ensures reply == Int(Read(str[..], op))
    {
      hide FieldValue, Words.Pow2;
      var byte := op.offset / 8;
      var buf := CopyNine(byte);
      CopiedField(str[..], buf, op);
      if op.signed {
        var val := GetSigned(buf, op.offset - byte * 8, op.bits);
        reply := Int(val);
      } else {
        var val := GetUnsigned(buf, op.offset - byte * 8, op.bits);
        reply := Int(val);
      }
    }

    method ExecSigned(op: FieldOp) returns (reply: Reply)
      requires OpOk(op) && op.opcode != Get && op.signed && op.offset + op.bits <= 8 * str.Length
      modifies str
      ensures Does(old(str[..]), op, reply, str[..])
    {
      hide FieldValue, FieldWritten, Words.Pow2, WrapSigned, ToU64;
      RangeOfRead(str[..], op);
      Powers(op.bits);
      var prior := GetSigned(str[..], op.offset, op.bits);
      var newval, retval, overflow, wrapped;
      if op.opcode == IncrBy {
        overflow, wrapped := CheckSigned(prior, op.value, op.bits, op.owtype);
        newval := if overflow != 0 then wrapped else prior + op.value;
        retval := newval;
      } else {
        newval := op.value;
        overflow, wrapped := CheckSigned(newval, 0, op.bits, op.owtype);
        if overflow != 0 {
          newval := wrapped;
        }
        retval := prior;
      }
      if overflow != 0 && op.owtype == Fail {
        return None;
      }
      reply := Int(retval);
      SetSigned(str, op.offset, op.bits, newval);
    }

    method ExecUnsigned(op: FieldOp) returns (reply: Reply)
      requires OpOk(op) && op.opcode != Get && !op.signed && op.offset + op.bits <= 8 * str.Length
      modifies str
      ensures Does(old(str[..]), op, reply, str[..])
    {
      hide FieldValue, FieldWritten, Words.Pow2, ToU64;
      RangeOfRead(str[..], op);
      Powers(op.bits);
      var prior := GetUnsigned(str[..], op.offset, op.bits);
      var newval: nat, retval: nat, overflow, wrapped;
      if op.opcode == IncrBy {
        newval := ToU64(prior + op.value);
        overflow, wrapped := CheckUnsigned(prior, op.value, op.bits, op.owtype);
        SmallU64(prior + op.value);
        if overflow != 0 {
          newval := wrapped;
        }
        retval := newval;
      } else {
        newval := ToU64(op.value);
        overflow, wrapped := CheckUnsigned(newval, 0, op.bits, op.owtype);
        if overflow != 0 {
          newval := wrapped;
        }
        retval := prior;
      }
      if overflow != 0 && op.owtype == Fail {
        return None;
      }
      reply := Int(retval);
      WrappedBelow(op, prior);
      SmallU64(newval);
      SetUnsigned(str, op.offset, op.bits, newval);
    }
  }

  // ---- The whole command --------------------------------------------------------------------

  predicate ReadOnly(ops: seq<FieldOp>) {
    forall op :: op in ops ==> op.opcode == Get
  }

  /** `trace` holds the bitmap before the first operation and after each. */
  ghost predicate Run(trace: seq<seq<bv8>>, ops: seq<FieldOp>, replies: seq<Reply>)
    requires forall op :: op in ops ==> OpOk(op)
  {
    && |trace| == |ops| + 1 && |replies| == |ops|
    && forall j :: 0 <= j < |ops| ==> Does(trace[j], ops[j], replies[j], trace[j + 1])
  }

  /** BITFIELD, and BITFIELD_RO which refuses writes: the operations run in order on
      the grown bitmap, each reply telling what its operation saw and did. */
  method BitfieldGeneric(o: Bitmap, ops: seq<FieldOp>, ro: bool)
    returns (ok: bool, replies: seq<Reply>, ghost trace: seq<seq<bv8>>)
    requires forall op :: op in ops ==> OpOk(op)
    modifies o, o.str
    ensures ok == (!ro || ReadOnly(ops))
    ensures !ok ==> o.str == old(o.str) && o.str[..] == old(o.str[..])
    ensures ok ==> Run(trace, ops, replies)
    ensures ok ==> trace[|ops|] == o.str[..]
    ensures ok ==> trace[0] == if ReadOnly(ops) then old(o.str[..]) else Grown(old(o.str[..]), Needed(ops))
  {
    hide Does, OpOk, Grown;
    var readonly, highest := WriteExtent(ops);
    replies, trace := [], [];
    if !readonly && ro {
      return false, replies, trace;
    }
    if !readonly {
      o.GrowZero(highest / 8 + 1);
    }
    ok := true;
    trace := [o.str[..]];
    ghost var str := o.str;
    GrownLength(old(o.str[..]), Needed(ops));
    for j := 0 to |ops|
      invariant o.str == str && (str == old(o.str) || fresh(str))
      invariant |replies| == j && |trace| == j + 1 && trace[j] == o.str[..]
      invariant trace[0] == if readonly then old(o.str[..]) else Grown(old(o.str[..]), Needed(ops))
      invariant forall k :: 0 <= k < j ==> Does(trace[k], ops[k], replies[k], trace[k + 1])
    {
      var op := ops[j];
      assert op in ops;
      var reply := ExecOne(o, op);
      replies, trace := replies + [reply], trace + [o.str[..]];
    }
  }

  lemma GrownLength(p: seq<bv8>, n: nat)
    ensures |Grown(p, n)| >= n
  {
  }

  /** What the parser notes of the writes. */
  method WriteExtent(ops: seq<FieldOp>) returns (readonly: bool, highest: nat)
    requires forall op :: op in ops ==> OpOk(op)
    ensures readonly == ReadOnly(ops)
    ensures !readonly ==> highest / 8 + 1 == Needed(ops)
  {
    readonly, highest := true, 0;
    for j := 0 to |ops|
      invariant readonly == forall k :: 0 <= k < j ==> ops[k].opcode == Get
      invariant if readonly then Needed(ops[..j]) == 0 && highest == 0 else highest / 8 + 1 == Needed(ops[..j])
    {
      var op := ops[j];
      assert op in ops;
      assert ops[..j + 1][..j] == ops[..j];
      if op.opcode != Get {
        readonly := false;
        if highest < op.offset + op.bits - 1 {
          highest := op.offset + op.bits - 1;
        }
      }
    }
    assert ops[..|ops|] == ops;
  }

  method ExecOne(o: Bitmap, op: FieldOp) returns (reply: Reply)
    requires OpOk(op) && (op.opcode != Get ==> op.offset + op.bits <= 8 * o.str.Length)
    modifies o.str
    ensures Does(old(o.str[..]), op, reply, o.str[..])
  {
    if op.opcode == Get {
      reply := o.ExecGet(op);
    } else if op.signed {
      reply := o.ExecSigned(op);
    } else {
      reply := o.ExecUnsigned(op);
    }
  }

  lemma SmallU64(x: int)
    ensures 0 <= x < U64 ==> ToU64(x) == x
  {
  }

  lemma WrappedBelow(op: FieldOp, prior: int)
    requires OpOk(op)
    ensures !op.signed ==> 0 <= WrapTo(Target(prior, op), op) < U64
  {
    Powers(op.bits);
    hide Words.Pow2;
  }
}
