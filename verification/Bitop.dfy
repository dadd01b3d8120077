/** BITOP (redislib-src/facade/bitmap.c): the eight operators over any number of
    bitmaps of any lengths, four words at a time and then byte by byte, proved
    against what each operator means for a bit. */
module Bitop {
  import opened Bits

  datatype Op = And | Or | Xor | Not | Diff | Diff1 | AndOr | One

  predicate DiffFamily(op: Op) {
    op == Diff || op == Diff1 || op == AndOr
  }

  /** The numbers of sources an operator takes. */
  predicate Accepts(op: Op, n: nat) {
    n >= 1 && (op == Not ==> n == 1) && (DiffFamily(op) ==> n >= 2)
  }

  // ---- What the operators mean ------------------------------------------------------------

  /** How many sources other than the first have bit `x`, among the first `n`. */
  function Others(srcs: seq<seq<bv8>>, x: nat, n: nat): (c: nat)
    requires n <= |srcs|
    ensures c <= (if n == 0 then 0 else n - 1)
  {
    if n <= 1 then 0 else Others(srcs, x, n - 1) + Bits.One(PadBit(srcs[n - 1], x))
  }

  /** The bit an operator gives for a bit of the first source and a number of set
      bits in the `n - 1` others. */
  predicate Wanted(op: Op, first: bool, others: nat, n: nat) {
    match op
    case And => first && others + 1 == n
    case Or => first || others > 0
    case Xor => (Bits.One(first) + others) % 2 == 1
    case Not => !first
    case Diff => first && others == 0
    case Diff1 => !first && others > 0
    case AndOr => first && others > 0
    case One => Bits.One(first) + others == 1
  }

  /** The operators in terms of the sources that have the bit. */
  lemma OperatorMeaning(srcs: seq<seq<bv8>>, x: nat)
    requires |srcs| > 0
    ensures var first, others, n := PadBit(srcs[0], x), Others(srcs, x, |srcs|), |srcs|;
      && (Wanted(And, first, others, n) <==> forall i :: 0 <= i < n ==> PadBit(srcs[i], x))
      && (Wanted(Or, first, others, n) <==> exists i :: 0 <= i < n && PadBit(srcs[i], x))
      && (Wanted(Xor, first, others, n) <==> |Holders(srcs, x, n)| % 2 == 1)
      && (Wanted(Not, first, others, n) <==> !PadBit(srcs[0], x))
      && (Wanted(Diff, first, others, n) <==> PadBit(srcs[0], x) && forall i :: 1 <= i < n ==> !PadBit(srcs[i], x))
      && (Wanted(Diff1, first, others, n) <==> !PadBit(srcs[0], x) && exists i :: 1 <= i < n && PadBit(srcs[i], x))
      && (Wanted(AndOr, first, others, n) <==> PadBit(srcs[0], x) && exists i :: 1 <= i < n && PadBit(srcs[i], x))
      && (Wanted(Op.One, first, others, n) <==> |Holders(srcs, x, n)| == 1)
  {
    hide PadBit;
    OthersCount(srcs, x, |srcs|);
  }

  /** The sources among the first `n` that have bit `x`. */
  function Holders(srcs: seq<seq<bv8>>, x: nat, n: nat): set<nat>
    requires n <= |srcs|
  {
    set i: nat | i < n && PadBit(srcs[i], x)
  }

  lemma {:induction false} OthersCount(srcs: seq<seq<bv8>>, x: nat, n: nat)
    requires 1 <= n <= |srcs|
    ensures |Holders(srcs, x, n)| == Bits.One(PadBit(srcs[0], x)) + Others(srcs, x, n)
    ensures Others(srcs, x, n) == 0 <==> forall i :: 1 <= i < n ==> !PadBit(srcs[i], x)
    ensures Others(srcs, x, n) == n - 1 <==> forall i :: 1 <= i < n ==> PadBit(srcs[i], x)
  {
    hide PadBit;
    if n == 1 {
      assert Holders(srcs, x, 1) == if PadBit(srcs[0], x) then {0} else {};
    } else {
      OthersCount(srcs, x, n - 1);
      OneHolder(srcs, x, n);
      hide Holders;
    }
  }

  lemma OneHolder(srcs: seq<seq<bv8>>, x: nat, n: nat)
    requires 1 < n <= |srcs|
    ensures |Holders(srcs, x, n)| == |Holders(srcs, x, n - 1)| + Bits.One(PadBit(srcs[n - 1], x))
  {
    hide PadBit;
    assert Holders(srcs, x, n) == Holders(srcs, x, n - 1) + if PadBit(srcs[n - 1], x) then {n - 1} else {};
  }

  // ---- What the passes compute, byte by byte ------------------------------------------------

  function Pad(s: seq<bv8>, p: nat): bv8 {
    if p < |s| then s[p] else 0
  }

  /** The operators of C on bytes; those on words act on each byte of a word. */
  function AndB(a: bv8, b: bv8): bv8 { a & b }

  function OrB(a: bv8, b: bv8): bv8 { a | b }

  function XorB(a: bv8, b: bv8): bv8 { a ^ b }

  function NotB(a: bv8): bv8 { !a }

  lemma OpBits(a: bv8, b: bv8, k: nat)
    requires k < 8
    ensures BitOf(AndB(a, b), k) == (BitOf(a, k) && BitOf(b, k))
    ensures BitOf(OrB(a, b), k) == (BitOf(a, k) || BitOf(b, k))
    ensures BitOf(XorB(a, b), k) == (BitOf(a, k) != BitOf(b, k))
    ensures BitOf(NotB(a), k) == !BitOf(a, k)
  {
    BitwiseOps(a, b, k);
    hide BitOf;
  }

  /** The word pass on one byte of a word: the running result and, for ONE, the bits
      seen more than once. */
  function Step(op: Op, acc: (bv8, bv8), b: bv8): (bv8, bv8) {
    match op
    case And => (AndB(acc.0, b), acc.1)
    case Or => (OrB(acc.0, b), acc.1)
    case Xor => (XorB(acc.0, b), acc.1)
    case Not => acc
    case Diff => (OrB(acc.0, b), acc.1)
    case Diff1 => (OrB(acc.0, b), acc.1)
    case AndOr => (OrB(acc.0, b), acc.1)
    case One => (XorB(acc.0, b), OrB(acc.1, AndB(acc.0, b)))
  }

  function Init(op: Op, first: bv8): (bv8, bv8) {
    (if DiffFamily(op) then 0 else first, 0)
  }

  function Finish(op: Op, first: bv8, acc: (bv8, bv8)): bv8 {
    match op
    case And => acc.0
    case Or => acc.0
    case Xor => acc.0
    case Not => NotB(acc.0)
    case Diff => AndB(first, NotB(acc.0))
    case Diff1 => AndB(NotB(first), acc.0)
    case AndOr => AndB(first, acc.0)
    case One => AndB(acc.0, NotB(acc.1))
  }

  /** Byte `p` after the first `n` sources. */
  function Fold(op: Op, srcs: seq<seq<bv8>>, p: nat, n: nat): (bv8, bv8)
    requires 1 <= n <= |srcs|
  {
    if n == 1 then Init(op, Pad(srcs[0], p)) else Step(op, Fold(op, srcs, p, n - 1), Pad(srcs[n - 1], p))
  }

  function Result(op: Op, srcs: seq<seq<bv8>>, p: nat): bv8
    requires |srcs| >= 1
  {
    Finish(op, Pad(srcs[0], p), Fold(op, srcs, p, |srcs|))
  }

  // ---- The bytes mean what they should -------------------------------------------------------

  lemma PadBitOf(s: seq<bv8>, p: nat, k: nat)
    requires k < 8
    ensures BitOf(Pad(s, p), k) == PadBit(s, 8 * p + k)
  {
    ByteIndex(p, k);
    assert BitOf(0, k) == false by { Bitwise0(k); }
    hide BitOf;
  }

  lemma Bitwise0(k: nat)
    requires k < 8
    ensures !BitOf(0, k)
  {
  }

  /** What a running result says of bit `k`. */
  ghost predicate BitState(op: Op, acc: (bv8, bv8), k: nat, first: bool, c: nat, n: nat)
    requires k < 8
  {
    match op
    case And => BitOf(acc.0, k) == (first && c + 1 == n)
    case Or => BitOf(acc.0, k) == (first || c > 0)
    case Xor => BitOf(acc.0, k) == ((Bits.One(first) + c) % 2 == 1)
    case Not => BitOf(acc.0, k) == first
    case Diff => BitOf(acc.0, k) == (c > 0)
    case Diff1 => BitOf(acc.0, k) == (c > 0)
    case AndOr => BitOf(acc.0, k) == (c > 0)
    case One =>
      BitOf(acc.0, k) == ((Bits.One(first) + c) % 2 == 1) && BitOf(acc.1, k) == (Bits.One(first) + c >= 2)
  }

  lemma StepState(op: Op, acc: (bv8, bv8), b: bv8, k: nat, first: bool, c: nat, n: nat)
    requires k < 8 && 1 <= n && c <= n - 1 && BitState(op, acc, k, first, c, n) && op != Not
    ensures BitState(op, Step(op, acc, b), k, first, c + Bits.One(BitOf(b, k)), n + 1)
  {
    hide BitOf, AndB, OrB, XorB, NotB;
    OpBits(acc.0, b, k);
    OpBits(acc.1, AndB(acc.0, b), k);
  }

  lemma {:induction false} FoldState(op: Op, srcs: seq<seq<bv8>>, p: nat, k: nat, n: nat)
    requires 1 <= n <= |srcs| && k < 8 && (op == Not ==> n == 1)
    ensures BitState(op, Fold(op, srcs, p, n), k, PadBit(srcs[0], 8 * p + k), Others(srcs, 8 * p + k, n), n)
  {
    hide BitOf, Step;
    if n == 1 {
      PadBitOf(srcs[0], p, k);
      Bitwise0(k);
    } else {
      FoldState(op, srcs, p, k, n - 1);
      PadBitOf(srcs[n - 1], p, k);
      StepState(op, Fold(op, srcs, p, n - 1), Pad(srcs[n - 1], p), k, PadBit(srcs[0], 8 * p + k),
                Others(srcs, 8 * p + k, n - 1), n - 1);
    }
  }

  lemma FinishState(op: Op, first: bv8, acc: (bv8, bv8), k: nat, c: nat, n: nat)
    requires k < 8 && BitState(op, acc, k, BitOf(first, k), c, n)
    ensures BitOf(Finish(op, first, acc), k) == Wanted(op, BitOf(first, k), c, n)
  {
    hide BitOf, AndB, OrB, XorB, NotB;
    OpBits(acc.0, NotB(acc.1), k);
    OpBits(acc.1, first, k);
    OpBits(first, acc.0, k);
    OpBits(first, NotB(acc.0), k);
    OpBits(NotB(first), acc.0, k);
  }

  /** Every bit of the result is the one its operator asks for. */
  lemma ResultBits(op: Op, srcs: seq<seq<bv8>>, p: nat, k: nat)
    requires Accepts(op, |srcs|) && k < 8
    ensures BitOf(Result(op, srcs, p), k) ==
      Wanted(op, PadBit(srcs[0], 8 * p + k), Others(srcs, 8 * p + k, |srcs|), |srcs|)
  {
    hide BitOf, Finish, Fold, Wanted, BitState, PadBit;
    FoldState(op, srcs, p, k, |srcs|);
    PadBitOf(srcs[0], p, k);
    FinishState(op, Pad(srcs[0], p), Fold(op, srcs, p, |srcs|), k, Others(srcs, 8 * p + k, |srcs|), |srcs|);
  }

  // ---- The word pass ------------------------------------------------------------------------

  /** Four 8-byte words. */
  const BLOCK: nat := 32

  /** The running result of the block of four words at `j`, after `i` sources. */
  ghost predicate BlockAt(op: Op, srcs: seq<seq<bv8>>, res: seq<bv8>, common: seq<bv8>, j: nat, i: nat)
    requires 1 <= i <= |srcs| && j + BLOCK <= |res| && |common| == BLOCK
  {
    forall p :: j <= p < j + BLOCK ==> (res[p], common[p - j]) == Fold(op, srcs, p, i)
  }

  ghost predicate SameOutside(was: seq<bv8>, now: seq<bv8>, j: nat, n: nat) {
    |now| == |was| && forall p :: 0 <= p < |was| && !(j <= p < j + n) ==> now[p] == was[p]
  }

  /** One source combined into the four words at `j`. */
  method CombineBlock(op: Op, ghost srcs: seq<seq<bv8>>, ghost i: nat, res: array<bv8>, common: array<bv8>, j: nat, src: seq<bv8>)
    requires 1 <= i < |srcs| && src == srcs[i] && j + BLOCK <= |src| && j + BLOCK <= res.Length
    requires common.Length == BLOCK && res != common && BlockAt(op, srcs, res[..], common[..], j, i)
    modifies res, common
    ensures BlockAt(op, srcs, res[..], common[..], j, i + 1)
    ensures SameOutside(old(res[..]), res[..], j, BLOCK)
  {
    hide Step;
    ghost var was := res[..];
    for t := 0 to BLOCK
      invariant forall p :: j <= p < j + t ==> (res[p], common[p - j]) == Fold(op, srcs, p, i + 1)
      invariant forall p :: j + t <= p < j + BLOCK ==> (res[p], common[p - j]) == Fold(op, srcs, p, i)
      invariant SameOutside(was, res[..], j, BLOCK)
    {
      var acc := Step(op, (res[j + t], common[t]), src[j + t]);
      res[j + t], common[t] := acc.0, acc.1;
    }
  }

  /** The four words at `j`; for NOT and ONE they are finished at once. */
  method Block(op: Op, srcs: seq<seq<bv8>>, res: array<bv8>, j: nat)
    requires Accepts(op, |srcs|) && j + BLOCK <= res.Length && forall i :: 0 <= i < |srcs| ==> j + BLOCK <= |srcs[i]|
    requires forall p :: j <= p < j + BLOCK ==> res[p] == Init(op, srcs[0][p]).0
    modifies res
    ensures SameOutside(old(res[..]), res[..], j, BLOCK)
    ensures forall p :: j <= p < j + BLOCK ==>
      res[p] == if DiffFamily(op) then Fold(op, srcs, p, |srcs|).0 else Result(op, srcs, p)
  {
    hide Step, SameOutside;
    var common := new bv8[BLOCK](_ => 0);
    ghost var was := res[..];
    assert SameOutside(was, was, j, BLOCK) by { SameSelf(was, j); }
    for i := 1 to |srcs|
      invariant BlockAt(op, srcs, res[..], common[..], j, i)
      invariant SameOutside(was, res[..], j, BLOCK)
    {
      ghost var now := res[..];
      CombineBlock(op, srcs, i, res, common, j, srcs[i]);
      SameTwice(was, now, res[..], j);
    }
    if op == Not || op == Op.One {
      FinishBlock(op, srcs, res, common, j, was);
    }
  }

  lemma SameSelf(was: seq<bv8>, j: nat)
    ensures SameOutside(was, was, j, BLOCK)
  {
  }

  lemma SameTwice(a: seq<bv8>, b: seq<bv8>, c: seq<bv8>, j: nat)
    requires SameOutside(a, b, j, BLOCK) && SameOutside(b, c, j, BLOCK)
    ensures SameOutside(a, c, j, BLOCK)
  {
  }

  method FinishBlock(op: Op, srcs: seq<seq<bv8>>, res: array<bv8>, common: array<bv8>, j: nat, ghost was: seq<bv8>)
    requires |srcs| >= 1 && j + BLOCK <= res.Length && j + BLOCK <= |srcs[0]| && res != common
    requires common.Length == BLOCK && BlockAt(op, srcs, res[..], common[..], j, |srcs|)
    requires SameOutside(was, res[..], j, BLOCK)
    modifies res
    ensures SameOutside(was, res[..], j, BLOCK)
    ensures forall p :: j <= p < j + BLOCK ==> res[p] == Result(op, srcs, p)
  {
    hide Fold, Finish;
    for t := 0 to BLOCK
      invariant forall p :: j <= p < j + t ==> res[p] == Result(op, srcs, p)
      invariant forall p :: j + t <= p < j + BLOCK ==> (res[p], common[p - j]) == Fold(op, srcs, p, |srcs|)
      invariant SameOutside(was, res[..], j, BLOCK)
    {
      res[j + t] := Finish(op, srcs[0][j + t], (res[j + t], common[t]));
    }
  }

  /** All whole blocks of the bytes that every source has. Only for the difference
      family are the blocks finished afterwards. */
  method WordPass(op: Op, srcs: seq<seq<bv8>>, res: array<bv8>, minlen: nat) returns (j: nat)
    requires Accepts(op, |srcs|) && minlen <= res.Length && forall i :: 0 <= i < |srcs| ==> minlen <= |srcs[i]|
    requires forall p :: 0 <= p < res.Length ==> res[p] == 0
    modifies res
    ensures j <= minlen && forall p :: 0 <= p < j ==> res[p] == Result(op, srcs, p)
  {
    hide Fold, Finish;
    j := 0;
    if minlen >= BLOCK {
      if !DiffFamily(op) {
        forall p | 0 <= p < minlen {
          res[p] := srcs[0][p];
        }
      }
      var left: nat := minlen;
      while left >= BLOCK
        invariant j + left == minlen
        invariant forall p :: j <= p < minlen ==> res[p] == Init(op, srcs[0][p]).0
        invariant forall p :: 0 <= p < j ==>
          res[p] == if DiffFamily(op) then Fold(op, srcs, p, |srcs|).0 else Result(op, srcs, p)
      {
        ghost var was := res[..];
        Block(op, srcs, res, j);
        BlockDone(op, srcs, was, res[..], j, minlen);
        j := j + BLOCK;
        left := left - BLOCK;
      }
      if DiffFamily(op) {
        for p := 0 to j
          invariant forall q :: 0 <= q < p ==> res[q] == Result(op, srcs, q)
          invariant forall q :: p <= q < j ==> res[q] == Fold(op, srcs, q, |srcs|).0
        {
          FinishFamily(op, srcs, p, res[p]);
          res[p] := Finish(op, srcs[0][p], (res[p], 0));
        }
      }
    }
  }

  lemma BlockDone(op: Op, srcs: seq<seq<bv8>>, was: seq<bv8>, now: seq<bv8>, j: nat, minlen: nat)
    requires |srcs| >= 1 && j + BLOCK <= minlen <= |was| && minlen <= |srcs[0]| && SameOutside(was, now, j, BLOCK)
    requires forall p :: j <= p < minlen ==> was[p] == Init(op, srcs[0][p]).0
    requires forall p :: 0 <= p < j ==>
      was[p] == if DiffFamily(op) then Fold(op, srcs, p, |srcs|).0 else Result(op, srcs, p)
    requires forall p :: j <= p < j + BLOCK ==>
      now[p] == if DiffFamily(op) then Fold(op, srcs, p, |srcs|).0 else Result(op, srcs, p)
    ensures forall p :: j + BLOCK <= p < minlen ==> now[p] == Init(op, srcs[0][p]).0
    ensures forall p :: 0 <= p < j + BLOCK ==>
      now[p] == if DiffFamily(op) then Fold(op, srcs, p, |srcs|).0 else Result(op, srcs, p)
  {
    hide Fold, Result;
  }

  /** The difference family does not look at the bits seen twice. */
  lemma FinishFamily(op: Op, srcs: seq<seq<bv8>>, p: nat, b: bv8)
    requires |srcs| >= 1 && DiffFamily(op) && p < |srcs[0]| && b == Fold(op, srcs, p, |srcs|).0
    ensures Finish(op, srcs[0][p], (b, 0)) == Result(op, srcs, p)
  {
    hide Fold, AndB, NotB;
  }

  // ---- The byte tail ---------------------------------------------------------------------------

  /** What the byte loop holds when the sources so far have come to `acc`; for ONE the
      bits seen twice are already taken out of the output. */
  predicate Holding(op: Op, first: bv8, acc: (bv8, bv8), output: bv8, disjunction: bv8, common: bv8) {
    if DiffFamily(op) then output == first && disjunction == acc.0
    else if op == Op.One then common == acc.1 && output == AndB(acc.0, NotB(acc.1))
    else if op == Not then output == NotB(acc.0)
    else output == acc.0
  }

  /** After `n` sources. */
  ghost predicate TailState(op: Op, srcs: seq<seq<bv8>>, j: nat, n: nat, output: bv8, disjunction: bv8, common: bv8)
    requires 1 <= n <= |srcs|
  {
    Holding(op, Pad(srcs[0], j), Fold(op, srcs, j, n), output, disjunction, common)
  }

  /** What one round of the byte loop makes of output, disjunction and common bits. */
  function Round(op: Op, o: bv8, d: bv8, c: bv8, b: bv8): (bv8, bv8, bv8) {
    match op
    case And => (AndB(o, b), d, c)
    case Or => (OrB(o, b), d, c)
    case Xor => (XorB(o, b), d, c)
    case Not => (o, d, c)
    case Diff => (o, OrB(d, b), c)
    case Diff1 => (o, OrB(d, b), c)
    case AndOr => (o, OrB(d, b), c)
    case One => (AndB(XorB(o, b), NotB(OrB(c, AndB(o, b)))), d, OrB(c, AndB(o, b)))
  }

  lemma SimpleRound(op: Op, first: bv8, acc: (bv8, bv8), o: bv8, d: bv8, c: bv8, b: bv8)
    requires op == And || op == Or || op == Xor || op == Not
    requires Holding(op, first, acc, o, d, c)
    ensures var r := Round(op, o, d, c, b); Holding(op, first, Step(op, acc, b), r.0, r.1, r.2)
  {
    hide AndB, OrB, XorB, NotB;
    match op
    case And =>
    case Or =>
    case Xor =>
    case Not =>
  }

  lemma DiffRound(op: Op, first: bv8, acc: (bv8, bv8), o: bv8, d: bv8, c: bv8, b: bv8)
    requires DiffFamily(op) && Holding(op, first, acc, o, d, c)
    ensures var r := Round(op, o, d, c, b); Holding(op, first, Step(op, acc, b), r.0, r.1, r.2)
  {
    hide AndB, OrB, XorB, NotB;
  }

  lemma OneRound(first: bv8, acc: (bv8, bv8), o: bv8, d: bv8, c: bv8, b: bv8)
    requires Holding(Op.One, first, acc, o, d, c)
    ensures var r := Round(Op.One, o, d, c, b); Holding(Op.One, first, Step(Op.One, acc, b), r.0, r.1, r.2)
  {
    OneStep(acc.0, acc.1, b);
    hide AndB, OrB, XorB, NotB;
  }

  lemma NextSource(op: Op, srcs: seq<seq<bv8>>, j: nat, n: nat, o: bv8, d: bv8, c: bv8)
    requires 1 <= n < |srcs| && TailState(op, srcs, j, n, o, d, c)
    ensures var r := Round(op, o, d, c, Pad(srcs[n], j)); TailState(op, srcs, j, n + 1, r.0, r.1, r.2)
  {
    hide Round, Holding, Step, Pad;
    var first, acc, b := Pad(srcs[0], j), Fold(op, srcs, j, n), Pad(srcs[n], j);
    if DiffFamily(op) {
      DiffRound(op, first, acc, o, d, c, b);
    } else if op == Op.One {
      OneRound(first, acc, o, d, c, b);
    } else {
      SimpleRound(op, first, acc, o, d, c, b);
    }
  }

  /** The masked output makes the same step as the unmasked one. */
  lemma OneStep(x: bv8, c: bv8, b: bv8)
    ensures var o := AndB(x, NotB(c));
      var c' := OrB(c, AndB(o, b));
      c' == OrB(c, AndB(x, b)) && AndB(XorB(o, b), NotB(c')) == AndB(XorB(x, b), NotB(c'))
  {
  }

  /** States no further source can change. */
  predicate Settled(op: Op, output: bv8, disjunction: bv8, common: bv8) {
    || (op == And && output == 0)
    || (op == Or && output == 255)
    || (DiffFamily(op) && disjunction == 255)
    || (op == Op.One && common == 255)
  }

  lemma SettledOps(b: bv8)
    ensures AndB(0, b) == 0 && OrB(255, b) == 255
  {
  }

  lemma MaskedOut(x: bv8)
    ensures AndB(x, NotB(255)) == 0
  {
  }

  /** A source does not change what is settled. */
  lemma SettledRound(op: Op, first: bv8, acc: (bv8, bv8), o: bv8, d: bv8, c: bv8, b: bv8)
    requires Holding(op, first, acc, o, d, c) && Settled(op, o, d, c)
    ensures Holding(op, first, Step(op, acc, b), o, d, c)
  {
    SettledOps(b);
    SettledOps(AndB(acc.0, b));
    MaskedOut(acc.0);
    MaskedOut(XorB(acc.0, b));
    hide AndB, OrB, XorB, NotB;
  }

  lemma {:induction false} StaysSettled(op: Op, srcs: seq<seq<bv8>>, j: nat, n: nat, m: nat, o: bv8, d: bv8, c: bv8)
    requires 1 <= n <= m <= |srcs| && TailState(op, srcs, j, n, o, d, c) && Settled(op, o, d, c)
    ensures TailState(op, srcs, j, m, o, d, c)
    decreases m - n
  {
    hide Holding, Settled, Step, Pad;
    if n < m {
      SettledRound(op, Pad(srcs[0], j), Fold(op, srcs, j, n), o, d, c, Pad(srcs[n], j));
      StaysSettled(op, srcs, j, n + 1, m, o, d, c);
    }
  }

  /** One byte of the tail, leaving the loop over the sources as soon as it may. */
  method TailByte(op: Op, srcs: seq<seq<bv8>>, j: nat) returns (b: bv8)
    requires Accepts(op, |srcs|)
    ensures b == Result(op, srcs, j)
  {
    hide AndB, OrB, XorB, NotB, TailState, Settled, Result, Round;
    var output: bv8 := if |srcs[0]| <= j then 0 else srcs[0][j];
    if op == Not { output := NotB(output); }
    var disjunction: bv8, commonBits: bv8 := 0, 0;
    var i := 1;
    FirstSource(op, srcs, j);
    while i < |srcs|
      invariant 1 <= i <= |srcs| && TailState(op, srcs, j, i, output, disjunction, commonBits)
    {
      var byteb: bv8 := if |srcs[i]| <= j then 0 else srcs[i][j];
      NextSource(op, srcs, j, i, output, disjunction, commonBits);
      output, disjunction, commonBits := TailRound(op, output, disjunction, commonBits, byteb);
      i := i + 1;
      if Settled(op, output, disjunction, commonBits) {
        StaysSettled(op, srcs, j, i, |srcs|, output, disjunction, commonBits);
        break;
      }
    }
    LastSource(op, srcs, j, output, disjunction, commonBits);
    b := match op
      case Diff => AndB(output, NotB(disjunction))
      case Diff1 => AndB(NotB(output), disjunction)
      case AndOr => AndB(output, disjunction)
      case _ => output;
  }

  /** The switch over the operators in it. */
  method TailRound(op: Op, o: bv8, d: bv8, c: bv8, byteb: bv8) returns (output: bv8, disjunction: bv8, commonBits: bv8)
    ensures (output, disjunction, commonBits) == Round(op, o, d, c, byteb)
  {
    hide AndB, OrB, XorB, NotB;
    output, disjunction, commonBits := o, d, c;
    match op {
      case And => output := AndB(output, byteb);
      case Or => output := OrB(output, byteb);
      case Xor => output := XorB(output, byteb);
      case Diff => disjunction := OrB(disjunction, byteb);
      case Diff1 => disjunction := OrB(disjunction, byteb);
      case AndOr => disjunction := OrB(disjunction, byteb);
      case One =>
        commonBits := OrB(commonBits, AndB(output, byteb));
        output := XorB(output, byteb);
        output := AndB(output, NotB(commonBits));
      case Not =>
    }
  }

  lemma FirstSource(op: Op, srcs: seq<seq<bv8>>, j: nat)
    requires |srcs| > 0
    ensures TailState(op, srcs, j, 1, if op == Not then NotB(Pad(srcs[0], j)) else Pad(srcs[0], j), 0, 0)
  {
    StartOne(Pad(srcs[0], j));
    hide AndB, OrB, XorB, NotB;
  }

  lemma LastSource(op: Op, srcs: seq<seq<bv8>>, j: nat, o: bv8, d: bv8, c: bv8)
    requires |srcs| > 0 && TailState(op, srcs, j, |srcs|, o, d, c)
    ensures Result(op, srcs, j) == match op
      case Diff => AndB(o, NotB(d))
      case Diff1 => AndB(NotB(o), d)
      case AndOr => AndB(o, d)
      case _ => o
  {
    hide AndB, OrB, XorB, NotB, Fold;
  }

  lemma StartOne(b: bv8)
    ensures AndB(b, NotB(0)) == b
  {
  }

  // ---- The whole command ----------------------------------------------------------------------

  function MaxLen(srcs: seq<seq<bv8>>): (n: nat)
    ensures forall i :: 0 <= i < |srcs| ==> |srcs[i]| <= n
    ensures |srcs| > 0 ==> exists i :: 0 <= i < |srcs| && |srcs[i]| == n
  {
    if srcs == [] then 0
    else
      var k := |srcs| - 1;
      var m := MaxLen(srcs[..k]);
      assert forall i :: 0 <= i < k ==> srcs[..k][i] == srcs[i];
      if |srcs[k]| > m then |srcs[k]| else if k == 0 then |srcs[0]| else m
  }

  /** BITOP. It is refused exactly for a wrong number of sources; otherwise the result
      is as long as the longest source, and each of its bits is what the operator
      means for that bit of the sources, which all go on with zeros. */
  method BitOp(op: Op, srcs: seq<seq<bv8>>) returns (ok: bool, res: array<bv8>)
    ensures ok == Accepts(op, |srcs|) && fresh(res)
    ensures ok ==> res.Length == MaxLen(srcs)
    ensures ok ==> forall x :: 0 <= x < 8 * res.Length ==>
      PadBit(res[..], x) == Wanted(op, PadBit(srcs[0], x), Others(srcs, x, |srcs|), |srcs|)
  {
    hide Wanted, Others, Fold, PadBit;
    res := new bv8[0];
    if (op == Not && |srcs| != 1) || (DiffFamily(op) && |srcs| < 2) || |srcs| == 0 {
      return false, res;
    }
    var maxlen: nat, minlen: nat := 0, 0;
    for j := 0 to |srcs|
      invariant forall i :: 0 <= i < j ==> |srcs[i]| <= maxlen && minlen <= |srcs[i]|
      invariant if j == 0 then maxlen == 0 else exists i :: 0 <= i < j && |srcs[i]| == maxlen
      invariant minlen <= maxlen
    {
      if |srcs[j]| > maxlen { maxlen := |srcs[j]|; }
      if j == 0 || |srcs[j]| < minlen { minlen := |srcs[j]|; }
    }
    if maxlen > 0 {
      res := new bv8[maxlen](_ => 0);
      var j := WordPass(op, srcs, res, minlen);
      while j < maxlen
        invariant j <= maxlen && forall p :: 0 <= p < j ==> res[p] == Result(op, srcs, p)
      {
        res[j] := TailByte(op, srcs, j);
        j := j + 1;
      }
    }
    forall x | 0 <= x < 8 * res.Length
      ensures PadBit(res[..], x) == Wanted(op, PadBit(srcs[0], x), Others(srcs, x, |srcs|), |srcs|)
    {
      ResultBits(op, srcs, x / 8, x % 8);
      PadBitOf(res[..], x / 8, x % 8);
    }
    ok := true;
  }
}
