/** dict.c: a hash table of two chained power-of-two tables that moves its
    entries from the old table to the new one a few buckets at a time. */
module RehashingDict {
  import opened Basics
  import opened Words
  import opened DictTable
  import opened Cursor
  import opened DictScan

  /** dictResizeEnable */
  datatype ResizeMode = Enable | Avoid | Forbid

  const INITIAL_EXP: nat := 2
  const INITIAL_SIZE: nat := 4
  const MIN_FILL: nat := 8
  const FORCE_RATIO: nat := 4

  /** The number of significant bits of `n`. */
  function BitLength(n: nat): (b: nat)
    ensures n < Pow2(b)
    ensures n > 0 ==> b > 0 && Pow2(b - 1) <= n
  {
    if n == 0 then 0 else 1 + BitLength(n / 2)
  }

  lemma Pow2Monotone(a: nat, b: nat)
    requires a <= b
    ensures Pow2(a) <= Pow2(b)
  {
    if a < b { Pow2Monotone(a, b - 1); }
  }

  lemma Pow2Strict(a: nat, b: nat)
    ensures Pow2(a) < Pow2(b) <==> a < b
  {
    if a < b { Pow2Monotone(a + 1, b); } else { Pow2Monotone(b, a); }
  }

  /** _dictNextExp for a `width`-bit long. */
  function NextExp(size: nat, width: nat): nat
    requires width >= 4
  {
    if size <= INITIAL_SIZE then INITIAL_EXP
    else if size >= Pow2(width - 1) - 1 then width - 1
    else BitLength(size - 1)
  }

  /** _dictResize's overflow test: too few buckets, or a table whose bytes do
      not fit a `width`-bit size_t. */
  predicate TooBig(e: nat, size: nat, width: nat) {
    Pow2(e) < size || Pow2(e) * 8 % Pow2(width) < Pow2(e)
  }

  lemma NextExpInRange(size: nat, width: nat)
    requires width >= 4
    ensures INITIAL_EXP <= NextExp(size, width) < width
  {
    NextExpIsLeast(size, width);
  }

  /** That is so for more than 2^(width - 4) entries. */
  lemma TooBigFrom(size: nat, width: nat)
    requires width >= 8
    ensures TooBig(NextExp(size, width), size, width) <==> size > Pow2(width - 4)
  {
    NextExpIsLeast(size, width);
    var e := NextExp(size, width);
    hide Pow2, NextExp;
    BytesFit(e, width);
    NextExpBound(size, width);
    Pow2Strict(e, width - 3);
    Pow2Strict(width - 4, e);
    if e <= width - 4 { Pow2Monotone(e, width - 4); }
  }

  lemma BytesFit(e: nat, width: nat)
    requires e < width && width >= 8
    ensures Pow2(e) * 8 % Pow2(width) < Pow2(e) <==> e > width - 4
  {
    assert Pow2(3) == 8;
    hide Pow2;
    Pow2Add(e, 3);
    if e <= width - 4 {
      Pow2Strict(e + 3, width);
      ModUnique(Pow2(e) * 8, Pow2(width), 0, Pow2(e) * 8);
    } else {
      Pow2Add(width, e + 3 - width);
      ModUnique(Pow2(e) * 8, Pow2(width), Pow2(e + 3 - width), 0);
    }
  }

  lemma NextExpBound(size: nat, width: nat)
    requires width >= 8
    ensures NextExp(size, width) <= width - 4 ==> size <= Pow2(NextExp(size, width))
    ensures size <= Pow2(width - 4) ==> NextExp(size, width) <= width - 4
  {
    NextExpIsLeast(size, width);
    assert Pow2(width - 1) == 2 * Pow2(width - 2) && Pow2(width - 2) == 2 * Pow2(width - 3);
    assert Pow2(width - 3) == 2 * Pow2(width - 4);
    Pow2Monotone(4, width - 4);
    assert Pow2(2) == 4 && Pow2(3) == 8 && Pow2(4) == 16;
    hide Pow2;
    if size > INITIAL_SIZE && size <= Pow2(width - 4) {
      Pow2Strict(BitLength(size - 1) - 1, width - 4);
    }
  }

  lemma InitialFits(size: nat, width: nat)
    requires width >= 8
    ensures size <= INITIAL_SIZE ==> NextExp(size, width) == INITIAL_EXP && !TooBig(INITIAL_EXP, size, width)
  {
    assert Pow2(8) == 256;
    Pow2Monotone(8, width);
    assert Pow2(2) == 4;
    ModUnique(32, Pow2(width), 0, 32);
  }

  /** Short of the width limit, the chosen table is the least power of two, from
      the initial size up, that has a bucket for each of `size` entries. */
  lemma NextExpIsLeast(size: nat, width: nat)
    requires width >= 4
    ensures INITIAL_EXP <= NextExp(size, width) < width
    ensures size < Pow2(width - 1) - 1 ==>
      forall e: nat :: INITIAL_EXP <= e && size <= Pow2(e) <==> NextExp(size, width) <= e
  {
    hide Pow2, BitLength;
    var r := NextExp(size, width);
    SmallPowers(width);
    Pow2Strict(2, r);
    Pow2Strict(r - 1, width - 1);
    if size < Pow2(width - 1) - 1 {
      forall e: nat ensures INITIAL_EXP <= e && size <= Pow2(e) <==> r <= e {
        Pow2Strict(e, r);
        Pow2Strict(e, 2);
        Pow2Strict(r - 1, e);
      }
    }
  }

  lemma SmallPowers(width: nat)
    requires width >= 4
    ensures Pow2(2) == 4 && Pow2(width - 1) >= 8
  {
    assert Pow2(3) == 8;
    Pow2Monotone(3, width - 1);
  }

  /** An expansion that is possible at all makes the table larger. */
  lemma GrownExp(e: nat, used: nat, width: nat)
    requires width >= 4 && used >= Pow2(e) && !TooBig(NextExp(used + 1, width), used + 1, width)
    ensures NextExp(used + 1, width) > e
  {
    Pow2Strict(e, NextExp(used + 1, width));
  }

  /** A contraction at the least load is always possible, and makes the table smaller. */
  lemma ShrunkExp(e: nat, used: nat, width: nat)
    requires 8 <= width && e < width && Pow2(e) > INITIAL_SIZE && used * MIN_FILL <= Pow2(e)
    ensures NextExp(used, width) < e && !TooBig(NextExp(used, width), used, width)
    ensures used == 0 ==> NextExp(used, width) == INITIAL_EXP
  {
    hide BitLength;
    InitialFits(used, width);
    Pow2Strict(2, e);
    assert Pow2(2) == 4;
    if used > INITIAL_SIZE {
      hide NextExp;
      EighthExp(e);
      Pow2Monotone(e - 3, width - 4);
      EighthExp(width - 1);
      assert Pow2(width) == 2 * Pow2(width - 1);
      hide Pow2;
      Pow2Strict(2, e - 3);
      NextExpIsLeast(used, width);
      var n := NextExp(used, width);
      Pow2Monotone(n, e - 3);
      assert Pow2(n) * 8 < Pow2(width);
      ModUnique(Pow2(n) * 8, Pow2(width), 0, Pow2(n) * 8);
    }
  }

  lemma SizePositive(e: int)
    requires e >= 0
    ensures Size(e) == Pow2(e) > 0
  {
  }

  lemma EighthExp(e: nat)
    ensures e >= 3 ==> Pow2(e) == 8 * Pow2(e - 3)
    ensures e < 5 ==> Pow2(e) <= 16
  {
    if e >= 3 {
      assert Pow2(e) == 2 * Pow2(e - 1) && Pow2(e - 1) == 2 * Pow2(e - 2) && Pow2(e - 2) == 2 * Pow2(e - 3);
    }
    assert Pow2(0) == 1 && Pow2(1) == 2 && Pow2(2) == 4 && Pow2(3) == 8 && Pow2(4) == 16;
  }

  /** Tables 0 and 1 share the entries out between them. */
  ghost predicate Shared(c: map<Key, Val>, m0: map<Key, Val>, m1: map<Key, Val>) {
    && (forall k :: k in c <==> k in m0 || k in m1)
    && (forall k :: k in m0 ==> c[k] == m0[k] && k !in m1)
    && (forall k :: k in m1 ==> c[k] == m1[k])
  }

  /** ... and ht_used counts them. */
  ghost predicate Splits(c: map<Key, Val>, m0: map<Key, Val>, m1: map<Key, Val>, u0: nat, u1: nat) {
    Shared(c, m0, m1) && u0 == |m0| && u1 == |m1|
  }

  lemma SplitsDrained(c: map<Key, Val>, m0: map<Key, Val>, m1: map<Key, Val>, u0: nat, u1: nat)
    requires Splits(c, m0, m1, u0, u1) && u0 == 0
    ensures Splits(c, m1, map[], u1, 0)
  {
    assert m0 == map[];
  }

  lemma SplitsAlone(c: map<Key, Val>, m0: map<Key, Val>, m1: map<Key, Val>, u0: nat, u1: nat)
    requires Splits(c, m0, m1, u0, u1) && m1 == map[]
    ensures u1 == 0 && c == m0
  {
  }

  lemma SplitsKeys(c: map<Key, Val>, m0: map<Key, Val>, m1: map<Key, Val>, u0: nat, u1: nat, k: Key)
    requires Splits(c, m0, m1, u0, u1)
    ensures k in c <==> k in m0 || k in m1
    ensures k in m0 ==> c[k] == m0[k] && k !in m1
    ensures k in m1 ==> c[k] == m1[k]
  {
  }

  lemma SplitsAdd(c: map<Key, Val>, m0: map<Key, Val>, m1: map<Key, Val>, u0: nat, u1: nat, k: Key, v: Val)
    requires Splits(c, m0, m1, u0, u1) && k !in c
    ensures k !in m0 && Splits(c[k := v], m0[k := v], m1, u0 + 1, u1)
    ensures k !in m1 && Splits(c[k := v], m0, m1[k := v], u0, u1 + 1)
  {
    CountAdded(m0, k, v);
    CountAdded(m1, k, v);
  }

  lemma SplitsAssign(c: map<Key, Val>, m0: map<Key, Val>, m1: map<Key, Val>, u0: nat, u1: nat, k: Key, v: Val)
    requires Splits(c, m0, m1, u0, u1)
    ensures k in m0 ==> Splits(c[k := v], m0[k := v], m1, u0, u1)
    ensures k in m1 ==> Splits(c[k := v], m0, m1[k := v], u0, u1)
  {
    if k in m0 { assert m0[k := v].Keys == m0.Keys; }
    if k in m1 { assert m1[k := v].Keys == m1.Keys; }
  }

  lemma SplitsRemove(c: map<Key, Val>, m0: map<Key, Val>, m1: map<Key, Val>, u0: nat, u1: nat, k: Key)
    requires Splits(c, m0, m1, u0, u1)
    ensures k in m0 ==> u0 > 0 && Splits(c - {k}, m0 - {k}, m1, u0 - 1, u1)
    ensures k in m1 ==> u1 > 0 && Splits(c - {k}, m0, m1 - {k}, u0, u1 - 1)
  {
    if k in m0 { CountRemoved(m0, k); }
    if k in m1 { CountRemoved(m1, k); }
  }

  lemma SplitsCounts(c: map<Key, Val>, m0: map<Key, Val>, m1: map<Key, Val>, u0: nat, u1: nat)
    requires Splits(c, m0, m1, u0, u1)
    ensures u0 + u1 == |c|
    ensures u0 == 0 <==> m0 == map[]
    ensures u1 == 0 <==> m1 == map[]
  {
    assert c.Keys == m0.Keys + m1.Keys;
  }

  lemma CountRemoved(m: map<Key, Val>, k: Key)
    requires k in m
    ensures |m| > 0 && |m - {k}| == |m| - 1
  {
    assert (m - {k}).Keys == m.Keys - {k};
  }

  lemma CountAdded(m: map<Key, Val>, k: Key, v: Val)
    requires k !in m
    ensures |m[k := v]| == |m| + 1
  {
    assert m[k := v].Keys == m.Keys + {k};
  }

  lemma SharedMove(c: map<Key, Val>, m0: map<Key, Val>, m1: map<Key, Val>, k: Key)
    requires Shared(c, m0, m1) && k in m0
    ensures Shared(c, m0 - {k}, m1[k := m0[k]])
  {
  }

  lemma SplitsMove(c: map<Key, Val>, m0: map<Key, Val>, m1: map<Key, Val>, u0: nat, u1: nat, k: Key)
    requires Splits(c, m0, m1, u0, u1) && k in m0
    ensures u0 > 0 && k !in m1 && Splits(c, m0 - {k}, m1[k := m0[k]], u0 - 1, u1 + 1)
  {
    CountRemoved(m0, k);
    CountAdded(m1, k, m0[k]);
    SharedMove(c, m0, m1, k);
  }

  /** The first `n` buckets are empty. */
  ghost predicate Cleared(t: seq<Link>, n: int) {
    forall i :: 0 <= i < n && i < |t| ==> t[i] == Null
  }

  lemma StepOver(t: seq<Link>, n: nat)
    requires Cleared(t, n) && n < |t| && t[n] == Null
    ensures Cleared(t, n + 1)
  {
  }

  lemma ClearedFrame(t: seq<Link>, t': seq<Link>, n: int)
    requires Cleared(t, n) && |t'| == |t|
    requires forall i :: 0 <= i < |t| && t[i] == Null ==> t'[i] == Null
    ensures Cleared(t', n)
  {
  }

  /** Only a table with entries has non-empty buckets. */
  lemma FilledBucket(t: seq<Link>, e: int, w: nat, noValue: bool, m: map<Key, Val>, i: nat)
    requires TableOk(t, e, w, noValue, m) && i < |t| && t[i] != Null
    ensures t[i].key in m
  {
    assert BucketOk(t[i], i, e, w, m);
    assert t[i].key in KeysOf(t[i]);
    AgreesKeys(t[i], m);
  }

  /** The non-empty buckets from `a` up to `b`. */
  function Filled(t: seq<Link>, a: nat, b: nat): (n: nat)
    requires a <= b <= |t|
  {
    if a == b then 0 else Filled(t, a, b - 1) + if t[b - 1] == Null then 0 else 1
  }

  lemma FilledNext(t: seq<Link>, a: nat, b: nat)
    requires a <= b < |t|
    ensures Filled(t, a, b + 1) == Filled(t, a, b) + if t[b] == Null then 0 else 1
  {
  }

  lemma {:induction false} FilledTail(t: seq<Link>, a: nat, p: nat, b: nat)
    requires a <= p <= b <= |t| && forall i :: p <= i < b ==> t[i] == Null
    ensures Filled(t, a, b) == Filled(t, a, p)
  {
    if p < b {
      FilledTail(t, a, p, b - 1);
    }
  }

  /** Rehashing has gone from bucket `start` of `t0` to `p`, past `moved` filled buckets
      and `empty` empty ones, and has not touched those after. */
  ghost predicate Visited(t0: seq<Link>, start: nat, t: seq<Link>, p: int, moved: int, empty: int) {
    && start <= p <= |t0| == |t| && t[p..] == t0[p..]
    && Filled(t0, start, p) == moved && p - start - moved == empty
  }

  /** How far a call for `n` buckets goes: past `n` filled buckets, or past 10n empty ones. */
  ghost predicate Went(t0: seq<Link>, start: int, t: seq<Link>, p: nat, n: nat) {
    && start >= 0
    && exists moved, empty :: Visited(t0, start, t, p, moved, empty) && moved <= n && (moved == n || empty == 10 * n > 0)
  }

  /** A call for `n` buckets was enough for all that were left from `start` on. */
  ghost predicate Drained(t0: seq<Link>, start: int, n: nat) {
    0 <= start <= |t0| && Filled(t0, start, |t0|) <= n
  }

  lemma VisitedNone(t: seq<Link>, start: nat)
    requires start <= |t|
    ensures Visited(t, start, t, start, 0, 0)
  {
  }

  /** One more bucket, which may be emptied while it is visited. */
  lemma VisitedNext(t0: seq<Link>, start: nat, t: seq<Link>, t': seq<Link>, p: int, moved: int, empty: int)
    requires Visited(t0, start, t, p, moved, empty) && 0 <= p < |t| == |t'|
    requires forall i :: p < i < |t| ==> t'[i] == t[i]
    ensures if t[p] == Null then Visited(t0, start, t', p + 1, moved, empty + 1)
            else Visited(t0, start, t', p + 1, moved + 1, empty)
  {
    FilledNext(t0, start, p);
    assert t[p..][0] == t0[p..][0];
    forall i | p < i < |t| ensures t[i] == t0[i] {
      assert t[p..][i - p] == t0[p..][i - p];
    }
  }

  lemma WentFar(t0: seq<Link>, start: nat, t: seq<Link>, p: nat, n: nat, moved: int, empty: int)
    requires Visited(t0, start, t, p, moved, empty) && moved <= n && (moved == n || empty == 10 * n > 0)
    ensures Went(t0, start, t, p, n)
  {
  }

  /** Moving the head `de` of what is left of bucket `idx` to the other table
      keeps both tables well formed and the entries shared out between them. */
  lemma MoveEntry(c: map<Key, Val>, u0: nat, u1: nat,
                  t0: seq<Link>, e0: int, m0: map<Key, Val>, t1: seq<Link>, e1: int, m1: map<Key, Val>,
                  w: nat, noValue: bool, idx: nat, de: Link)
    requires idx < |t0| && t0[idx] == de != Null && e1 >= 0
    requires TableOk(t0, e0, w, noValue, m0) && TableOk(t1, e1, w, noValue, m1)
    requires Splits(c, m0, m1, u0, u1)
    ensures de.key in m0 && u0 > 0 && (noValue ==> HeadVal(de) == NO_VALUE)
    ensures TableOk(t0[idx := Next(de)], e0, w, noValue, m0 - {de.key})
    ensures |de.key.hash| == w && e1 <= w && Size(e1) > 0
    ensures var h := Bucket(de.key.hash, e1);
      && h < |t1|
      && TableOk(t1[h := Push(noValue, de.key, HeadVal(de), t1[h])], e1, w, noValue, m1[de.key := HeadVal(de)])
      && (e1 <= e0 ==> idx % Size(e1) == h)
    ensures Splits(c, m0 - {de.key}, m1[de.key := HeadVal(de)], u0 - 1, u1 + 1)
  {
    hide Bucket, Splits;
    assert BucketOk(t0[idx], idx, e0, w, m0) && Tagged(t0[idx], noValue);
    assert Unlink(de, de.key) == Next(de);
    SplitsMove(c, m0, m1, u0, u1, de.key);
    TableRemove(t0, e0, w, noValue, m0, de.key);
    TablePush(t1, e1, w, noValue, m1, de.key, HeadVal(de));
    if e1 <= e0 { ShrunkBucket(de.key.hash, e1, e0); }
  }

  /** The bucket of a key in a table of 2^e buckets, if it can have one. */
  function SlotIn(e: int, k: Key): int {
    if 0 <= e <= |k.hash| then Bucket(k.hash, e) else -1
  }

  class Dict {
    const width: nat        // bits of an unsigned long
    ghost const logWidth: nat
    const noValue: bool     // the no_value type flag
    var table0: array<Link>
    var table1: array<Link>
    var exp0: int
    var exp1: int
    var used0: nat
    var used1: nat
    var rehashidx: int
    var pauserehash: int
    var pauseAutoResize: int
    var canResize: ResizeMode     // the dict_can_resize setting
    var resizeAllowed: bool       // what the type's resizeAllowed callback answers
    ghost var m0: map<Key, Val>   // the entries of table 0
    ghost var m1: map<Key, Val>   // the entries of table 1
    ghost var contents: map<Key, Val>   // the finite map the dict stands for

    ghost predicate Valid()
      reads this, table0, table1
    {
      && width >= 8 && width == Pow2(logWidth)
      && table0 != table1
      && TableOk(table0[..], exp0, width, noValue, m0)
      && TableOk(table1[..], exp1, width, noValue, m1)
      && Splits(contents, m0, m1, used0, used1)
      && pauserehash >= 0
      && (exp0 == -1 || rehashidx == -1 ==> exp1 == -1 && rehashidx == -1)
      && (rehashidx != -1 ==>
        && exp0 >= 0 && exp1 >= 0 && exp0 != exp1
        && 0 <= rehashidx <= table0.Length
        && Cleared(table0[..], rehashidx))
    }

    predicate IsRehashing()
      reads this
    {
      rehashidx != -1
    }

    constructor (width: nat, ghost logWidth: nat, noValue: bool)
      requires width >= 8 && width == Pow2(logWidth)
      ensures Valid() && contents == map[]
      ensures fresh(table0) && fresh(table1)
      ensures exp0 == -1 && !IsRehashing() && pauserehash == 0 && pauseAutoResize == 0
      ensures this.width == width && this.noValue == noValue
    {
      this.width, this.logWidth, this.noValue := width, logWidth, noValue;
      table0, table1 := new Link[0], new Link[0];
      exp0, exp1 := -1, -1;
      used0, used1 := 0, 0;
      rehashidx, pauserehash, pauseAutoResize := -1, 0, 0;
      canResize, resizeAllowed := Enable, true;
      m0, m1, contents := map[], map[], map[];
    }

    // ---- Resizing -----------------------------------------------------------

    /** Allocating table 1 and pointing rehashidx at bucket 0 of table 0. */
    method StartRehash(newExp: nat)
      requires Valid() && !IsRehashing() && exp0 >= 0 && exp0 != newExp < width
      modifies this`table0, this`table1, this`exp0, this`exp1, this`used0, this`used1, this`rehashidx, this`m0, this`m1
      ensures Valid() && contents == old(contents)
      ensures table0 == old(table0) && fresh(table1)
      ensures rehashidx == 0 && exp1 == newExp && exp0 == old(exp0) && used0 == old(used0) && used1 == 0
      ensures m0 == old(m0) && m1 == map[]
    {
      hide TableOk, Splits, Pow2;
      NoTable(table1[..], exp1, width, noValue, m1);
      SplitsAlone(contents, m0, m1, used0, used1);
      table1 := new Link[Size(newExp)](_ => Null);
      exp1, used1, m1, rehashidx := newExp, 0, map[], 0;
      EmptyTable(table1[..], exp1, width, noValue);
    }

    /** The first table of a dict that has none. */
    method FirstTable(newExp: nat)
      requires Valid() && exp0 == -1 && newExp < width
      modifies this`table0, this`table1, this`exp0, this`exp1, this`used0, this`used1, this`rehashidx, this`m0, this`m1
      ensures Valid() && contents == old(contents)
      ensures fresh(table0) && table1 == old(table1) && exp0 == newExp && used0 == 0 && !IsRehashing()
    {
      hide TableOk, Splits, Pow2, Cleared;
      NoTable(table0[..], exp0, width, noValue, m0);
      SplitsCounts(contents, m0, m1, used0, used1);
      table0 := new Link[Size(newExp)](_ => Null);
      exp0 := newExp;
      EmptyTable(table0[..], exp0, width, noValue);
    }

    /** Table 1 takes the place of the emptied table 0. */
    method Promote()
      requires Valid() && IsRehashing() && used0 == 0
      modifies this`table0, this`table1, this`exp0, this`exp1, this`used0, this`used1, this`rehashidx, this`m0, this`m1
      ensures Valid() && contents == old(contents)
      ensures table0 == old(table1) && fresh(table1)
      ensures !IsRehashing() && exp0 == old(exp1) && used0 == old(used1)
    {
      hide TableOk, Splits, Pow2, Cleared;
      SplitsDrained(contents, m0, m1, used0, used1);
      var none := new Link[0];
      EmptyTable(none[..], -1, width, noValue);
      table0, used0, exp0, m0 := table1, used1, exp1, m1;
      table1, used1, exp1, m1 := none, 0, -1, map[];
      rehashidx := -1;
    }

    // ---- Rehashing ----------------------------------------------------------

    /** rehashEntriesInBucketAtIndex */
    method RehashBucket(idx: nat)
      requires Valid() && IsRehashing() && idx < table0.Length
      modifies this`used0, this`used1, this`m0, this`m1, table0, table1
      ensures Valid() && contents == old(contents)
      ensures table0[idx] == Null && forall i :: 0 <= i < table0.Length && i != idx ==> table0[i] == old(table0[i])
    {
      hide TableOk, Splits, Bucket, Size;
      var de := table0[idx];
      ghost var t0 := table0[..];
      assert t0[idx := de] == t0;
      while de != Null
        invariant table0[..] == t0
        invariant TableOk(t0[idx := de], exp0, width, noValue, m0)
        invariant TableOk(table1[..], exp1, width, noValue, m1)
        invariant Splits(contents, m0, m1, used0, used1)
        decreases Length(de)
      {
        MoveEntry(contents, used0, used1, t0[idx := de], exp0, m0, table1[..], exp1, m1, width, noValue, idx, de);
        var nextde := Next(de);
        var h;
        if exp1 > exp0 {
          h := Bucket(de.key.hash, exp1);
        } else {
          h := idx % Size(exp1);
        }
        var moved: Link;
        if noValue {
          if table1[h] == Null {
            moved := BareKey(de.key);
          } else {
            moved := Node(de.key, NO_VALUE, table1[h]);
          }
        } else {
          moved := Node(de.key, HeadVal(de), table1[h]);
        }
        ghost var t1 := table1[..];
        table1[h] := moved;
        assert table1[..] == t1[h := moved];
        assert t0[idx := de][idx := nextde] == t0[idx := nextde];
        m0, m1 := m0 - {de.key}, m1[de.key := HeadVal(de)];
        used0, used1 := used0 - 1, used1 + 1;
        de := nextde;
      }
      table0[idx] := Null;
      assert table0[..] == t0[idx := Null];
    }

    /** Somewhere at or after rehashidx there is a bucket left to move. */
    lemma BucketLeft()
      requires Valid() && IsRehashing() && used0 != 0
      ensures exists i :: rehashidx <= i < table0.Length && table0[i] != Null
    {
      hide Bucket;
      assert m0 != map[];
      var k :| k in m0;
      var i := Bucket(k.hash, exp0);
      assert k in KeysOf(table0[..][i]);
      assert table0[..][i] != Null;
    }

    /** Rehashing is switched off, or should be avoided for so small a change. */
    predicate RehashingHeldBack()
      reads this
      requires exp0 >= -1 && exp1 >= -1
    {
      var s0, s1 := Size(exp0), Size(exp1);
      || canResize == Forbid
      || (canResize == Avoid &&
          ((s1 > s0 && s1 < FORCE_RATIO * s0) || (s1 < s0 && s0 < MIN_FILL * FORCE_RATIO * s1)))
    }

    /** By the numbers: a dict told to avoid resizing does not move entries while one table
        is less than four times the other, or 32 times when it shrinks. */
    lemma HeldBackMeaning()
      requires Valid() && IsRehashing()
      ensures canResize == Enable ==> !RehashingHeldBack()
      ensures canResize == Forbid ==> RehashingHeldBack()
      ensures canResize == Avoid && table1.Length > table0.Length ==>
        (RehashingHeldBack() <==> table1.Length < 4 * table0.Length)
      ensures canResize == Avoid && table1.Length < table0.Length ==>
        (RehashingHeldBack() <==> table0.Length < 32 * table1.Length)
    {
      hide Splits, Cleared, Pow2;
      NoTable(table0[..], exp0, width, noValue, m0);
      NoTable(table1[..], exp1, width, noValue, m1);
    }

    /** dictRehash: move up to `n` non-empty buckets, visiting at most 10n empty ones. */
    method Rehash(n: nat) returns (more: bool)
      requires Valid()
      modifies this`table0, this`table1, this`exp0, this`exp1, this`used0, this`used1, this`rehashidx, this`m0, this`m1, table0, table1
      ensures Valid() && contents == old(contents)
      ensures !old(IsRehashing()) || old(RehashingHeldBack()) ==>
        unchanged(this) && unchanged(table0) && unchanged(table1) && !more
      ensures old(IsRehashing() && !RehashingHeldBack()) ==> more == IsRehashing()
      ensures more ==>
        && rehashidx >= 0 && Went(old(table0[..]), old(rehashidx), table0[..], rehashidx, n)
        && (n > 0 ==> rehashidx > old(rehashidx))
      ensures old(IsRehashing() && !RehashingHeldBack()) && !more ==>
        table0 == old(table1) && exp0 == old(exp1) && Drained(old(table0[..]), old(rehashidx), n)
      ensures IsRehashing() ==> table0 == old(table0) && exp0 == old(exp0)
      ensures old(exp0) >= 0 ==> exp0 >= 0
      ensures fresh({table0, table1} - old({table0, table1}))
    {
      hide TableOk, Splits, Cleared, Size, Filled, Visited, Went, Drained;
      var emptyVisits := n * 10;
      NoTable(table0[..], exp0, width, noValue, m0);
      if !IsRehashing() || RehashingHeldBack() {
        return false;
      }
      var left: nat := n;
      ghost var t0, start: nat := table0[..], rehashidx;
      VisitedNone(t0, start);
      while left != 0 && used0 != 0
        invariant Valid() && contents == old(contents) && IsRehashing()
        invariant table0 == old(table0) && table1 == old(table1) && exp0 == old(exp0) && exp1 == old(exp1)
        invariant (left > 0 ==> emptyVisits > 0) && left <= n
        invariant Visited(t0, start, table0[..], rehashidx, n - left, 10 * n - emptyVisits)
        invariant rehashidx >= start && (left < n ==> rehashidx > start)
        decreases left
      {
        left := left - 1;
        emptyVisits := SkipEmpty(emptyVisits, t0, start, n - left - 1, 10 * n);
        if emptyVisits == 0 {
          WentFar(t0, start, table0[..], rehashidx, n, n - left - 1, 10 * n);
          return true;
        }
        ghost var t := table0[..];
        RehashBucket(rehashidx);
        VisitedNext(t0, start, t, table0[..], rehashidx, n - left - 1, 10 * n - emptyVisits);
        ClearedFrame(t, table0[..], rehashidx);
        StepOver(table0[..], rehashidx);
        rehashidx := rehashidx + 1;
      }
      if used0 == 0 {
        NothingFilled(t0, start, rehashidx, n);
        Promote();
        return false;
      }
      WentFar(t0, start, table0[..], rehashidx, n, n - left, 10 * n - emptyVisits);
      return true;
    }

    /** Steps over empty buckets; 0 when as many as allowed have been visited. */
    method SkipEmpty(visits: nat, ghost t0: seq<Link>, ghost start: nat, ghost moved: int, ghost allowed: nat)
      returns (left: nat)
      requires Valid() && IsRehashing() && used0 != 0 && visits > 0
      requires Visited(t0, start, table0[..], rehashidx, moved, allowed - visits)
      modifies this`rehashidx
      ensures Valid() && IsRehashing() && Visited(t0, start, table0[..], rehashidx, moved, allowed - left)
      ensures rehashidx < table0.Length || left == 0
      ensures left > 0 ==> table0[rehashidx] != Null
      ensures left == 0 ==> rehashidx > old(rehashidx)
      ensures rehashidx >= old(rehashidx)
    {
      hide TableOk, Splits, Cleared, Size, Filled, Visited;
      left := visits;
      BucketLeft();
      while table0[rehashidx] == Null
        invariant Valid() && IsRehashing() && rehashidx >= old(rehashidx)
        invariant left > 0 && rehashidx < table0.Length
        invariant Visited(t0, start, table0[..], rehashidx, moved, allowed - left)
        decreases table0.Length - rehashidx
      {
        StepOver(table0[..], rehashidx);
        VisitedNext(t0, start, table0[..], table0[..], rehashidx, moved, allowed - left);
        rehashidx := rehashidx + 1;
        left := left - 1;
        BucketLeft();
        if left == 0 {
          return;
        }
      }
    }

    /** When table 0 is drained, nothing was filled beyond the buckets visited. */
    lemma NothingFilled(t0: seq<Link>, start: nat, p: nat, n: nat)
      requires Valid() && IsRehashing() && used0 == 0
      requires exists moved, empty :: Visited(t0, start, table0[..], p, moved, empty) && moved <= n
      ensures Drained(t0, start, n)
    {
      hide Bucket, TableOk, Splits, Cleared;
      SplitsCounts(contents, m0, m1, used0, used1);
      forall i | p <= i < |t0| ensures t0[i] == Null {
        assert t0[p..][i - p] == t0[i] && table0[..][p..][i - p] == table0[..][i];
        if table0[..][i] != Null {
          FilledBucket(table0[..], exp0, width, noValue, m0, i);
        }
      }
      FilledTail(t0, start, p, |t0|);
    }

    /** _dictBucketRehash */
    method BucketRehash(idx: nat)
      requires Valid() && idx < table0.Length
      modifies this`table0, this`table1, this`exp0, this`exp1, this`used0, this`used1, this`rehashidx, this`m0, this`m1, table0, table1
      ensures Valid() && contents == old(contents)
      ensures pauserehash != 0 || !old(IsRehashing()) || old(RehashingHeldBack()) ==>
        unchanged(this) && unchanged(table0) && unchanged(table1)
      ensures IsRehashing() ==> table0 == old(table0) && exp0 == old(exp0)
      ensures pauserehash == 0 && old(IsRehashing() && !RehashingHeldBack()) && IsRehashing() ==>
        && table0[idx] == Null && rehashidx == old(rehashidx)
        && forall i :: 0 <= i < table0.Length && i != idx ==> table0[i] == old(table0[i])
      ensures pauserehash == 0 && old(IsRehashing() && !RehashingHeldBack()) && !IsRehashing() ==>
        table0 == old(table1) && exp0 == old(exp1)
      ensures old(exp0) >= 0 ==> exp0 >= 0
      ensures fresh({table0, table1} - old({table0, table1}))
    {
      hide TableOk, Splits, Cleared, Size;
      if pauserehash != 0 || !IsRehashing() || RehashingHeldBack() {
        return;
      }
      RehashBucket(idx);
      if used0 == 0 {
        Promote();
      }
    }

    /** _dictRehashStepIfNeeded: a lookup moves the bucket it visits, or some other one. */
    method RehashStepIfNeeded(visitedIdx: nat)
      requires Valid() && (IsRehashing() ==> visitedIdx < table0.Length)
      modifies this`table0, this`table1, this`exp0, this`exp1, this`used0, this`used1, this`rehashidx, this`m0, this`m1, table0, table1
      ensures Valid() && contents == old(contents)
      ensures pauserehash != 0 || !old(IsRehashing()) || old(RehashingHeldBack()) ==>
        unchanged(this) && unchanged(table0) && unchanged(table1)
      ensures IsRehashing() ==> table0 == old(table0) && exp0 == old(exp0)
      ensures pauserehash == 0 && old(IsRehashing() && !RehashingHeldBack()) && IsRehashing() ==>
        if old(visitedIdx >= rehashidx && table0[visitedIdx] != Null) then
          table0[visitedIdx] == Null && rehashidx == old(rehashidx)
        else rehashidx > old(rehashidx)
      ensures old(IsRehashing()) && !IsRehashing() ==> table0 == old(table1)
      ensures old(exp0) >= 0 ==> exp0 >= 0
      ensures fresh({table0, table1} - old({table0, table1}))
    {
      hide TableOk, Splits, Cleared, Size, Filled, Went, Drained;
      if !IsRehashing() || pauserehash != 0 {
        return;
      }
      if visitedIdx >= rehashidx && table0[visitedIdx] != Null {
        BucketRehash(visitedIdx);
      } else {
        var _ := Rehash(1);
      }
    }

    // ---- Resize policy ------------------------------------------------------

    /** _dictResize would change the size. */
    predicate CanResizeTo(size: nat)
      requires width >= 4
      reads this`exp0
    {
      !TooBig(NextExp(size, width), size, width) && NextExp(size, width) != exp0
    }

    /** The load at which an insertion starts an expansion. */
    predicate WantsExpand()
      reads this
      requires exp0 >= -1
    {
      && ((canResize == Enable && used0 >= Size(exp0)) || (canResize != Forbid && used0 >= FORCE_RATIO * Size(exp0)))
      && resizeAllowed
    }

    /** The load at which a deletion starts a contraction. */
    predicate WantsShrink()
      reads this
      requires exp0 >= -1
    {
      && Size(exp0) > INITIAL_SIZE
      && ((canResize == Enable && used0 * MIN_FILL <= Size(exp0))
          || (canResize != Forbid && used0 * MIN_FILL * FORCE_RATIO <= Size(exp0)))
      && resizeAllowed
    }

    /** _dictResize */
    method Resize(size: nat) returns (ok: bool)
      requires Valid() && !IsRehashing()
      modifies this`table0, this`table1, this`exp0, this`exp1, this`used0, this`used1, this`rehashidx, this`m0, this`m1
      ensures Valid() && contents == old(contents)
      ensures !ok ==> unchanged(this)
      ensures ok && old(used0) == 0 ==> !IsRehashing() && used0 == 0 && exp0 == NextExp(size, width)
      ensures !ok <==> TooBig(NextExp(size, width), size, width) || NextExp(size, width) == old(exp0)
      ensures ok && old(used0) != 0 ==>
        && rehashidx == 0 && exp1 == NextExp(size, width) && used0 == old(used0)
        && table0 == old(table0) && exp0 == old(exp0) && m0 == old(m0) && m1 == map[]
      ensures fresh({table0, table1} - old({table0, table1}))
    {
      hide TableOk, Splits, Cleared, NextExp, Pow2, TooBig;
      var newExp := NextExp(size, width);
      NextExpInRange(size, width);
      if TooBig(newExp, size, width) {
        return false;
      }
      if newExp == exp0 {
        return false;
      }
      NoTable(table0[..], exp0, width, noValue, m0);
      NoTable(table1[..], exp1, width, noValue, m1);
      SplitsCounts(contents, m0, m1, used0, used1);
      if exp0 == -1 {
        FirstTable(newExp);
        return true;
      }
      StartRehash(newExp);
      if used0 == 0 {
        Promote();
      }
      return true;
    }

    /** dictExpand */
    method Expand(size: nat) returns (ok: bool)
      requires Valid()
      modifies this`table0, this`table1, this`exp0, this`exp1, this`used0, this`used1, this`rehashidx, this`m0, this`m1
      ensures Valid() && contents == old(contents)
      ensures !ok ==> unchanged(this)
      ensures ok <==> !old(IsRehashing()) && old(used0) <= size && old(Size(exp0)) < size && old(CanResizeTo(size))
      ensures ok && old(used0) == 0 ==> !IsRehashing() && used0 == 0 && exp0 == NextExp(size, width) && contents == map[]
      ensures ok && old(used0) != 0 ==>
        && rehashidx == 0 && exp1 == NextExp(size, width) && used0 == old(used0)
        && table0 == old(table0) && exp0 == old(exp0) && m0 == old(m0) && m1 == map[]
      ensures old(exp0) >= 0 ==> exp0 >= 0
      ensures old(exp0) == -1 && 0 < size <= INITIAL_SIZE ==> exp0 == INITIAL_EXP
      ensures fresh({table0, table1} - old({table0, table1}))
    {
      hide TableOk, Splits, Cleared, NextExp, TooBig, Pow2;
      NoTable(table0[..], exp0, width, noValue, m0);
      NoTable(table1[..], exp1, width, noValue, m1);
      SplitsCounts(contents, m0, m1, used0, used1);
      assert contents == map[] <==> |contents| == 0;
      if IsRehashing() || used0 > size || Size(exp0) >= size {
        return false;
      }
      InitialFits(size, width);
      ok := Resize(size);
    }

    /** dictShrink */
    method Shrink(size: nat) returns (ok: bool)
      requires Valid()
      modifies this`table0, this`table1, this`exp0, this`exp1, this`used0, this`used1, this`rehashidx, this`m0, this`m1
      ensures Valid() && contents == old(contents)
      ensures !ok ==> unchanged(this)
      ensures ok <==> !old(IsRehashing()) && old(used0) <= size < old(Size(exp0)) && old(CanResizeTo(size))
      ensures ok && old(used0) == 0 ==> !IsRehashing() && used0 == 0 && exp0 == NextExp(size, width) && contents == map[]
      ensures ok && old(used0) != 0 ==>
        && rehashidx == 0 && exp1 == NextExp(size, width) && used0 == old(used0)
        && table0 == old(table0) && exp0 == old(exp0) && m0 == old(m0) && m1 == map[]
      ensures fresh({table0, table1} - old({table0, table1}))
    {
      hide TableOk, Splits, Cleared, NextExp, TooBig, Pow2;
      NoTable(table0[..], exp0, width, noValue, m0);
      NoTable(table1[..], exp1, width, noValue, m1);
      SplitsCounts(contents, m0, m1, used0, used1);
      assert contents == map[] <==> |contents| == 0;
      if IsRehashing() || used0 > size || Size(exp0) <= size {
        return false;
      }
      ok := Resize(size);
    }

    lemma SizeOf4()
      ensures Size(INITIAL_EXP) == 4
    {
      assert Pow2(2) == 4;
    }

    /** `n` entries are no reason to grow: fewer than there are buckets, or four times as
        many while resizing is avoided, unless growth is not allowed or the table would
        be too big. */
    predicate WithinLoad(n: nat)
      reads this, table0
      requires width >= 4
    {
      resizeAllowed && canResize != Forbid ==>
        n < (if canResize == Enable then 1 else 4) * table0.Length || n + 1 > Pow2(width - 4)
    }

    /** And no reason to shrink: more than an eighth of the buckets, or a 32nd. */
    predicate NotSparse(n: nat)
      reads this, table0
    {
      resizeAllowed && canResize != Forbid ==>
        table0.Length <= 4 || (if canResize == Enable then 8 else 32) * n > table0.Length
    }

    /** Since `idx` was the index of the next bucket to move, it has gone on, or the bucket
        `b`, which held something, has been emptied. */
    predicate Progressed(idx: int, b: nat, filled: bool)
      reads this, table0
    {
      rehashidx > idx || (filled && b < table0.Length && table0[b] == Null)
    }

    /** A lookup or update has to move the rehashing on, and has not completed it. */
    predicate Steps(table: array<Link>, rehashing: bool)
      reads this
    {
      pauserehash == 0 && canResize == Enable && rehashing && IsRehashing() && table0 == table
    }

    function BucketOf(k: Key, e: int): nat {
      if 0 <= e <= |k.hash| then Bucket(k.hash, e) else 0
    }

    /** The bucket of `k` in table 0 holds something. */
    predicate Filled0(k: Key)
      reads this, table0
    {
      && 0 <= exp0 <= |k.hash| && Bucket(k.hash, exp0) < table0.Length
      && table0[Bucket(k.hash, exp0)] != Null
    }

    /** No entry has moved, whether or not the dict has begun to be resized. */
    ghost predicate Steady(e0: int, e1: int, n0: map<Key, Val>, n1: map<Key, Val>, rehashing: bool)
      reads this
    {
      exp0 == e0 && m0 == n0 && m1 == n1 && (rehashing ==> IsRehashing() && exp1 == e1)
    }

    /** The same but for the entries of `ks`, and values aside. */
    ghost predicate SteadyBut(ks: set<Key>, e0: int, e1: int, n0: map<Key, Val>, n1: map<Key, Val>, rehashing: bool)
      reads this
    {
      && exp0 == e0 && (rehashing ==> IsRehashing() && exp1 == e1)
      && (forall q :: q !in ks ==> (q in m0 <==> q in n0))
      && (forall q :: q !in ks ==> (q in m1 <==> q in n1))
    }

    /** dictExpandIfNeeded behind the pauseAutoResize test of _dictExpandIfNeeded. */
    method ExpandIfNeeded()
      requires Valid() && (exp0 == -1 ==> pauseAutoResize <= 0)
      modifies this`table0, this`table1, this`exp0, this`exp1, this`used0, this`used1, this`rehashidx, this`m0, this`m1
      ensures Valid() && contents == old(contents) && exp0 >= 0
      ensures pauseAutoResize > 0 || old(IsRehashing()) ==> unchanged(this)
      ensures pauseAutoResize <= 0 && old(exp0) == -1 ==> exp0 == INITIAL_EXP && !IsRehashing()
      ensures pauseAutoResize <= 0 && !old(IsRehashing()) && old(exp0) >= 0 ==>
        if old(WantsExpand()) && !TooBig(NextExp(used0 + 1, width), used0 + 1, width) then
          rehashidx == 0 && exp1 == NextExp(used0 + 1, width) > exp0
        else unchanged(this)
      ensures contents != map[] ==> Steady(old(exp0), old(exp1), old(m0), old(m1), old(IsRehashing()))
      ensures pauseAutoResize <= 0 && !IsRehashing() ==> WithinLoad(|contents|)
      ensures !old(IsRehashing()) && IsRehashing() ==> table0 == old(table0)
      ensures IsRehashing() && old(IsRehashing()) ==> unchanged(this)
      ensures fresh({table0, table1} - old({table0, table1}))
    {
      hide TableOk, Splits, Cleared, Pow2, NextExp, TooBig;
      NoTable(table0[..], exp0, width, noValue, m0);
      NoTable(table1[..], exp1, width, noValue, m1);
      SplitsCounts(contents, m0, m1, used0, used1);
      assert |contents| == 0 ==> contents == map[];
      TooBigFrom(used0 + 1, width);
      if pauseAutoResize > 0 || IsRehashing() {
        return;
      }
      if exp0 == -1 {
        InitialFits(INITIAL_SIZE, width);
        var _ := Expand(INITIAL_SIZE);
        NoTable(table0[..], exp0, width, noValue, m0);
        SizeOf4();
        return;
      }
      if (canResize == Enable && used0 >= Size(exp0))
         || (canResize != Forbid && used0 >= FORCE_RATIO * Size(exp0)) {
        if resizeAllowed {
          SizePositive(exp0);
          if !TooBig(NextExp(used0 + 1, width), used0 + 1, width) {
            GrownExp(exp0, used0, width);
          }
          var _ := Expand(used0 + 1);
        }
      }
    }

    /** dictShrinkIfNeeded behind the pauseAutoResize test of _dictShrinkIfNeeded. */
    method ShrinkIfNeeded()
      requires Valid() && exp0 >= 0
      modifies this`table0, this`table1, this`exp0, this`exp1, this`used0, this`used1, this`rehashidx, this`m0, this`m1
      ensures Valid() && contents == old(contents)
      ensures pauseAutoResize > 0 || old(IsRehashing()) || !old(WantsShrink()) ==> unchanged(this)
      ensures pauseAutoResize <= 0 && !old(IsRehashing()) && old(WantsShrink()) ==>
        if used0 != 0 then rehashidx == 0 && exp1 == NextExp(used0, width) < exp0
        else !IsRehashing() && exp0 == INITIAL_EXP
      ensures IsRehashing() && !old(IsRehashing()) ==>
        rehashidx == 0 && table0 == old(table0) && exp0 == old(exp0) && m0 == old(m0) && m1 == map[]
      ensures !IsRehashing() ==> unchanged(this) || contents == map[]
      ensures contents != map[] ==> Steady(old(exp0), old(exp1), old(m0), old(m1), old(IsRehashing()))
      ensures pauseAutoResize <= 0 && !IsRehashing() ==> NotSparse(|contents|)
      ensures fresh({table0, table1} - old({table0, table1}))
    {
      hide TableOk, Splits, Cleared, Pow2, NextExp, TooBig;
      NoTable(table0[..], exp0, width, noValue, m0);
      NoTable(table1[..], exp1, width, noValue, m1);
      SplitsCounts(contents, m0, m1, used0, used1);
      if pauseAutoResize > 0 || IsRehashing() || Size(exp0) <= INITIAL_SIZE {
        return;
      }
      if (canResize == Enable && used0 * MIN_FILL <= Size(exp0))
         || (canResize != Forbid && used0 * MIN_FILL * FORCE_RATIO <= Size(exp0)) {
        if resizeAllowed {
          SizePositive(exp0);
          ShrunkExp(exp0, used0, width);
          var _ := Shrink(used0);
          NoTable(table0[..], exp0, width, noValue, m0);
          SizeOf4();
        }
      }
    }

    // ---- The map operations -------------------------------------------------

    lemma Lookup0(k: Key)
      requires Valid() && |k.hash| == width && exp0 >= 0
      ensures exp0 < width
      ensures var b := Bucket(k.hash, exp0);
        && b < table0.Length && (k in KeysOf(table0[b]) <==> k in m0) && Agrees(table0[b], m0)
        && (b < rehashidx ==> k !in m0)
    {
      LookupHere(table0[..], exp0, width, noValue, m0, k);
    }

    lemma Lookup1(k: Key)
      requires Valid() && |k.hash| == width && IsRehashing()
      ensures 0 <= exp1 < width
      ensures var b := Bucket(k.hash, exp1);
        b < table1.Length && (k in KeysOf(table1[b]) <==> k in m1) && Agrees(table1[b], m1)
    {
      LookupHere(table1[..], exp1, width, noValue, m1, k);
    }

    /** What dictFindLinkForInsert does first: one rehashing step, and expansion by need. */
    method PrepareInsert(k: Key) returns (idx: nat)
      requires Valid() && |k.hash| == width && (exp0 == -1 ==> pauseAutoResize <= 0)
      modifies this`table0, this`table1, this`exp0, this`exp1, this`used0, this`used1, this`rehashidx, this`m0, this`m1, table0, table1
      ensures Valid() && contents == old(contents) && 0 <= exp0
      ensures IsRehashing() && idx < rehashidx ==> idx == Bucket(k.hash, exp0)
      ensures Steps(old(table0), old(IsRehashing())) ==>
        Progressed(old(rehashidx), BucketOf(k, old(exp0)), old(Filled0(k)))
      ensures pauseAutoResize <= 0 && !IsRehashing() ==> WithinLoad(|contents|)
      ensures pauserehash != 0 && contents != map[] ==> Steady(old(exp0), old(exp1), old(m0), old(m1), old(IsRehashing()))
      ensures fresh({table0, table1} - old({table0, table1}))
    {
      hide TableOk, Splits, Cleared, Bucket, Pow2;
      NoTable(table0[..], exp0, width, noValue, m0);
      idx := Bucket(k.hash, exp0);
      if IsRehashing() { Lookup0(k); }
      RehashStepIfNeeded(idx);
      ExpandIfNeeded();
    }

    /** Its search, in table 0 unless the bucket has been moved, then in table 1. */
    method SearchForInsert(k: Key, idx0: nat) returns (found: int, idx: nat)
      requires Valid() && |k.hash| == width && exp0 >= 0
      requires IsRehashing() && idx0 < rehashidx ==> idx0 == Bucket(k.hash, exp0)
      ensures found == (if k in m0 then 0 else if k in m1 then 1 else -1)
      ensures found == 0 || (found == -1 && !IsRehashing()) ==> idx == Bucket(k.hash, exp0)
      ensures found == 1 || (found == -1 && IsRehashing()) ==> exp1 >= 0 && idx == Bucket(k.hash, exp1)
    {
      hide TableOk, Splits, Cleared, Bucket, Pow2;
      NoTable(table1[..], exp1, width, noValue, m1);
      Lookup0(k);
      if !(idx0 < rehashidx) {
        idx := Bucket(k.hash, exp0);
        var he := SearchChain(table0[idx], k, m0);
        if he != Null {
          return 0, idx;
        }
        if !IsRehashing() {
          return -1, idx;
        }
      }
      Lookup1(k);
      idx := Bucket(k.hash, exp1);
      var he := SearchChain(table1[idx], k, m1);
      if he != Null {
        return 1, idx;
      }
      return -1, idx;
    }

    /** The index part of dictFindLinkForInsert: which table holds `k` (-1 if
        none does), and the bucket looked at last. */
    method FindLinkForInsert(k: Key) returns (found: int, idx: nat)
      requires Valid() && |k.hash| == width && (exp0 == -1 ==> pauseAutoResize <= 0)
      modifies this`table0, this`table1, this`exp0, this`exp1, this`used0, this`used1, this`rehashidx, this`m0, this`m1, table0, table1
      ensures Valid() && contents == old(contents) && 0 <= exp0
      ensures found == (if k in m0 then 0 else if k in m1 then 1 else -1)
      ensures found == 0 || (found == -1 && !IsRehashing()) ==> idx == Bucket(k.hash, exp0)
      ensures found == 1 || (found == -1 && IsRehashing()) ==> exp1 >= 0 && idx == Bucket(k.hash, exp1)
      ensures Steps(old(table0), old(IsRehashing())) ==>
        Progressed(old(rehashidx), BucketOf(k, old(exp0)), old(Filled0(k)))
      ensures pauseAutoResize <= 0 && !IsRehashing() ==> WithinLoad(|contents|)
      ensures pauserehash != 0 && contents != map[] ==> Steady(old(exp0), old(exp1), old(m0), old(m1), old(IsRehashing()))
      ensures fresh({table0, table1} - old({table0, table1}))
    {
      hide Dict.Valid, Dict.Steady, Bucket;
      idx := PrepareInsert(k);
      found, idx := SearchForInsert(k, idx);
    }

    /** dictInsertKeyAtLink, for a key that is not in the dict: new keys go to
        table 1 while rehashing. */
    method InsertKeyAtLink(k: Key, v: Val, idx: nat)
      requires Valid() && |k.hash| == width && exp0 >= 0 && k !in contents
      requires noValue ==> v == NO_VALUE
      requires if IsRehashing() then exp1 >= 0 && idx == Bucket(k.hash, exp1) else idx == Bucket(k.hash, exp0)
      modifies this`used0, this`used1, this`m0, this`m1, this`contents, table0, table1
      ensures Valid() && contents == old(contents)[k := v]
      ensures IsRehashing() ==> table0[..] == old(table0[..])
      ensures SteadyBut({k}, exp0, exp1, old(m0), old(m1), IsRehashing())
    {
      hide TableOk, Splits, Cleared, Bucket, Pow2;
      NoTable(table0[..], exp0, width, noValue, m0);
      NoTable(table1[..], exp1, width, noValue, m1);
      SplitsAdd(contents, m0, m1, used0, used1, k, v);
      if IsRehashing() {
        TablePush(table1[..], exp1, width, noValue, m1, k, v);
        ghost var t := table1[..];
        table1[idx] := Push(noValue, k, v, table1[idx]);
        assert table1[..] == t[idx := Push(noValue, k, v, t[idx])];
        used1, m1 := used1 + 1, m1[k := v];
      } else {
        TablePush(table0[..], exp0, width, noValue, m0, k, v);
        ghost var t := table0[..];
        table0[idx] := Push(noValue, k, v, table0[idx]);
        assert table0[..] == t[idx := Push(noValue, k, v, t[idx])];
        used0, m0 := used0 + 1, m0[k := v];
      }
      contents := contents[k := v];
    }

    /** dictAdd: fails, changing nothing, when the key is already there. */
    method Add(k: Key, v: Val) returns (ok: bool)
      requires Valid() && |k.hash| == width && (exp0 == -1 ==> pauseAutoResize <= 0)
      requires noValue ==> v == NO_VALUE
      modifies this`table0, this`table1, this`exp0, this`exp1, this`used0, this`used1, this`rehashidx, this`m0, this`m1, table0, table1, this`contents
      ensures Valid() && ok == (k !in old(contents))
      ensures contents == if ok then old(contents)[k := v] else old(contents)
      ensures Steps(old(table0), old(IsRehashing())) ==>
        Progressed(old(rehashidx), BucketOf(k, old(exp0)), old(Filled0(k)))
      ensures pauseAutoResize <= 0 && !IsRehashing() ==> WithinLoad(|old(contents)|)
      ensures pauserehash != 0 && old(contents) != map[] ==>
        SteadyBut(if k in old(contents) then {} else {k}, old(exp0), old(exp1), old(m0), old(m1), old(IsRehashing()))
      ensures fresh({table0, table1} - old({table0, table1}))
    {
      hide TableOk, Splits, Cleared, Bucket, Pow2;
      var found, idx := FindLinkForInsert(k);
      SplitsKeys(contents, m0, m1, used0, used1, k);
      if found != -1 {
        return false;
      }
      InsertKeyAtLink(k, v, idx);
      return true;
    }

    /** dictReplace: adds the key or overwrites its value; true when it was added. */
    method Replace(k: Key, v: Val) returns (added: bool)
      requires Valid() && !noValue && |k.hash| == width && (exp0 == -1 ==> pauseAutoResize <= 0)
      modifies this`table0, this`table1, this`exp0, this`exp1, this`used0, this`used1, this`rehashidx, this`m0, this`m1, table0, table1, this`contents
      ensures Valid() && added == (k !in old(contents))
      ensures contents == old(contents)[k := v]
      ensures Steps(old(table0), old(IsRehashing())) ==>
        Progressed(old(rehashidx), BucketOf(k, old(exp0)), old(Filled0(k)))
      ensures pauseAutoResize <= 0 && !IsRehashing() ==> WithinLoad(|old(contents)|)
      ensures pauserehash != 0 && old(contents) != map[] ==>
        SteadyBut(if k in old(contents) then {} else {k}, old(exp0), old(exp1), old(m0), old(m1), old(IsRehashing()))
      ensures fresh({table0, table1} - old({table0, table1}))
    {
      hide TableOk, Splits, Cleared, Bucket, Pow2;
      var found, idx := FindLinkForInsert(k);
      SplitsKeys(contents, m0, m1, used0, used1, k);
      if found == -1 {
        InsertKeyAtLink(k, v, idx);
        return true;
      }
      if found == 0 {
        AssignEntry0(k, v, idx);
      } else {
        AssignEntry1(k, v, idx);
      }
      return false;
    }

    /** dictSetVal on an entry of table 0, and on one of table 1. */
    method AssignEntry0(k: Key, v: Val, idx: nat)
      requires Valid() && exp0 >= 0 && !noValue && k in m0 && idx == Bucket(k.hash, exp0)
      modifies this`m0, this`contents, table0
      ensures Valid() && contents == old(contents)[k := v] && m0 == old(m0)[k := v]
      ensures forall i :: 0 <= i < table0.Length && old(table0[i]) == Null ==> table0[i] == Null
    {
      hide TableOk, Splits, Cleared, Bucket, Pow2;
      SplitsAssign(contents, m0, m1, used0, used1, k, v);
      ghost var t := table0[..];
      TableSlot(t, exp0, width, noValue, m0, k);
      TableAssign(t, exp0, width, m0, k, v);
      table0[idx] := Assign(table0[idx], k, v);
      assert table0[..] == t[idx := Assign(t[idx], k, v)];
      ClearedFrame(t, table0[..], rehashidx);
      m0, contents := m0[k := v], contents[k := v];
    }

    method AssignEntry1(k: Key, v: Val, idx: nat)
      requires Valid() && exp1 >= 0 && !noValue && k in m1 && idx == Bucket(k.hash, exp1)
      modifies this`m1, this`contents, table1
      ensures Valid() && contents == old(contents)[k := v] && m1 == old(m1)[k := v]
    {
      hide TableOk, Splits, Cleared, Bucket, Pow2;
      SplitsAssign(contents, m0, m1, used0, used1, k, v);
      ghost var t := table1[..];
      TableSlot(t, exp1, width, noValue, m1, k);
      TableAssign(t, exp1, width, m1, k, v);
      table1[idx] := Assign(table1[idx], k, v);
      assert table1[..] == t[idx := Assign(t[idx], k, v)];
      m1, contents := m1[k := v], contents[k := v];
    }

    /** The search loop of dictFind and dictGenericDelete: one rehashing step,
        then table 0 unless the bucket has been moved, then table 1. */
    method Locate(k: Key) returns (table: int, idx: nat, at: Link)
      requires Valid() && |k.hash| == width
      modifies this`table0, this`table1, this`exp0, this`exp1, this`used0, this`used1, this`rehashidx, this`m0, this`m1, table0, table1
      ensures Valid() && contents == old(contents)
      ensures table == (if k in m0 then 0 else if k in m1 then 1 else -1)
      ensures table == 0 ==> exp0 >= 0 && idx == Bucket(k.hash, exp0)
      ensures table == 1 ==> exp0 >= 0 && exp1 >= 0 && idx == Bucket(k.hash, exp1)
      ensures table != -1 ==> at != Null && k in contents && HeadVal(at) == contents[k]
      ensures Steps(old(table0), old(IsRehashing())) && old(contents) != map[] ==>
        Progressed(old(rehashidx), BucketOf(k, old(exp0)), old(Filled0(k)))
      ensures old(IsRehashing()) && !IsRehashing() ==> table0 == old(table1)
      ensures pauserehash != 0 || !old(IsRehashing()) ==> unchanged(this) && unchanged(table0) && unchanged(table1)
      ensures fresh({table0, table1} - old({table0, table1}))
    {
      hide TableOk, Splits, Cleared, Bucket, Pow2;
      SplitsCounts(contents, m0, m1, used0, used1);
      NoTable(table0[..], exp0, width, noValue, m0);
      table, idx, at := -1, 0, Null;
      if used0 + used1 == 0 {
        return;
      }
      NoTable(table1[..], exp1, width, noValue, m1);
      idx := Bucket(k.hash, exp0);
      Lookup0(k);
      RehashStepIfNeeded(idx);
      NoTable(table1[..], exp1, width, noValue, m1);
      SplitsKeys(contents, m0, m1, used0, used1, k);
      Lookup0(k);
      if idx < rehashidx {
        assert idx == Bucket(k.hash, exp0);
      } else {
        idx := Bucket(k.hash, exp0);
        at := SearchChain(table0[idx], k, m0);
        if at != Null {
          table := 0;
          return;
        }
      }
      if IsRehashing() {
        Lookup1(k);
        idx := Bucket(k.hash, exp1);
        at := SearchChain(table1[idx], k, m1);
        if at != Null {
          table := 1;
        }
      }
    }

    /** dictFind */
    method Find(k: Key) returns (r: Option<Val>)
      requires Valid() && |k.hash| == width
      modifies this`table0, this`table1, this`exp0, this`exp1, this`used0, this`used1, this`rehashidx, this`m0, this`m1, table0, table1
      ensures Valid() && contents == old(contents)
      ensures r == if k in contents then Some(contents[k]) else None
      ensures Steps(old(table0), old(IsRehashing())) && old(contents) != map[] ==>
        Progressed(old(rehashidx), BucketOf(k, old(exp0)), old(Filled0(k)))
      ensures pauserehash != 0 ==> unchanged(this) && unchanged(table0) && unchanged(table1)
      ensures fresh({table0, table1} - old({table0, table1}))
    {
      hide TableOk, Cleared, Bucket, Pow2;
      var table, _, at := Locate(k);
      return if table == -1 then None else Some(HeadVal(at));
    }

    method UnlinkEntry0(k: Key, idx: nat)
      requires Valid() && exp0 >= 0 && k in m0 && idx == Bucket(k.hash, exp0)
      modifies this`used0, this`m0, this`contents, table0
      ensures Valid() && contents == old(contents) - {k} && m0 == old(m0) - {k}
      ensures forall i :: 0 <= i < table0.Length && old(table0[i]) == Null ==> table0[i] == Null
    {
      hide TableOk, Splits, Cleared, Bucket, Pow2, Size, Unlink;
      SplitsRemove(contents, m0, m1, used0, used1, k);
      ghost var t0 := table0[..];
      TableSlot(t0, exp0, width, noValue, m0, k);
      TableRemove(t0, exp0, width, noValue, m0, k);
      ghost var m, c := m0 - {k}, contents - {k};
      ghost var t := t0[idx := Unlink(t0[idx], k)];
      ClearedFrame(t0, t, rehashidx);
      table0[idx] := Unlink(table0[idx], k);
      assert table0[..] == t;
      used0, m0, contents := used0 - 1, m, c;
    }

    method UnlinkEntry1(k: Key, idx: nat)
      requires Valid() && exp1 >= 0 && k in m1 && idx == Bucket(k.hash, exp1)
      modifies this`used1, this`m1, this`contents, table1
      ensures Valid() && contents == old(contents) - {k} && m1 == old(m1) - {k}
    {
      hide TableOk, Splits, Cleared, Bucket, Pow2, Size, Unlink;
      SplitsRemove(contents, m0, m1, used0, used1, k);
      ghost var t1 := table1[..];
      TableRemove(t1, exp1, width, noValue, m1, k);
      ghost var m, c := m1 - {k}, contents - {k};
      ghost var t := t1[idx := Unlink(t1[idx], k)];
      table1[idx] := Unlink(table1[idx], k);
      assert table1[..] == t;
      used1, m1, contents := used1 - 1, m, c;
    }

    /** dictGenericDelete */
    method Delete(k: Key) returns (ok: bool)
      requires Valid() && |k.hash| == width
      modifies this`table0, this`table1, this`exp0, this`exp1, this`used0, this`used1, this`rehashidx, this`m0, this`m1, table0, table1, this`contents
      ensures Valid() && ok == (k in old(contents)) && contents == old(contents) - {k}
      ensures pauserehash != 0 && contents != map[] ==>
        && exp0 == old(exp0) && (old(IsRehashing()) ==> IsRehashing() && exp1 == old(exp1))
        && (forall q :: q in m0 <==> (q in old(m0) && q != k))
        && (forall q :: q in m1 <==> (q in old(m1) && q != k))
      ensures Steps(old(table0), old(IsRehashing())) && old(contents) != map[] ==>
        Progressed(old(rehashidx), BucketOf(k, old(exp0)), old(Filled0(k)))
      ensures ok && pauseAutoResize <= 0 && !IsRehashing() ==> NotSparse(|contents|)
      ensures fresh({table0, table1} - old({table0, table1}))
    {
      hide TableOk, Splits, Cleared, Bucket, Pow2, Dict.NotSparse, Dict.RehashingHeldBack, Dict.Filled0;
      var table, idx, _ := Locate(k);
      if table == -1 {
        AbsentKey(k);
        return false;
      }
      TakeOut(k, table, idx);
      return true;
    }

    /** What dictGenericDelete does with the entry it has located. */
    method TakeOut(k: Key, table: int, idx: nat)
      requires Valid() && |k.hash| == width && exp0 >= 0
      requires if table == 0 then k in m0 && idx == Bucket(k.hash, exp0)
               else table == 1 && exp1 >= 0 && k in m1 && k !in m0 && idx == Bucket(k.hash, exp1)
      modifies this`table0, this`table1, this`exp0, this`exp1, this`used0, this`used1, this`rehashidx, this`m0, this`m1, table0, table1, this`contents
      ensures Valid() && k in old(contents) && contents == old(contents) - {k}
      ensures contents != map[] ==>
        && exp0 == old(exp0) && (old(IsRehashing()) ==> IsRehashing() && exp1 == old(exp1))
        && m0 == old(m0) - {k} && m1 == old(m1) - {k}
      ensures IsRehashing() ==> table0 == old(table0) && (old(IsRehashing()) ==> rehashidx == old(rehashidx))
      ensures IsRehashing() ==> forall i :: 0 <= i < table0.Length && old(table0[i]) == Null ==> table0[i] == Null
      ensures pauseAutoResize <= 0 && !IsRehashing() ==> NotSparse(|contents|)
      ensures fresh({table0, table1} - old({table0, table1}))
    {
      hide Dict.Valid, Bucket, Dict.NotSparse, Dict.RehashingHeldBack, Dict.WantsShrink, NextExp;
      RemoveAt(k, table, idx);
      ShrinkIfNeeded();
    }

    lemma AbsentKey(k: Key)
      requires Valid() && k !in m0 && k !in m1
      ensures k !in contents && contents - {k} == contents && m0 - {k} == m0 && m1 - {k} == m1
    {
      hide TableOk, Cleared, Bucket, Pow2;
      SplitsKeys(contents, m0, m1, used0, used1, k);
      hide Splits, Dict.Valid;
      assert contents - {k} == contents;
      assert m0 - {k} == m0;
      assert m1 - {k} == m1;
    }

    /** Unlinks the entry that has been located. */
    method RemoveAt(k: Key, table: int, idx: nat)
      requires Valid() && |k.hash| == width && exp0 >= 0
      requires if table == 0 then k in m0 && idx == Bucket(k.hash, exp0)
               else table == 1 && exp1 >= 0 && k in m1 && k !in m0 && idx == Bucket(k.hash, exp1)
      modifies this`used0, this`used1, this`m0, this`m1, this`contents, table0, table1
      ensures Valid() && k in old(contents) && contents == old(contents) - {k}
      ensures m0 == old(m0) - {k} && m1 == old(m1) - {k}
      ensures forall i :: 0 <= i < table0.Length && old(table0[i]) == Null ==> table0[i] == Null
    {
      hide TableOk, Splits, Cleared, Bucket, Pow2, Unlink;
      SplitsKeys(contents, m0, m1, used0, used1, k);
      if table == 0 {
        UnlinkEntry0(k, idx);
        assert m1 - {k} == m1;
      } else {
        UnlinkEntry1(k, idx);
        assert m0 - {k} == m0;
      }
    }

    // ---- Scanning -----------------------------------------------------------

    ghost function Snapshot(): Tables
      reads this
    {
      Tables(exp0, exp1, m0.Keys, m1.Keys)
    }

    lemma SnapshotOk()
      requires Valid()
      ensures Snapshot().Ok(width)
      ensures forall k :: Snapshot().Has(k) <==> k in contents
      ensures used0 + used1 == 0 <==> forall k :: !Snapshot().Has(k)
    {
      hide Bucket, BucketOk, Cleared, Size;
      SplitsCounts(contents, m0, m1, used0, used1);
      if contents != map[] { var k :| k in contents; assert Snapshot().Has(k); }
    }

    /** `v |= ~m; v = rev(v); v++; v = rev(v)` */
    method Advance(v: Word, e: nat) returns (n: Word)
      requires Valid() && |v| == width && e <= width
      ensures n == NextCursor(v, e)
    {
      n := Or(v, Not(Mask(width, e)));
      n := Rev(n, logWidth);
      n := Inc(n);
      n := Rev(n, logWidth);
    }

    /** dictScan, with a callback that records the entries it is given. */
    method Scan(v: Word) returns (n: Word, emitted: seq<Key>)
      requires Valid() && |v| == width
      modifies this`pauserehash
      ensures Valid() && pauserehash == old(pauserehash)
      ensures |n| == width && Snapshot().Ok(width) && Scanned(Snapshot(), v, n, emitted)
    {
      hide TableOk, Splits, Cleared, Size, Scanned;
      SnapshotOk();
      if used0 + used1 == 0 {
        ScannedEmpty(Snapshot(), v);
        return Zeros(width), [];
      }
      pauserehash := pauserehash + 1;
      n, emitted := ScanTables(v);
      pauserehash := pauserehash - 1;
    }

    /** The work of one dictScan call on a dict that is not empty. */
    method ScanTables(v: Word) returns (n: Word, emitted: seq<Key>)
      requires Valid() && |v| == width && used0 + used1 != 0
      ensures |n| == width && Snapshot().Ok(width) && Scanned(Snapshot(), v, n, emitted)
    {
      hide TableOk, Splits, Cleared, Bucket, Pow2, NextCursor, Position, KeysOf, Size;
      SnapshotOk();
      NoTable(table0[..], exp0, width, noValue, m0);
      NoTable(table1[..], exp1, width, noValue, m1);
      if !IsRehashing() {
        assert exp0 >= 0;
        BucketHolds(table0[..], exp0, width, noValue, m0, v);
        emitted := ScanBucket(table0[Bucket(v, exp0)]);
        n := Advance(v, exp0);
      } else if exp0 > exp1 {
        n, emitted := ScanBoth(v, table1[..], exp1, m1, table0[..], exp0, m0);
      } else {
        n, emitted := ScanBoth(v, table0[..], exp0, m0, table1[..], exp1, m1);
      }
    }

    /** The rehashing half of dictScan: one bucket of the smaller table `s`,
        then all its expansions in the larger table `t`. */
    method ScanBoth(v: Word, s: seq<Link>, small: int, ghost ms: map<Key, Val>,
                    t: seq<Link>, large: int, ghost mt: map<Key, Val>) returns (n: Word, emitted: seq<Key>)
      requires Valid() && |v| == width && 0 <= small <= large < width
      requires TableOk(s, small, width, noValue, ms) && TableOk(t, large, width, noValue, mt)
      ensures n == NextCursor(v, small)
      ensures forall k :: k in emitted <==> (|k.hash| == width && k.hash[..small] == v[..small]
        && (k in ms || (k in mt && Position(v[..large]) <= Position(k.hash[..large]))))
    {
      hide TableOk, Splits, Cleared, Bucket, Pow2, NextCursor, Zeros, Aligned, Position, Walked, KeysOf;
      BucketHolds(s, small, width, noValue, ms, v);
      emitted := ScanBucket(s[Bucket(v, small)]);
      ghost var first := emitted;
      WalkedNone(v, small, large);
      n := v;
      while true
        invariant |n| == width && n[..small] == v[..small]
        invariant Position(v[..large]) <= Position(n[..large])
        invariant forall k :: k in emitted <==>
          (k in first || (k in mt && |k.hash| == width && Walked(v, n, small, large, k.hash)))
        decreases Pow2(width) - Position(n)
      {
        ghost var cur := n;
        BucketHolds(t, large, width, noValue, mt, n);
        var more := ScanBucket(t[Bucket(n, large)]);
        emitted := emitted + more;
        n := Advance(n, large);
        if Aligned(n, small, large) {
          WalkEnd(v, cur, small, large, v);
          forall k: Key | |k.hash| == width { WalkEnd(v, cur, small, large, k.hash); }
          break;
        }
        ExpansionNext(cur, small, large);
        forall k: Key | |k.hash| == width { WalkStep(v, cur, small, large, k.hash); }
      }
    }

    ghost function Part(table: int): map<Key, Val>
      reads this
    {
      if table == 0 then m0 else m1
    }

    ghost function Slot(table: int, k: Key): int
      reads this
    {
      SlotIn(if table == 0 then exp0 else exp1, k)
    }

    function BucketCount(table: int): nat
      reads this
    {
      if table == 0 then table0.Length else table1.Length
    }

    function ChainAt(table: int, i: nat): Link
      reads this, table0, table1
      requires i < BucketCount(table)
    {
      if table == 0 then table0[i] else table1[i]
    }

    /** What walking bucket `i` of a table finds. */
    lemma BucketMembers(table: int, i: nat)
      requires Valid() && i < BucketCount(table)
      ensures Distinct(ChainAt(table, i))
      ensures forall k :: k in KeysOf(ChainAt(table, i)) <==> (k in Part(table) && Slot(table, k) == i)
    {
      hide Bucket, Size, BucketOk, Splits, Cleared;
      if table == 0 {
        TableMembers(table0[..], exp0, width, noValue, m0, i);
      } else {
        TableMembers(table1[..], exp1, width, noValue, m1, i);
      }
    }

    /** Entries sit in existing buckets, and none in those already moved. */
    lemma SlotRange(table: int, k: Key)
      requires Valid() && k in Part(table)
      ensures 0 <= Slot(table, k) < BucketCount(table)
      ensures table == 0 ==> rehashidx <= Slot(table, k)
    {
      hide Bucket, TableOk, Splits, KeysOf;
      if table == 0 {
        TableSlot(table0[..], exp0, width, noValue, m0, k);
      } else {
        TableSlot(table1[..], exp1, width, noValue, m1, k);
      }
    }

    /** Where entries can be: in one table each, in none of the buckets of table 0
        already moved, and in table 1 only while rehashing. */
    lemma Layout()
      requires Valid()
      ensures forall k :: k in contents <==> (k in m0 || k in m1)
      ensures forall k :: k in m0 ==> k !in m1 && rehashidx <= Slot(0, k) && 0 <= Slot(0, k) < BucketCount(0)
      ensures forall k :: k in m1 ==> IsRehashing() && 0 <= Slot(1, k) < BucketCount(1)
      ensures IsRehashing() ==> rehashidx >= 0 && BucketCount(1) > 0
      ensures pauserehash >= 0
    {
      hide TableOk, Cleared, SlotIn, Pow2;
      NoTable(table1[..], exp1, width, noValue, m1);
      forall k | k in m0 ensures rehashidx <= Slot(0, k) && 0 <= Slot(0, k) < BucketCount(0) { SlotRange(0, k); }
      forall k | k in m1 ensures 0 <= Slot(1, k) < BucketCount(1) { SlotRange(1, k); }
    }

    /** dictSetResizeEnabled, and the answers the resizeAllowed callback will give. */
    method SetPolicy(mode: ResizeMode, allowed: bool)
      requires Valid()
      modifies this`canResize, this`resizeAllowed
      ensures Valid() && canResize == mode && resizeAllowed == allowed
    {
      hide TableOk, Cleared, Splits;
      canResize, resizeAllowed := mode, allowed;
    }

    lemma KeyWidth(k: Key)
      requires Valid() && k in contents
      ensures |k.hash| == width
    {
    }

    method PauseRehashing()
      requires Valid()
      modifies this`pauserehash
      ensures Valid() && pauserehash == old(pauserehash) + 1 > 0
    {
      hide TableOk, Cleared, Splits;
      pauserehash := pauserehash + 1;
    }

    method ResumeRehashing()
      requires Valid() && pauserehash > 0
      modifies this`pauserehash
      ensures Valid() && pauserehash == old(pauserehash) - 1
    {
      hide TableOk, Cleared, Splits;
      pauserehash := pauserehash - 1;
    }
  }
}
