/** Bucket chains and one hash table of dict.c, as values. */
module DictTable {
  import opened Words

  /** A key together with its (arbitrary, fixed) hash. */
  datatype Key = Key(id: int, hash: Word)
  type Val = int

  /** What the C code stores where it needs no value. */
  const NO_VALUE: Val := 0

  /** A chain link. `BareKey` is the tagged pointer of a no-value dict: it is a
      key and has no `next` field, so it can only end a chain. */
  datatype Link =
    | Null
    | BareKey(key: Key)
    | Node(key: Key, val: Val, next: Link)

  /** dictGetNext */
  function Next(l: Link): Link
    requires l != Null
  {
    if l.BareKey? then Null else l.next
  }

  /** dictGetVal, extended to bare keys. */
  function HeadVal(l: Link): Val
    requires l != Null
  {
    if l.BareKey? then NO_VALUE else l.val
  }

  ghost function KeysOf(l: Link): set<Key> {
    match l
    case Null => {}
    case BareKey(k) => {k}
    case Node(k, _, n) => {k} + KeysOf(n)
  }

  ghost function Length(l: Link): nat {
    match l
    case Null => 0
    case BareKey(_) => 1
    case Node(_, _, n) => 1 + Length(n)
  }

  ghost predicate Distinct(l: Link) {
    match l
    case Null => true
    case BareKey(_) => true
    case Node(k, _, n) => k !in KeysOf(n) && Distinct(n)
  }

  /** Every entry of the chain carries the value `m` gives it. */
  ghost predicate Agrees(l: Link, m: map<Key, Val>) {
    match l
    case Null => true
    case BareKey(k) => k in m && m[k] == NO_VALUE
    case Node(k, v, n) => k in m && m[k] == v && Agrees(n, m)
  }

  /** Bare keys occur only in no-value dicts. */
  ghost predicate Tagged(l: Link, noValue: bool) {
    match l
    case Null => true
    case BareKey(_) => noValue
    case Node(_, v, n) => (noValue ==> v == NO_VALUE) && Tagged(n, noValue)
  }

  /** Storing an entry in a bucket: a no-value dict keeps the bare key when the
      bucket is empty, and otherwise an entry is put in front. */
  function Push(noValue: bool, k: Key, v: Val, l: Link): Link {
    if noValue && l == Null then BareKey(k) else Node(k, v, l)
  }

  /** Relinking around the entry of `k`. */
  function Unlink(l: Link, k: Key): Link {
    match l
    case Null => Null
    case BareKey(q) => if q == k then Null else l
    case Node(q, v, n) => if q == k then n else Node(q, v, Unlink(n, k))
  }

  /** Overwriting the value of `k` in place. */
  function Assign(l: Link, k: Key, v: Val): Link {
    match l
    case Null => Null
    case BareKey(_) => l
    case Node(q, w, n) => if q == k then Node(q, v, n) else Node(q, w, Assign(n, k, v))
  }

  function Size(e: int): nat
    requires e >= -1
  {
    if e == -1 then 0 else Pow2(e)
  }

  /** The bucket of a hash in a table of 2^e buckets: `h & DICTHT_SIZE_MASK(e)`. */
  function Bucket(h: Word, e: int): nat
    requires -1 <= e <= |h|
  {
    if e == -1 then 0 else Num(And(h, Mask(|h|, e)))
  }

  /** Masking a hash is its remainder by the number of buckets. */
  lemma BucketIsRemainder(h: Word, e: nat)
    requires e <= |h|
    ensures Bucket(h, e) == Num(h) % Pow2(e)
  {
    MaskedIndex(h, e);
    SmallerIndex(h, e, |h|);
    assert h[..|h|] == h;
  }

  ghost predicate BucketOk(l: Link, i: int, e: nat, w: nat, m: map<Key, Val>) {
    && Distinct(l)
    && Agrees(l, m)
    && forall k :: k in KeysOf(l) ==> |k.hash| == w && e <= w && Bucket(k.hash, e) == i
  }

  /** Table `t` of 2^e buckets (none for e = -1) holds exactly the entries of
      `m`, each once, in the bucket its hash masks to. */
  ghost predicate TableOk(t: seq<Link>, e: int, w: nat, noValue: bool, m: map<Key, Val>) {
    && -1 <= e < w
    && |t| == Size(e)
    && (e == -1 ==> m == map[])
    && (forall i :: 0 <= i < |t| ==> BucketOk(t[i], i, e, w, m) && Tagged(t[i], noValue))
    && (forall k :: k in m ==> |k.hash| == w && Bucket(k.hash, e) < |t| && k in KeysOf(t[Bucket(k.hash, e)]))
  }

  // ---- Buckets --------------------------------------------------------------

  lemma BucketBound(h: Word, e: int)
    requires 0 <= e <= |h|
    ensures Bucket(h, e) == Num(h[..e]) < Pow2(e)
  {
    MaskedIndex(h, e);
  }

  /** Two hashes share a bucket of a 2^e table exactly when their low e bits agree. */
  lemma SameBucket(g: Word, h: Word, e: int)
    requires |g| == |h| && 0 <= e <= |h|
    ensures Bucket(g, e) == Bucket(h, e) <==> g[..e] == h[..e]
  {
    MaskedIndex(g, e);
    MaskedIndex(h, e);
    if Bucket(g, e) == Bucket(h, e) { NumInjective(g[..e], h[..e]); }
  }

  /** Shrinking: masking the old bucket index gives the new one. */
  lemma ShrunkBucket(h: Word, e: int, f: int)
    requires 0 <= e <= f <= |h|
    ensures Bucket(h, f) % Pow2(e) == Bucket(h, e)
  {
    MaskedIndex(h, e);
    MaskedIndex(h, f);
    SmallerIndex(h, e, f);
  }

  // ---- Chains ---------------------------------------------------------------

  lemma AgreesKeys(l: Link, m: map<Key, Val>)
    requires Agrees(l, m)
    ensures KeysOf(l) <= m.Keys
  {
  }

  lemma AgreesFrame(l: Link, m: map<Key, Val>, m': map<Key, Val>)
    requires Agrees(l, m)
    requires forall k :: k in KeysOf(l) ==> k in m' && (k in m ==> m'[k] == m[k])
    ensures Agrees(l, m')
  {
  }

  lemma {:induction false} UnlinkFacts(l: Link, k: Key, noValue: bool, m: map<Key, Val>)
    requires Distinct(l) && Tagged(l, noValue) && Agrees(l, m)
    ensures KeysOf(Unlink(l, k)) == KeysOf(l) - {k}
    ensures Distinct(Unlink(l, k)) && Tagged(Unlink(l, k), noValue)
    ensures Agrees(Unlink(l, k), m - {k})
  {
    match l
    case Null =>
    case BareKey(_) =>
    case Node(q, v, n) =>
      UnlinkFacts(n, k, noValue, m);
      if q == k {
        AgreesKeys(n, m);
        AgreesFrame(n, m, m - {k});
      }
  }

  lemma {:induction false} AssignFacts(l: Link, k: Key, v: Val, m: map<Key, Val>)
    requires Distinct(l) && Tagged(l, false) && Agrees(l, m)
    ensures KeysOf(Assign(l, k, v)) == KeysOf(l)
    ensures Distinct(Assign(l, k, v)) && Tagged(Assign(l, k, v), false)
    ensures Agrees(Assign(l, k, v), m[k := v])
  {
    match l
    case Null =>
    case BareKey(_) =>
    case Node(q, w, n) =>
      AssignFacts(n, k, v, m);
      if q == k {
        AgreesKeys(n, m);
        AgreesFrame(n, m, m[k := v]);
      }
  }

  // ---- Table updates --------------------------------------------------------

  lemma BucketFrame(l: Link, i: int, e: nat, w: nat, m: map<Key, Val>, m': map<Key, Val>)
    requires BucketOk(l, i, e, w, m)
    requires forall q :: q in m && |q.hash| == w && e <= w && Bucket(q.hash, e) == i ==> q in m' && m'[q] == m[q]
    ensures BucketOk(l, i, e, w, m')
  {
    AgreesKeys(l, m);
    AgreesFrame(l, m, m');
  }

  /** Replacing one bucket, when the maps differ only on keys of that bucket. */
  lemma TableReplace(t: seq<Link>, e: nat, w: nat, noValue: bool, m: map<Key, Val>,
                     b: nat, l: Link, m': map<Key, Val>)
    requires TableOk(t, e, w, noValue, m) && b < |t|
    requires BucketOk(l, b, e, w, m') && Tagged(l, noValue)
    requires forall q :: q in m' ==> |q.hash| == w && (Bucket(q.hash, e) == b ==> q in KeysOf(l))
    requires forall q: Key :: |q.hash| == w && Bucket(q.hash, e) != b ==>
      (q in m <==> q in m') && (q in m ==> m'[q] == m[q])
    ensures TableOk(t[b := l], e, w, noValue, m')
  {
    hide Bucket, BucketOk, KeysOf, Tagged;
    var t' := t[b := l];
    forall i | 0 <= i < |t|
      ensures BucketOk(t'[i], i, e, w, m') && Tagged(t'[i], noValue)
    {
      assert BucketOk(t[i], i, e, w, m);
      if i != b { BucketFrame(t[i], i, e, w, m, m'); }
    }
    forall q | q in m'
      ensures |q.hash| == w && Bucket(q.hash, e) < |t| && q in KeysOf(t'[Bucket(q.hash, e)])
    {
      if Bucket(q.hash, e) != b { assert q in m; }
    }
  }

  lemma TablePush(t: seq<Link>, e: int, w: nat, noValue: bool, m: map<Key, Val>, k: Key, v: Val)
    requires TableOk(t, e, w, noValue, m) && k !in m && |k.hash| == w && e >= 0
    requires noValue ==> v == NO_VALUE
    ensures Bucket(k.hash, e) < |t|
    ensures var b := Bucket(k.hash, e);
      TableOk(t[b := Push(noValue, k, v, t[b])], e, w, noValue, m[k := v])
  {
    hide Bucket;
    BucketBound(k.hash, e);
    var b := Bucket(k.hash, e);
    assert BucketOk(t[b], b, e, w, m);
    AgreesKeys(t[b], m);
    AgreesFrame(t[b], m, m[k := v]);
    TableReplace(t, e, w, noValue, m, b, Push(noValue, k, v, t[b]), m[k := v]);
  }

  lemma TableRemove(t: seq<Link>, e: int, w: nat, noValue: bool, m: map<Key, Val>, k: Key)
    requires TableOk(t, e, w, noValue, m) && k in m
    ensures var b := Bucket(k.hash, e);
      b < |t| && TableOk(t[b := Unlink(t[b], k)], e, w, noValue, m - {k})
  {
    hide Bucket, KeysOf, Agrees, Distinct, Tagged, Unlink;
    var b := Bucket(k.hash, e);
    assert BucketOk(t[b], b, e, w, m);
    UnlinkFacts(t[b], k, noValue, m);
    TableReplace(t, e, w, noValue, m, b, Unlink(t[b], k), m - {k});
  }

  lemma TableAssign(t: seq<Link>, e: int, w: nat, m: map<Key, Val>, k: Key, v: Val)
    requires TableOk(t, e, w, false, m) && k in m
    ensures var b := Bucket(k.hash, e);
      b < |t| && TableOk(t[b := Assign(t[b], k, v)], e, w, false, m[k := v])
  {
    hide Bucket, KeysOf, Agrees, Distinct, Tagged, Assign;
    var b := Bucket(k.hash, e);
    assert BucketOk(t[b], b, e, w, m);
    AssignFacts(t[b], k, v, m);
    TableReplace(t, e, w, false, m, b, Assign(t[b], k, v), m[k := v]);
  }

  lemma EmptyTable(t: seq<Link>, e: int, w: nat, noValue: bool)
    requires -1 <= e < w && |t| == Size(e) && forall i :: 0 <= i < |t| ==> t[i] == Null
    ensures TableOk(t, e, w, noValue, map[])
  {
  }

  lemma NoTable(t: seq<Link>, e: int, w: nat, noValue: bool, m: map<Key, Val>)
    requires TableOk(t, e, w, noValue, m)
    ensures e == -1 ==> m == map[]
    ensures -1 <= e < w && |t| == Size(e)
  {
  }

  /** A key is looked for in one bucket only. */
  lemma LookupHere(t: seq<Link>, e: int, w: nat, noValue: bool, m: map<Key, Val>, k: Key)
    requires TableOk(t, e, w, noValue, m) && |k.hash| == w && e >= 0
    ensures var b := Bucket(k.hash, e);
      b < |t| && (k in KeysOf(t[b]) <==> k in m) && Agrees(t[b], m) && (t[b] == Null ==> k !in m)
  {
    BucketBound(k.hash, e);
    var b := Bucket(k.hash, e);
    assert BucketOk(t[b], b, e, w, m);
    AgreesKeys(t[b], m);
  }

  /** The loop of every lookup: walk a chain comparing keys. */
  method SearchChain(l: Link, k: Key, ghost m: map<Key, Val>) returns (at: Link)
    requires Agrees(l, m)
    ensures k in KeysOf(l) <==> at != Null
    ensures at != Null ==> at.key == k && k in m && m[k] == HeadVal(at)
  {
    at := l;
    while at != Null
      invariant k in KeysOf(at) <==> k in KeysOf(l)
      invariant Agrees(at, m)
      decreases Length(at)
    {
      if at.key == k {
        return;
      }
      at := Next(at);
    }
  }

  /** The bucket a cursor selects holds exactly the keys that share its low bits. */
  lemma BucketKeys(t: seq<Link>, e: int, w: nat, noValue: bool, m: map<Key, Val>, v: Word, k: Key)
    requires TableOk(t, e, w, noValue, m) && e >= 0 && |v| == w
    ensures Bucket(v, e) < |t|
    ensures k in KeysOf(t[Bucket(v, e)]) <==> k in m && |k.hash| == w && k.hash[..e] == v[..e]
  {
    BucketBound(v, e);
    var b := Bucket(v, e);
    assert BucketOk(t[b], b, e, w, m);
    AgreesKeys(t[b], m);
    if |k.hash| == w { SameBucket(k.hash, v, e); }
  }

  lemma BucketHolds(t: seq<Link>, e: int, w: nat, noValue: bool, m: map<Key, Val>, v: Word)
    requires TableOk(t, e, w, noValue, m) && e >= 0 && |v| == w
    ensures Bucket(v, e) < |t|
    ensures forall k :: k in KeysOf(t[Bucket(v, e)]) <==> (k in m && |k.hash| == w && k.hash[..e] == v[..e])
  {
    hide Bucket, TableOk, KeysOf;
    NoTable(t, e, w, noValue, m);
    BucketKeys(t, e, w, noValue, m, v, Key(0, v));
    forall k ensures k in KeysOf(t[Bucket(v, e)]) <==> (k in m && |k.hash| == w && k.hash[..e] == v[..e]) {
      BucketKeys(t, e, w, noValue, m, v, k);
    }
  }

  lemma TableSlot(t: seq<Link>, e: int, w: nat, noValue: bool, m: map<Key, Val>, k: Key)
    requires TableOk(t, e, w, noValue, m) && k in m
    ensures 0 <= e < w == |k.hash| && Bucket(k.hash, e) < |t| && t[Bucket(k.hash, e)] != Null
  {
    hide Bucket, Size;
  }

  lemma TableMembers(t: seq<Link>, e: int, w: nat, noValue: bool, m: map<Key, Val>, i: nat)
    requires TableOk(t, e, w, noValue, m) && i < |t|
    ensures Distinct(t[i])
    ensures forall k :: k in KeysOf(t[i]) <==> (k in m && 0 <= e <= |k.hash| && Bucket(k.hash, e) == i)
  {
    hide Bucket;
    assert BucketOk(t[i], i, e, w, m);
    AgreesKeys(t[i], m);
  }

  /** dictScanDefragBucket with a callback that only records what it is given. */
  method ScanBucket(l: Link) returns (emitted: seq<Key>)
    ensures forall k :: k in emitted <==> k in KeysOf(l)
  {
    emitted := [];
    var de := l;
    while de != Null
      invariant forall k :: k in emitted || k in KeysOf(de) <==> k in KeysOf(l)
      decreases Length(de)
    {
      emitted := emitted + [de.key];
      de := Next(de);
    }
  }
}
