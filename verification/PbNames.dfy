/** The name table of luaclib-src/pb/pb.h: names are interned and counted, and a
    cache keyed by addresses only ever saves computing a hash. A chain of the table
    is the sequence of its entries. */
module PbNames {
  import opened Basics

  type Name = seq<Byte>

  const U16: nat := 0x1_0000
  const MIN_SIZE: nat := 16
  const MAX_SLOTS: nat := 4294967195 / 8

  /** The largest number of chains: the first power of two that is not below MAX_SLOTS. */
  const CAPACITY: nat := 0x2000_0000
  const CACHE_SIZE: nat := 53
  const MULTIPLIER: nat := 2654435761

  /** One round of pbN_calchash. */
  function Mix(h: bv32, c: Byte): bv32 {
    h ^ ((h << 5) + (h >> 2) + c as bv32)
  }

  function HashFrom(s: Name, h: bv32, len: nat, step: nat): bv32
    requires len <= |s| && step > 0
    decreases len
  {
    if len >= step then HashFrom(s, Mix(h, s[len - 1]), len - step, step) else h
  }

  /** pbN_calchash. */
  function CalcHash(s: Name): bv32 {
    HashFrom(s, (|s| % 0x1_0000_0000) as bv32, |s|, |s| / 32 + 1)
  }

  /** A table entry, which is also the name handed out. The length and the count have
      sixteen bits each. */
  class Entry {
    const name: Name
    const hash: bv32
    const length: nat
    var refcount: nat

    constructor (name: Name, hash: bv32)
      ensures this.name == name && this.hash == hash && length == |name| % U16 && refcount == 0
    {
      this.name := name;
      this.hash := hash;
      length := |name| % U16;
      refcount := 0;
    }
  }

  /** The chain of a hash; the size is a power of two, so masking is the remainder. */
  function Index(h: bv32, size: nat): (i: nat)
    requires size > 0
    ensures i < size
  {
    Masked(h as int, size)
  }

  function Masked(n: int, size: nat): (i: nat)
    requires size > 0
    ensures i < size
  {
    n % size
  }

  ghost predicate NoDup(c: seq<Entry>) {
    forall i, j :: 0 <= i < j < |c| ==> c[i] != c[j]
  }

  /** Each live entry is once in the chain of its hash, and nothing else is. */
  ghost predicate Placed(t: seq<seq<Entry>>, live: set<Entry>) {
    && (|t| == 0 ==> live == {})
    && (forall b :: 0 <= b < |t| ==> NoDup(t[b]) && forall i :: 0 <= i < |t[b]| ==> t[b][i] in live && Index(t[b][i].hash, |t|) == b)
    && (forall e :: e in live && |t| > 0 ==> e in t[Index(e.hash, |t|)])
  }

  lemma PlacePush(t: seq<seq<Entry>>, live: set<Entry>, e: Entry)
    requires Placed(t, live) && |t| > 0 && e !in live
    ensures var b := Index(e.hash, |t|); Placed(t[b := [e] + t[b]], live + {e})
  {
    hide Index;
    var b := Index(e.hash, |t|);
    var c := [e] + t[b];
    assert e !in t[b];
    assert forall i :: 1 <= i < |c| ==> c[i] == t[b][i - 1];
    assert c[0] == e;
    forall f | f in t[b] ensures f in c {
      var i :| 0 <= i < |t[b]| && t[b][i] == f;
      assert c[i + 1] == f;
    }
  }

  lemma PlaceRemove(t: seq<seq<Entry>>, live: set<Entry>, e: Entry, k: nat)
    requires Placed(t, live) && |t| > 0 && e in live
    requires var b := Index(e.hash, |t|); k < |t[b]| && t[b][k] == e
    ensures var b := Index(e.hash, |t|); Placed(t[b := t[b][..k] + t[b][k + 1..]], live - {e})
  {
    hide Index;
    var b := Index(e.hash, |t|);
    var c := t[b][..k] + t[b][k + 1..];
    assert NoDup(t[b]);
    forall i | 0 <= i < |c| ensures c[i] == t[b][if i < k then i else i + 1] && c[i] != e {
      assert if i < k then t[b][i] != t[b][k] else t[b][k] != t[b][i + 1];
    }
    forall f | f in t[b] && f != e ensures f in c {
      var i :| 0 <= i < |t[b]| && t[b][i] == f;
      assert c[if i < k then i else i - 1] == f;
    }
  }

  /** The test of pbN_getname. */
  predicate Matches(e: Entry, s: Name, h: bv32) {
    e.hash == h && e.length == |s| && |s| <= |e.name| && e.name[..|s|] == s
  }

  /** The first entry of a chain that passes the test. */
  function FirstMatch(chain: seq<Entry>, s: Name, h: bv32): (e: Entry?)
    ensures e != null ==> e in chain && Matches(e, s, h)
    ensures e == null ==> forall f :: f in chain ==> !Matches(f, s, h)
  {
    if chain == [] then null
    else if Matches(chain[0], s, h) then chain[0]
    else FirstMatch(chain[1..], s, h)
  }

  lemma {:induction false} FirstMatchAt(chain: seq<Entry>, s: Name, h: bv32, i: nat)
    requires i <= |chain| && forall j :: 0 <= j < i ==> !Matches(chain[j], s, h)
    ensures FirstMatch(chain, s, h) == FirstMatch(chain[i..], s, h)
  {
    if i > 0 {
      FirstMatchAt(chain[1..], s, h, i - 1);
      assert chain[1..][i - 1..] == chain[i..];
    }
  }

  /** A name of 65536 bytes or more whose cut length makes it pass for its own prefix `s`. */
  predicate PassesFor(e: Entry, s: Name) {
    |e.name| >= U16 && |e.name| % U16 == |s| && s <= e.name
  }

  /** What a sixteen-bit count shows for `n` references. */
  function Counter(n: nat): (c: nat)
    ensures c <= n && (n < U16 ==> c == n)
  {
    n % U16
  }

  /** It is right below 65536, and 0 again there. */
  lemma SixteenBits(n: nat)
    ensures n < 65536 ==> Counter(n) == n
    ensures Counter(n + 65536) == Counter(n)
  {
  }

  lemma CounterSteps(n: nat)
    ensures (Counter(n) + 1) % U16 == Counter(n + 1)
    ensures Counter(n) > 0 ==> n > 0 && Counter(n - 1) == Counter(n) - 1
  {
  }

  function Put(m: map<Entry, nat>, e: Entry, n: nat): map<Entry, nat> {
    m[e := n]
  }

  lemma PutFacts(m: map<Entry, nat>, e: Entry, n: nat)
    ensures forall f :: f in Put(m, e, n) <==> f in m || f == e
    ensures Put(m, e, n)[e] == n && forall f :: f in m && f != e ==> Put(m, e, n)[f] == m[f]
    ensures Put(m, e, n).Keys == m.Keys + {e}
    ensures |Put(m, e, n)| == if e in m then |m| else |m| + 1
    ensures e in m ==> Put(m, e, n).Keys == m.Keys
  {
    assert |m| == |m.Keys| && |Put(m, e, n)| == |Put(m, e, n).Keys|;
    if e in m {
      assert m.Keys + {e} == m.Keys;
    }
  }

  lemma PutKeys(m: map<Entry, nat>, e: Entry, n: nat)
    requires e in m
    ensures Put(m, e, n).Keys == m.Keys
  {
  }

  function Dropped(m: map<Entry, nat>, e: Entry): map<Entry, nat> {
    m - {e}
  }

  lemma DroppedFacts(m: map<Entry, nat>, e: Entry)
    requires e in m
    ensures forall f :: f in Dropped(m, e) <==> f in m && f != e
    ensures forall f :: f in Dropped(m, e) ==> Dropped(m, e)[f] == m[f]
    ensures Dropped(m, e).Keys == m.Keys - {e} && |Dropped(m, e)| == |m| - 1
  {
    assert |m| == |m.Keys| && |Dropped(m, e)| == |Dropped(m, e).Keys|;
  }

  /** One more reference to an entry, which may be new. */
  function Gained(m: map<Entry, nat>, e: Entry): map<Entry, nat> {
    Put(m, e, (if e in m then m[e] else 0) + 1)
  }

  lemma GainedBy(m: map<Entry, nat>, m1: map<Entry, nat>, e: Entry)
    requires m1 == if e in m then m else Put(m, e, 0)
    ensures e in m1 && Put(m1, e, m1[e] + 1) == Gained(m, e)
  {
  }

  /** Equal short names share one entry. */
  ghost predicate Interned(live: set<Entry>) {
    forall e, f :: e in live && f in live && e.name == f.name && |e.name| < U16 ==> e == f
  }

  /** No live name is so long that its length has been cut. */
  ghost predicate AllShort(live: set<Entry>) {
    forall e :: e in live ==> |e.name| < U16
  }

  lemma InternedAdd(live: set<Entry>, e: Entry)
    requires Interned(live) && (|e.name| < U16 ==> forall f :: f in live ==> f.name != e.name)
    ensures Interned(live + {e}) && (AllShort(live) && |e.name| < U16 ==> AllShort(live + {e}))
  {
  }

  lemma InternedLess(live: set<Entry>, e: Entry)
    requires Interned(live)
    ensures Interned(live - {e})
  {
  }

  // ---- The table --------------------------------------------------------------------------------

  /** `live` holds the entries with the number of references held to each, which an
      entry counts in sixteen bits. */
  class NameTable {
    var size: nat
    var count: nat
    var hash: array<seq<Entry>>
    ghost var held: map<Entry, nat>

    ghost predicate Valid()
      reads this, hash, held.Keys
    {
      Shape() && Counts()
    }

    ghost predicate Shape()
      reads this, hash
    {
      && hash.Length == size && (size > 0 ==> PowerOfTwo(size) && MIN_SIZE <= size <= CAPACITY)
      && Placed(hash[..], held.Keys)
      && count == |held|
      && forall e :: e in held ==> EntryOk(e)
    }

    ghost predicate Counts()
      reads this`held, held.Keys
    {
      forall e :: e in held ==> e.refcount == Counter(held[e])
    }

    /** There is a chain for each entry, as long as the table is resized by need alone. */
    ghost predicate Roomy()
      reads this
    {
      |held| <= size
    }

    constructor ()
      ensures Valid() && Roomy() && held == map[] && fresh(hash)
    {
      size, count := 0, 0;
      hash := new seq<Entry>[0];
      held := map[];
    }

    /** What pbN_getname finds for a hash, and what pb_name answers for a hash its cache
        has for the name's address. */
    ghost function Lookup(s: Name, h: bv32): Entry?
      requires hash.Length == size
      reads this, hash
    {
      if size == 0 then null else FirstMatch(hash[Index(h, size)], s, h)
    }

    ghost function CachedLookup(s: Name, h: bv32): Entry?
      requires hash.Length == size
      reads this, hash
    {
      if Lookup(s, h) != null then Lookup(s, h) else Lookup(s, CalcHash(s))
    }

    lemma LookupFacts(s: Name, h: bv32)
      requires Valid()
      ensures Lookup(s, h) != null ==> Lookup(s, h) in held && Matches(Lookup(s, h), s, h)
      ensures Lookup(s, h) == null ==> forall f :: f in held ==> !Matches(f, s, h)
    {
      hide Index, EntryOk, NoDup, FirstMatch;
      if size > 0 {
        var b := Index(h, size);
        assert hash[..][b] == hash[b];
        forall f | f in held && Matches(f, s, h) ensures f in hash[b] {
          assert f in hash[..][Index(f.hash, size)];
        }
      }
    }

    /** Every cache leaves the answer for `s` as it is without one exactly when no live
        name of 65536 bytes or more passes for `s` under another hash. */
    lemma CacheInvisible(s: Name)
      requires Valid()
      ensures (forall h :: CachedLookup(s, h) == Lookup(s, CalcHash(s)))
        <==> forall e :: e in held && PassesFor(e, s) ==> e.hash == CalcHash(s)
    {
      hide CalcHash, Placed, FirstMatch, Index, NameTable.Lookup, Counts;
      LookupFacts(s, CalcHash(s));
      if forall e :: e in held && PassesFor(e, s) ==> e.hash == CalcHash(s) {
        forall h ensures CachedLookup(s, h) == Lookup(s, CalcHash(s)) {
          LookupFacts(s, h);
          if Lookup(s, h) != null {
            MatchCases(Lookup(s, h), s, h);
          }
        }
      } else {
        var e :| e in held && PassesFor(e, s) && e.hash != CalcHash(s);
        LookupFacts(s, e.hash);
        MatchCases(e, s, e.hash);
        assert CachedLookup(s, e.hash) != Lookup(s, CalcHash(s));
      }
    }

    /** Without a cache a name is found exactly when it is live or another name passes
        for it; names of 65536 bytes or more are never found. */
    lemma UncachedFinds(s: Name)
      requires Valid()
      ensures Lookup(s, CalcHash(s)) != null <==>
        exists e :: e in held && ((e.name == s && |s| < U16) || (PassesFor(e, s) && e.hash == CalcHash(s)))
    {
      hide CalcHash, Placed, FirstMatch, Index, NameTable.Lookup, Counts;
      LookupFacts(s, CalcHash(s));
      forall e | e in held
        ensures Matches(e, s, CalcHash(s)) <==> (e.name == s && |s| < U16) || (PassesFor(e, s) && e.hash == CalcHash(s))
      {
        MatchCases(e, s, CalcHash(s));
      }
    }

    /** pbN_getname: the first entry of the chain that passes the test. */
    method GetName(s: Name, h: bv32) returns (e: Entry?)
      requires Valid()
      ensures e != null ==> e in held && Matches(e, s, h)
      ensures e == null ==> forall f :: f in held ==> !Matches(f, s, h)
      ensures e == Lookup(s, h)
    {
      hide Index, EntryOk, NoDup, FirstMatch;
      if size == 0 {
        return null;
      }
      LookupFacts(s, h);
      var b := Index(h, size);
      var chain := hash[b];
      var i := 0;
      while i < |chain|
        invariant 0 <= i <= |chain| && forall j :: 0 <= j < i ==> !Matches(chain[j], s, h)
      {
        if Matches(chain[i], s, h) {
          FirstMatchAt(chain, s, h, i);
          FirstIs(chain[i..], s, h);
          return chain[i];
        }
        i := i + 1;
      }
      FirstMatchAt(chain, s, h, i);
      FirstIs(chain[i..], s, h);
      return null;
    }

    /** pbN_resize: every entry is pushed onto the chain it has in the larger table. */
    method Resize(want: nat) returns (ok: bool)
      requires Valid()
      modifies this`size, this`hash
      ensures Valid() && (hash == old(hash) || fresh(hash))
      ensures ok <==> DoubledUntil(MIN_SIZE, want, MAX_SLOTS) >= want
      ensures if ok then size == DoubledUntil(MIN_SIZE, want, MAX_SLOTS) else size == old(size) && hash == old(hash)
    {
      hide Index, EntryOk, PowerOfTwo, Placed, NoDup, DoubledUntil;
      var newsize := GrownSize(want);
      if newsize < want {
        return false;
      }
      var newh := new seq<Entry>[newsize](_ => []);
      NothingPlaced(newh[..]);
      Rehash(newh);
      hash, size := newh, newsize;
      ok := true;
    }

    /** Its loop over the chains. */
    method Rehash(newh: array<seq<Entry>>)
      requires Valid() && newh != hash && newh.Length > 0 && Placed(newh[..], {})
      modifies newh
      ensures Placed(newh[..], held.Keys)
    {
      hide Index, EntryOk, PowerOfTwo, Placed, NoDup;
      ghost var moved: set<Entry> := {};
      var i := 0;
      while i < size
        invariant 0 <= i <= size && Placed(newh[..], moved)
        invariant forall e :: e in moved <==> size > 0 && e in held && Index(e.hash, size) < i
      {
        ChainFacts(hash[..], held.Keys, i);
        moved := PushAll(newh, hash[i], moved);
        i := i + 1;
      }
      AllMoved(hash[..], held.Keys, moved);
    }

    /** pbN_newname. */
    method NewEntry(s: Name, h: bv32) returns (e: Entry?)
      requires Valid() && h == CalcHash(s)
      modifies this, hash
      ensures Valid() && (hash == old(hash) || fresh(hash)) && (old(Roomy()) ==> Roomy())
      ensures e == null ==> held == old(held)
      ensures e == null <==> |old(held)| >= old(size) >= MAX_SLOTS
      ensures e != null ==> fresh(e) && e.name == s && e !in old(held) && held == Put(old(held), e, 0)
    {
      hide Index, PowerOfTwo, Placed, NoDup, CalcHash, Put, DoubledUntil;
      TwiceTheSize();
      if count >= size {
        var ok := Resize(size * 2);
        if !ok {
          return null;
        }
      }
      SizeOfTable(hash[..], held.Keys, count);
      var entry := new Entry(s, h);
      Insert(entry);
      e := entry;
    }

    /** Growing to twice the size fails only for a table of the largest size. */
    lemma TwiceTheSize()
      requires Valid()
      ensures var n := DoubledUntil(MIN_SIZE, 2 * size, MAX_SLOTS);
        if size < MAX_SLOTS then n == if size == 0 then MIN_SIZE else 2 * size else n < 2 * size
      ensures size >= MAX_SLOTS ==> size == CAPACITY
    {
      hide Index, EntryOk, Placed, NoDup, Counts;
      if size > 0 {
        PowerOf8And16();
        LargePowers();
        hide PowerOfTwo;
        DoubledOnce(MIN_SIZE, size, MAX_SLOTS);
        if size >= MAX_SLOTS {
          PowersApart(CAPACITY, size);
        }
      }
    }

    lemma OneChainEach()
      requires Valid()
      ensures hash.Length == size
    {
    }

    /** A table sized by need alone is full and cannot grow when it has CAPACITY entries. */
    lemma FullTable()
      requires Valid() && Roomy()
      ensures |held| >= size >= MAX_SLOTS <==> |held| >= CAPACITY
    {
      hide Index, EntryOk, Placed, NoDup, Counts;
      TwiceTheSize();
    }

    /** Its last steps. */
    method Insert(entry: Entry)
      requires Valid() && size > 0 && entry !in held && EntryOk(entry) && entry.refcount == 0
      modifies this`count, this`held, hash
      ensures Valid() && held == Put(old(held), entry, 0) && |held| == |old(held)| + 1
    {
      hide Index, PowerOfTwo, Placed, NoDup, EntryOk, Put, Counter;
      PutFacts(held, entry, 0);
      assert Counter(0) == 0;
      Push(entry);
      count := count + 1;
      held := Put(held, entry, 0);
    }

    /** The new entry goes to the head of its chain. */
    method Push(entry: Entry)
      requires hash.Length == size > 0 && Placed(hash[..], held.Keys) && entry !in held
      modifies hash
      ensures Placed(hash[..], held.Keys + {entry})
    {
      hide Index, Placed, NoDup;
      PlacePush(hash[..], held.Keys, entry);
      ghost var t := hash[..];
      var b := Index(entry.hash, size);
      hash[b] := [entry] + hash[b];
      assert hash[..] == t[b := [entry] + t[b]];
    }

    /** pb_usename. */
    method UseName(e: Entry)
      requires Valid() && e in held
      modifies this`held, e
      ensures Valid() && held == Put(old(held), e, old(held)[e] + 1) && |held| == |old(held)|
    {
      hide Index, PowerOfTwo, Placed, NoDup, EntryOk, Put, Counter;
      CounterSteps(held[e]);
      e.refcount := (e.refcount + 1) % U16;
      PutFacts(held, e, held[e] + 1);
      held := Put(held, e, held[e] + 1);
    }

    /** pb_newname up to the reference it takes. */
    method Intern(s: Name) returns (e: Entry?)
      requires Valid() && Interned(held.Keys)
      modifies this, hash
      ensures Valid() && Interned(held.Keys) && (hash == old(hash) || fresh(hash))
      ensures e == null ==> held == old(held)
      ensures e == null <==> old(Lookup(s, CalcHash(s))) == null && |old(held)| >= old(size) >= MAX_SLOTS
      ensures old(Roomy()) ==> Roomy()
      ensures e != null ==> if e in old(held) then held == old(held) else fresh(e) && held == Put(old(held), e, 0)
      ensures AllShort(old(held.Keys)) && |s| < U16 ==> AllShort(held.Keys) && (e != null ==> e.name == s)
      ensures |s| >= U16 && e != null ==> e !in old(held)
    {
      hide Index, PowerOfTwo, Placed, NoDup, CalcHash, Put, Interned, AllShort, Matches, Counter;
      var h := CalcHash(s);
      e := GetName(s, h);
      EqualMatches(held.Keys, s);
      if e == null {
        ghost var held0 := held;
        e := NewEntry(s, h);
        if e != null {
          var entry: Entry := e;
          PutFacts(held0, entry, 0);
          InternedAdd(held0.Keys, entry);
        }
      }
    }

    /** pb_newname: the name's entry, with one more reference. It answers null exactly when
        the name is not found and a full table cannot grow. */
    method NewName(s: Name) returns (e: Entry?)
      requires Valid() && Interned(held.Keys)
      modifies this, hash, held.Keys
      ensures Valid() && Interned(held.Keys) && (hash == old(hash) || fresh(hash))
      ensures e == null ==> held == old(held)
      ensures e == null <==> old(Lookup(s, CalcHash(s))) == null && |old(held)| >= old(size) >= MAX_SLOTS
      ensures old(Roomy()) ==> Roomy()
      ensures e != null ==> held == Gained(old(held), e)
      ensures e != null && e !in old(held) ==> fresh(e)
      ensures AllShort(old(held.Keys)) && |s| < U16 ==> AllShort(held.Keys) && (e != null ==> e.name == s)
      ensures |s| >= U16 && e != null ==> e !in old(held)
    {
      hide Index, PowerOfTwo, Placed, NoDup, Put, Gained, Interned, AllShort, Matches, Counter, NameTable.Shape, NameTable.Counts, NameTable.Lookup, CalcHash;
      OneChainEach();
      ghost var held0 := held;
      e := Intern(s);
      if e != null {
        var entry: Entry := e;
        TakeReference(entry, held0);
      }
    }

    /** The reference it takes. */
    method TakeReference(e: Entry, ghost held0: map<Entry, nat>)
      requires Valid() && held == if e in held0 then held0 else Put(held0, e, 0)
      modifies this`held, e
      ensures Valid() && held == Gained(held0, e) && held.Keys == old(held.Keys) && |held| == |old(held)|
    {
      hide Put, Gained, Counter, NameTable.Shape, NameTable.Counts;
      GainedBy(held0, held, e);
      PutKeys(held, e, held[e] + 1);
      UseName(e);
    }

    /** pb_delname. */
    method DelName(e: Entry) returns (ghost removed: bool)
      requires Valid() && e in held && Interned(held.Keys)
      modifies this, hash, e
      ensures Valid() && Interned(held.Keys) && hash == old(hash)
      ensures size == old(size) && |held| <= |old(held)|
      ensures removed == (Counter(old(held)[e]) <= 1)
      ensures if removed then held == Dropped(old(held), e) else old(held)[e] > 1 && held == Put(old(held), e, old(held)[e] - 1)
    {
      hide Index, PowerOfTwo, Placed, NoDup, EntryOk, Put, Counter, Interned;
      CounterSteps(held[e]);
      if e.refcount <= 1 {
        removed := true;
        InternedLess(held.Keys, e);
        Unchain(e);
        return;
      }
      removed := false;
      DropName(e);
    }

    /** A reference given up that was not the last. */
    method DropName(e: Entry)
      requires Valid() && e in held && e.refcount > 1
      modifies this`held, e
      ensures Valid() && old(held)[e] > 1 && held == Put(old(held), e, old(held)[e] - 1) && held.Keys == old(held.Keys) && |held| == |old(held)|
    {
      hide Index, PowerOfTwo, Placed, NoDup, EntryOk, Put, Counter;
      CounterSteps(held[e]);
      PutFacts(held, e, held[e] - 1);
      e.refcount := e.refcount - 1;
      held := Put(held, e, held[e] - 1);
    }

    /** pbN_delname. */
    method Unchain(e: Entry)
      requires Valid() && e in held
      modifies this`count, this`held, hash
      ensures Valid() && held == Dropped(old(held), e) && held.Keys == old(held.Keys) - {e} && |held| < |old(held)|
    {
      hide Index, PowerOfTwo, EntryOk, NoDup, Placed, Dropped, Counter;
      ChainOf(hash[..], held.Keys, e);
      var b := Index(e.hash, size);
      var chain := hash[b];
      var k := PositionOf(chain, e);
      PlaceRemove(hash[..], held.Keys, e, k);
      DroppedFacts(held, e);
      hash[b] := chain[..k] + chain[k + 1..];
      count := count - 1;
      held := Dropped(held, e);
    }

    /** Among short names the answer is the name's own entry, whatever the cache holds. */
    lemma ShortAnswer(s: Name, e: Entry?)
      requires Valid() && AllShort(held.Keys)
      requires e == Lookup(s, CalcHash(s)) || exists h :: e == CachedLookup(s, h)
      ensures if e == null then forall f :: f in held ==> f.name != s else e in held && e.name == s
    {
      hide CalcHash, Placed, FirstMatch, Index, NameTable.Lookup, Counts;
      CacheInvisible(s);
      LookupFacts(s, CalcHash(s));
      ShortMatches(held.Keys, s);
    }

    /** pb_name: the entry of a name without taking a reference. The address `p` of the
        bytes only serves the cache, whose contents do not matter. */
    method FindName(p: nat, s: Name, cache: Cache?) returns (e: Entry?)
      requires Valid() && (cache != null ==> cache.Valid())
      modifies cache, if cache == null then {} else {cache.slots}
      ensures Valid() && (cache != null ==> cache.Valid())
      ensures e != null ==> e in held
      ensures e == if cache == null || old(cache.HashAt(p)).None? then Lookup(s, CalcHash(s))
                   else CachedLookup(s, old(cache.HashAt(p)).value)
    {
      hide Index, PowerOfTwo, Placed, NoDup, CalcHash, NameTable.Lookup, Cache.HashAt, Cache.InSlot, EntryOk;
      if cache == null {
        e := GetName(s, CalcHash(s));
        return;
      }
      e := null;
      var hit, second := cache.Probe(p);
      if hit {
        e := GetName(s, cache.hash);
      }
      if e == null {
        cache.Remember(p, second, CalcHash(s));
        e := GetName(s, CalcHash(s));
      }
    }
  }

  method GrownSize(want: nat) returns (newsize: nat)
    ensures newsize == DoubledUntil(MIN_SIZE, want, MAX_SLOTS)
    ensures PowerOfTwo(newsize) && MIN_SIZE <= newsize <= CAPACITY
  {
    hide PowerOfTwo;
    newsize := MIN_SIZE;
    PowerOf8And16();
    while newsize < MAX_SLOTS && newsize < want
      invariant newsize >= MIN_SIZE && DoubledUntil(MIN_SIZE, want, MAX_SLOTS) == DoubledUntil(newsize, want, MAX_SLOTS)
      decreases want - newsize
    {
      newsize := newsize * 2;
    }
    DoubledBound(MIN_SIZE, want, MAX_SLOTS);
    LargePowers();
    PowersApart(newsize, CAPACITY);
  }

  function SlotIndex(p: nat): (k: nat)
    ensures k < CACHE_SIZE
  {
    p * MULTIPLIER % 0x1_0000_0000_0000_0000 % CACHE_SIZE
  }

  datatype Slot = Slot(name: nat, hash: bv32)

  /** pb_Cache. */
  class Cache {
    const slots: array<(Slot, Slot)>
    var hash: bv32

    ghost predicate Valid()
      reads this
    {
      slots.Length == CACHE_SIZE
    }

    /** The hash remembered for an address. */
    ghost function HashAt(p: nat): Option<bv32>
      requires Valid()
      reads this, slots
    {
      var pair := slots[SlotIndex(p)];
      if pair.0.name == p then Some(pair.0.hash) else if pair.1.name == p then Some(pair.1.hash) else None
    }

    /** The two slots of an address, the older entry making way when it has none. */
    method Probe(p: nat) returns (hit: bool, second: bool)
      requires Valid()
      modifies this, slots
      ensures Valid() && hit == old(HashAt(p)).Some?
      ensures hit ==> hash == old(HashAt(p)).value && slots[..] == old(slots[..])
      ensures InSlot(p, second)
    {
      var k := SlotIndex(p);
      second := false;
      if slots[k].0.name == p {
        hash := slots[k].0.hash;
        hit := true;
      } else if slots[k].1.name == p {
        second := true;
        hash := slots[k].1.hash;
        hit := true;
      } else {
        slots[k] := (Slot(p, slots[k].0.hash), slots[k].0);
        hit := false;
      }
    }

    ghost predicate InSlot(p: nat, second: bool)
      requires Valid()
      reads this, slots
    {
      var pair := slots[SlotIndex(p)];
      if second then pair.0.name != p && pair.1.name == p else pair.0.name == p
    }

    method Remember(p: nat, second: bool, h: bv32)
      requires Valid() && InSlot(p, second)
      modifies this, slots
      ensures Valid() && HashAt(p) == Some(h)
    {
      var k := SlotIndex(p);
      hash := h;
      slots[k] := if second then (slots[k].0, Slot(slots[k].1.name, h))
                  else (Slot(slots[k].0.name, h), slots[k].1);
    }
  }

  /** The walk to the link that leads to an entry. */
  method PositionOf(chain: seq<Entry>, e: Entry) returns (k: nat)
    requires e in chain
    ensures k < |chain| && chain[k] == e
  {
    k := 0;
    while chain[k] != e
      invariant 0 <= k < |chain| && e in chain[k..]
      decreases |chain| - k
    {
      assert chain[k..][1..] == chain[k + 1..];
      k := k + 1;
    }
  }

  method PushAll(newh: array<seq<Entry>>, chain: seq<Entry>, ghost moved: set<Entry>) returns (ghost moved': set<Entry>)
    requires newh.Length > 0 && Placed(newh[..], moved) && NoDup(chain)
    requires forall i :: 0 <= i < |chain| ==> chain[i] !in moved
    modifies newh
    ensures Placed(newh[..], moved') && forall e :: e in moved' <==> e in moved || e in chain
  {
    hide Index, Placed;
    moved' := moved;
    for i := 0 to |chain|
      invariant Placed(newh[..], moved') && forall e :: e in moved' <==> e in moved || e in chain[..i]
    {
      var e := chain[i];
      assert e !in chain[..i];
      PlacePush(newh[..], moved', e);
      var b := Index(e.hash, newh.Length);
      newh[b] := [e] + newh[b];
      moved' := moved' + {e};
    }
    assert chain[..|chain|] == chain;
  }

  lemma ChainFacts(t: seq<seq<Entry>>, live: set<Entry>, b: nat)
    requires Placed(t, live) && b < |t|
    ensures NoDup(t[b]) && forall e :: e in t[b] <==> e in live && Index(e.hash, |t|) == b
    ensures forall i :: 0 <= i < |t[b]| ==> Index(t[b][i].hash, |t|) == b
  {
    hide Index, NoDup;
  }

  lemma ChainOf(t: seq<seq<Entry>>, live: set<Entry>, e: Entry)
    requires Placed(t, live) && e in live
    ensures |t| > 0 && e in t[Index(e.hash, |t|)]
  {
  }

  lemma NothingPlaced(t: seq<seq<Entry>>)
    requires forall b :: 0 <= b < |t| ==> t[b] == []
    ensures Placed(t, {})
  {
  }

  lemma AllMoved(t: seq<seq<Entry>>, live: set<Entry>, moved: set<Entry>)
    requires Placed(t, live) && forall e :: e in moved <==> |t| > 0 && e in live && Index(e.hash, |t|) < |t|
    ensures moved == live
  {
  }

  /** A table without chains has no entries, and is never taken for full enough. */
  lemma SizeOfTable(t: seq<seq<Entry>>, live: set<Entry>, count: nat)
    requires Placed(t, live) && count == |live|
    ensures |t| == 0 ==> count == 0
  {
  }

  /** Equal short names pass the test, and in tables of short names nothing else does. */
  lemma EqualMatches(live: set<Entry>, s: Name)
    requires forall e :: e in live ==> EntryOk(e)
    ensures |s| < U16 && (forall e :: e in live ==> !Matches(e, s, CalcHash(s))) ==> forall e :: e in live ==> e.name != s
    ensures AllShort(live) ==> forall e :: e in live && Matches(e, s, CalcHash(s)) ==> e.name == s
    ensures |s| >= U16 ==> forall e :: e in live ==> !Matches(e, s, CalcHash(s))
  {
    forall e | e in live && |e.name| < U16 ensures Matches(e, s, CalcHash(s)) <==> e.name == s {
      MatchIsEquality(e, s, CalcHash(s));
    }
  }

  /** For tables of short names: what the tests of all entries come to. */
  lemma ShortMatches(live: set<Entry>, s: Name)
    ensures forall e :: e in live && EntryOk(e) && |e.name| < U16 ==> (Matches(e, s, CalcHash(s)) <==> e.name == s)
  {
    forall e | e in live && EntryOk(e) && |e.name| < U16 ensures Matches(e, s, CalcHash(s)) <==> e.name == s {
      MatchIsEquality(e, s, CalcHash(s));
    }
  }

  /** What an entry keeps from its creation. */
  predicate EntryOk(e: Entry) {
    e.hash == CalcHash(e.name) && e.length == |e.name| % U16
  }

  lemma FirstIs(chain: seq<Entry>, s: Name, h: bv32)
    ensures FirstMatch(chain, s, h) ==
      if chain == [] then null else if Matches(chain[0], s, h) then chain[0] else FirstMatch(chain[1..], s, h)
  {
  }

  /** What passes the test: a short name for itself, and a name of 65536 bytes or more
      for its prefix of the cut length. */
  lemma MatchCases(e: Entry, s: Name, h: bv32)
    requires EntryOk(e)
    ensures Matches(e, s, h) <==> e.hash == h && ((e.name == s && |s| < U16) || PassesFor(e, s))
    ensures Matches(e, s, h) ==> |s| < U16
    ensures e.name == s ==> e.hash == CalcHash(s)
  {
    hide CalcHash;
    if |e.name| < U16 && |e.name| == |s| {
      assert e.name[..|s|] == e.name;
    }
    assert s <= e.name <==> |s| <= |e.name| && e.name[..|s|] == s;
  }

  /** So a name of 65536 + k bytes passes, with its own hash, for its first k bytes, and
      never for itself. */
  lemma LongNamePasses(e: Entry, k: nat)
    requires EntryOk(e) && |e.name| == U16 + k && k < U16
    ensures PassesFor(e, e.name[..k]) && Matches(e, e.name[..k], e.hash) && !Matches(e, e.name, e.hash)
  {
    hide CalcHash;
  }

  /** Among short names the test is equality, given the right hash; with a wrong one
      nothing passes. */
  lemma MatchIsEquality(e: Entry, s: Name, h: bv32)
    requires EntryOk(e) && |e.name| < U16
    ensures Matches(e, s, h) <==> e.name == s && h == CalcHash(s)
  {
    hide CalcHash;
    assert |e.name| == |s| ==> e.name[..|s|] == e.name;
  }

  /** One reference too many: 65536 of them can be taken. */
  method TakeReferences(t: NameTable, e: Entry)
    requires t.Valid() && Interned(t.held.Keys) && e in t.held && t.held[e] == 1
    modifies t, e
    ensures t.Valid() && Interned(t.held.Keys) && t.hash == old(t.hash)
    ensures e in t.held && t.held[e] == U16
  {
    hide NameTable.Shape, NameTable.Counts, Interned, Put;
    var references := 1;
    while references < U16
      invariant 1 <= references <= U16 && t.Valid() && t.hash == old(t.hash) && Interned(t.held.Keys)
      invariant e in t.held && t.held[e] == references
    {
      PutFacts(t.held, e, t.held[e] + 1);
      t.UseName(e);
      references := references + 1;
    }
  }

  /** Giving up one of them then frees a name to which 65535 are held. */
  method OneReferenceTooMany(t: NameTable, e: Entry)
    requires t.Valid() && Interned(t.held.Keys) && e in t.held && t.held[e] == U16
    modifies t, t.hash, e
    ensures t.Valid() && e !in t.held && t.held == Dropped(old(t.held), e)
  {
    hide NameTable.Shape, NameTable.Counts, Interned, Dropped;
    DroppedFacts(t.held, e);
    assert Counter(U16) == 0;
    var removed := t.DelName(e);
  }

  // ---- Runs ------------------------------------------------------------------------------------

  /** Taking a reference to a name, and giving one up. */
  datatype NameOp = Acquire(name: Name) | Release(name: Name)

  /** What an operation means for the references held to each name: a new name is
      refused when there are too many, and a name nobody has cannot be given up. */
  function CarriedOut(m: map<Name, nat>, op: NameOp): bool {
    op.name in m || (op.Acquire? && |m| < CAPACITY)
  }

  function Step(m: map<Name, nat>, op: NameOp): map<Name, nat> {
    if !CarriedOut(m, op) then m
    else
      match op
      case Acquire(s) => m[s := if s in m then m[s] + 1 else 1]
      case Release(s) => if m[s] <= 1 then m - {s} else m[s := m[s] - 1]
  }

  function Ideal(ops: seq<NameOp>): map<Name, nat> {
    if ops == [] then map[] else Step(Ideal(ops[..|ops| - 1]), ops[|ops| - 1])
  }

  /** The sixteen-bit count tells the last reference from the others. */
  predicate Told(m: map<Name, nat>, op: NameOp) {
    op.Release? && op.name in m ==> m[op.name] == 1 || m[op.name] % U16 > 1
  }

  /** It does so at each release, which it does as long as no name has 65536 references. */
  ghost predicate AllTold(ops: seq<NameOp>) {
    forall i :: 0 <= i < |ops| ==> Told(Ideal(ops[..i]), ops[i])
  }

  lemma FewReferences(ops: seq<NameOp>)
    requires forall i, s :: 0 <= i < |ops| && s in Ideal(ops[..i]) ==> 0 < Ideal(ops[..i])[s] < U16
    ensures AllTold(ops)
  {
    hide Ideal, Told;
    forall i | 0 <= i < |ops| ensures Told(Ideal(ops[..i]), ops[i]) {
      FewHere(Ideal(ops[..i]), ops[i]);
    }
  }

  lemma FewHere(m: map<Name, nat>, op: NameOp)
    requires op.name in m ==> 0 < m[op.name] < U16
    ensures Told(m, op)
  {
  }

  /** The live names are those with references, each counted right. */
  ghost predicate Mirrors(held: map<Entry, nat>, m: map<Name, nat>) {
    && (forall e :: e in held ==> e.name in m && held[e] == m[e.name] > 0)
    && (forall s :: s in m ==> exists e :: e in held && e.name == s)
  }

  function NamesOf(live: set<Entry>): set<Name> {
    set e | e in live :: e.name
  }

  lemma {:induction false} NameCount(live: set<Entry>)
    requires Interned(live) && AllShort(live)
    ensures |NamesOf(live)| == |live|
  {
    if live != {} {
      var e :| e in live;
      NameCount(live - {e});
      assert e.name !in NamesOf(live - {e});
      assert NamesOf(live) == NamesOf(live - {e}) + {e.name};
    }
  }

  lemma MirrorSize(held: map<Entry, nat>, m: map<Name, nat>)
    requires Mirrors(held, m) && Interned(held.Keys) && AllShort(held.Keys)
    ensures |held| == |m|
  {
    NameCount(held.Keys);
    assert NamesOf(held.Keys) == m.Keys;
    assert |held| == |held.Keys| && |m| == |m.Keys|;
  }

  /** What a table and the references it stands for have to do with one another. */
  ghost predicate Tidy(t: NameTable)
    reads t, t.hash, t.held.Keys
  {
    t.Valid() && t.Roomy() && Interned(t.held.Keys) && AllShort(t.held.Keys)
  }

  lemma AcquiredMirror(held: map<Entry, nat>, e: Entry, m: map<Name, nat>)
    requires Mirrors(held, m) && Interned(held.Keys) && AllShort(held.Keys) && |e.name| < U16
    requires e in held <==> e.name in m
    requires CarriedOut(m, Acquire(e.name))
    ensures Mirrors(Gained(held, e), Step(m, Acquire(e.name)))
  {
    var held', m' := Gained(held, e), Step(m, Acquire(e.name));
    forall f | f in held' ensures f.name in m' && held'[f] == m'[f.name] > 0 {
    }
    forall s | s in m' ensures exists f :: f in held' && f.name == s {
      if s == e.name {
        assert e in held';
      } else {
        var f :| f in held && f.name == s;
        assert f in held';
      }
    }
  }

  /** A release keeps table and references in step exactly when the count tells the last
      reference from the others. */
  lemma ReleasedMirror(held: map<Entry, nat>, e: Entry, held': map<Entry, nat>, m: map<Name, nat>)
    requires Mirrors(held, m) && Interned(held.Keys) && AllShort(held.Keys) && e in held
    requires held' == if Counter(held[e]) <= 1 then Dropped(held, e) else Put(held, e, held[e] - 1)
    ensures Mirrors(held', Step(m, Release(e.name))) <==> Told(m, Release(e.name))
  {
    var s := e.name;
    var m' := Step(m, Release(s));
    assert Counter(held[e]) == m[s] % U16;
    if Told(m, Release(s)) {
      forall q | q in m' ensures exists f :: f in held' && f.name == q {
        var f :| f in held && f.name == q;
        assert f in held';
      }
    } else {
      assert s in m' && held' == Dropped(held, e);
      assert forall f :: f in held' ==> f.name != s;
    }
  }

  /** Any run of acquisitions and releases of short names, starting from an empty table:
      as long as the counts tell last references from others, each operation is carried
      out exactly when it should be, and an entry is live exactly while there are
      references to it. */
  method RunNames(ops: seq<NameOp>) returns (t: NameTable, done: seq<bool>)
    requires forall op :: op in ops ==> |op.name| < U16
    ensures fresh(t) && Tidy(t) && |done| == |ops|
    ensures AllTold(ops) ==> Mirrors(t.held, Ideal(ops))
    ensures AllTold(ops) ==> forall i :: 0 <= i < |ops| ==> done[i] == CarriedOut(Ideal(ops[..i]), ops[i])
  {
    hide NameTable.Shape, NameTable.Counts, NameTable.Roomy, Interned, AllShort, Mirrors, Ideal, CarriedOut, Told;
    t := new NameTable();
    done := [];
    StartRun();
    assert t.held.Keys == {};
    assert ops[..0] == [];
    var i := 0;
    while i < |ops|
      invariant 0 <= i <= |ops| && |done| == i
      invariant fresh(t) && fresh(t.hash) && fresh(t.held.Keys) && Tidy(t)
      invariant AllTold(ops) ==> Mirrors(t.held, Ideal(ops[..i]))
      invariant AllTold(ops) ==> forall j :: 0 <= j < i ==> done[j] == CarriedOut(Ideal(ops[..j]), ops[j])
    {
      assert ops[i] in ops;
      IdealNext(ops, i);
      var ok := RunOne(t, ops[i], Ideal(ops[..i]));
      done := done + [ok];
      i := i + 1;
    }
    assert ops[..i] == ops;
  }

  lemma StartRun()
    ensures Interned({}) && AllShort({}) && Mirrors(map[], Ideal([]))
  {
  }

  lemma IdealNext(ops: seq<NameOp>, i: nat)
    requires i < |ops|
    ensures Ideal(ops[..i + 1]) == Step(Ideal(ops[..i]), ops[i])
  {
    assert ops[..i + 1][..i] == ops[..i];
  }

  /** One operation on a table that mirrors the references `m`. */
  method RunOne(t: NameTable, op: NameOp, ghost m: map<Name, nat>) returns (ok: bool)
    requires Tidy(t) && |op.name| < U16
    modifies t, t.hash, t.held.Keys
    ensures Tidy(t) && (t.hash == old(t.hash) || fresh(t.hash))
    ensures forall e :: e in t.held ==> e in old(t.held) || fresh(e)
    ensures old(Mirrors(t.held, m)) ==> ok == CarriedOut(m, op) && (Mirrors(t.held, Step(m, op)) <==> Told(m, op))
  {
    match op {
      case Acquire(s) => ok := RunAcquire(t, s, m);
      case Release(s) => ok := RunRelease(t, s, m);
    }
  }

  method RunAcquire(t: NameTable, s: Name, ghost m: map<Name, nat>) returns (ok: bool)
    requires Tidy(t) && |s| < U16
    modifies t, t.hash, t.held.Keys
    ensures Tidy(t) && (t.hash == old(t.hash) || fresh(t.hash))
    ensures forall e :: e in t.held ==> e in old(t.held) || fresh(e)
    ensures old(Mirrors(t.held, m)) ==> ok == CarriedOut(m, Acquire(s)) && Mirrors(t.held, Step(m, Acquire(s)))
  {
    hide NameTable.Shape, NameTable.Counts, Matches, Interned, AllShort, Mirrors, CalcHash, Gained, Put, Step, CarriedOut, NameTable.Lookup;
    t.OneChainEach();
    ghost var held, before := t.held, t.Lookup(s, CalcHash(s));
    t.ShortAnswer(s, before);
    t.FullTable();
    var e := t.NewName(s);
    ok := e != null;
    if ok {
      var entry: Entry := e;
      GainedNames(held, entry);
      if Mirrors(held, m) {
        AcquireStep(held, entry, m, before);
      }
    } else if Mirrors(held, m) {
      RefuseStep(held, s, m);
    }
  }

  method RunRelease(t: NameTable, s: Name, ghost m: map<Name, nat>) returns (ok: bool)
    requires Tidy(t) && |s| < U16
    modifies t, t.hash, t.held.Keys
    ensures Tidy(t) && t.hash == old(t.hash)
    ensures forall e :: e in t.held ==> e in old(t.held)
    ensures old(Mirrors(t.held, m)) ==>
      ok == CarriedOut(m, Release(s)) && (Mirrors(t.held, Step(m, Release(s))) <==> Told(m, Release(s)))
  {
    hide NameTable.Shape, NameTable.Counts, Matches, Interned, AllShort, Mirrors, CalcHash, Put, Dropped, Counter, Step, CarriedOut, Told, NameTable.Lookup;
    ghost var held := t.held;
    var e := t.FindName(0, s, null);
    t.ShortAnswer(s, e);
    ok := e != null;
    if ok {
      var entry: Entry := e;
      var removed := t.DelName(entry);
      FewerNames(held, entry, t.held);
      if Mirrors(held, m) {
        ReleaseStep(held, entry, t.held, m);
      }
    } else if Mirrors(held, m) {
      NothingToRelease(held, s, m);
    }
  }

  lemma GainedNames(held: map<Entry, nat>, e: Entry)
    ensures forall f :: f in Gained(held, e) <==> f in held || f == e
    ensures AllShort(held.Keys) && |e.name| < U16 ==> AllShort(Gained(held, e).Keys)
  {
  }

  lemma FewerNames(held: map<Entry, nat>, e: Entry, held': map<Entry, nat>)
    requires e in held && (held' == Dropped(held, e) || exists n :: held' == Put(held, e, n))
    ensures forall f :: f in held' ==> f in held
    ensures AllShort(held.Keys) ==> AllShort(held'.Keys)
  {
  }

  lemma AcquireStep(held: map<Entry, nat>, e: Entry, m: map<Name, nat>, before: Entry?)
    requires Mirrors(held, m) && Interned(held.Keys) && AllShort(held.Keys)
    requires |e.name| < U16 && Interned(Gained(held, e).Keys)
    requires if before == null then forall f :: f in held ==> f.name != e.name else before in held && before.name == e.name
    requires before == null ==> |held| < CAPACITY
    ensures CarriedOut(m, Acquire(e.name)) && Mirrors(Gained(held, e), Step(m, Acquire(e.name)))
  {
    MirrorSize(held, m);
    GainedNames(held, e);
    AcquiredMirror(held, e, m);
  }

  lemma RefuseStep(held: map<Entry, nat>, s: Name, m: map<Name, nat>)
    requires Mirrors(held, m) && Interned(held.Keys) && AllShort(held.Keys)
    requires (forall f :: f in held ==> f.name != s) && |held| >= CAPACITY
    ensures !CarriedOut(m, Acquire(s)) && Step(m, Acquire(s)) == m
  {
    MirrorSize(held, m);
  }

  lemma ReleaseStep(held: map<Entry, nat>, e: Entry, held': map<Entry, nat>, m: map<Name, nat>)
    requires Mirrors(held, m) && Interned(held.Keys) && AllShort(held.Keys) && e in held
    requires held' == if Counter(held[e]) <= 1 then Dropped(held, e) else Put(held, e, held[e] - 1)
    ensures CarriedOut(m, Release(e.name)) && (Mirrors(held', Step(m, Release(e.name))) <==> Told(m, Release(e.name)))
  {
    ReleasedMirror(held, e, held', m);
  }

  lemma NothingToRelease(held: map<Entry, nat>, s: Name, m: map<Name, nat>)
    requires Mirrors(held, m) && forall f :: f in held ==> f.name != s
    ensures !CarriedOut(m, Release(s)) && Step(m, Release(s)) == m && Told(m, Release(s))
  {
  }
}
