/** pb_Table of luaclib-src/pb/pb.h: an open hash table whose collision chains
    live in the table itself, as relative links between its entries. */
module PbTable {
  import opened Basics

  type Payload = int

  /** What memset leaves in the bytes after the entry header. */
  const BLANK: Payload := 0

  /** `next` counts entries relative to this one, 0 ending the chain; key 0
      marks an entry that holds no non-zero key. */
  datatype Entry = Entry(next: int, key: int, payload: Payload)

  const EMPTY := Entry(0, 0, BLANK)
  const HEADER: nat := 16
  const MIN_SIZE: nat := 8
  const MAX_BYTES: nat := 4294967195

  /** Byte counts are 32 bits wide. A table grows while its size is below
      MAX_BYTES / entrySize, so its last growth can ask for 2^32 bytes or more; then the
      count wraps and too little is allocated. That is told apart by WRAPPED. */
  predicate Fits(entrySize: nat, size: nat) {
    entrySize * size < 0x1_0000_0000
  }

  /** Why a key could not be entered. */
  const NO_ROOM: int := -1
  const WRAPPED: int := -2

  /** A table of that many entries cannot grow: the size limit is reached, or the byte
      count would wrap. */
  predicate Stuck(entrySize: nat, size: nat)
    requires entrySize > 0
  {
    size >= MAX_BYTES / entrySize || !Fits(entrySize, 2 * size)
  }

  /** The reasons a table of `size` entries, which is full, does not grow. */
  ghost predicate Refused(r: int, entrySize: nat, size: nat)
    requires entrySize > 0
  {
    && (r == NO_ROOM || r == WRAPPED)
    && (r == NO_ROOM <==> size >= MAX_BYTES / entrySize)
    && (r == WRAPPED ==> !Fits(entrySize, 2 * size))
  }
  const MULTIPLIER: nat := 2654435761

  /** pbT_hash. The size is a power of two, so masking is the remainder; entry 0
      is kept for the key 0. */
  function HashSlot(key: int, size: nat): (h: nat)
    requires size >= 2
    ensures h < size && (key != 0 ==> h >= 1)
  {
    var h := key * MULTIPLIER % size;
    if key != 0 && h == 0 then 1 else h
  }

  /** The entries of one chain, from its hash slot on. */
  ghost predicate ChainOk(t: seq<Entry>, h: nat, c: seq<nat>) {
    && |t| >= 2 && |c| > 0 && c[0] == h
    && (forall k :: 0 <= k < |c| ==> 1 <= c[k] < |t| && t[c[k]].key != 0 && HashSlot(t[c[k]].key, |t|) == h)
    && (forall k :: 0 <= k < |c| - 1 ==> c[k] + t[c[k]].next == c[k + 1])
    && t[c[|c| - 1]].next == 0
    && (forall k, l :: 0 <= k < l < |c| ==> c[k] != c[l])
  }

  /** `chains` holds the chain of every hash slot that has one, and every key is
      on the chain of its slot. */
  ghost predicate Chained(t: seq<Entry>, chains: map<nat, seq<nat>>) {
    && (forall h :: h in chains ==> ChainOk(t, h, chains[h]))
    && (forall s :: 0 <= s < |t| && t[s].key != 0 && |t| >= 2 ==>
        HashSlot(t[s].key, |t|) in chains && s in chains[HashSlot(t[s].key, |t|)])
  }

  /** `at` is where each non-zero key is, and no key is twice in the table. */
  ghost predicate Located(t: seq<Entry>, at: map<int, nat>) {
    && (forall s :: 0 <= s < |t| && t[s].key != 0 ==> t[s].key in at && at[t[s].key] == s)
    && (forall k :: k in at ==> k != 0 && at[k] < |t| && t[at[k]].key == k)
  }

  /** Entry 0 is never given to a non-zero key, and unused entries are blank. */
  ghost predicate Spare(t: seq<Entry>) {
    && (|t| > 0 ==> |t| >= MIN_SIZE && t[0].key == 0)
    && (forall s :: 0 <= s < |t| && t[s].key == 0 ==> t[s].next == 0)
    && (forall s :: 1 <= s < |t| && t[s].key == 0 ==> t[s].payload == BLANK)
  }

  ghost predicate TableOk(t: seq<Entry>, chains: map<nat, seq<nat>>, at: map<int, nat>) {
    Chained(t, chains) && Located(t, at) && Spare(t)
  }

  /** A chain one of whose entries has moved to `f`. */
  function Relocated(c: seq<nat>, k: nat, f: nat): (r: seq<nat>)
    requires k < |c|
  {
    c[k := f]
  }

  /** The chains once that of `h` has become `c` and one starts at `m`. */
  function Rechained(chains: map<nat, seq<nat>>, h: nat, c: seq<nat>, m: nat): (r: map<nat, seq<nat>>) {
    chains[h := c][m := [m]]
  }

  /** The table after a colliding key has been linked in behind its slot `m`. */
  function Joined(t: seq<Entry>, m: nat, f: nat, key: int): (r: seq<Entry>)
    requires m < |t| && f < |t|
  {
    t[m := t[m].(next := f - m)][f := Entry(if t[m].next != 0 then m - f + t[m].next else 0, key, BLANK)]
  }

  /** The table after the entry in `m` has moved to `f`, led there from `p`, and
      the key has taken its place. */
  function Displaced(t: seq<Entry>, m: nat, f: nat, p: nat, key: int): (r: seq<Entry>)
    requires m < |t| && f < |t| && p < |t|
  {
    t[p := t[p].(next := f - p)]
     [f := t[m].(next := if t[m].next != 0 then t[m].next + (m - f) else 0)]
     [m := Entry(0, key, BLANK)]
  }

  // ---- Chain surgery --------------------------------------------------------

  /** A chain is untouched by changes to entries outside it. */
  lemma ChainFrame(t: seq<Entry>, t': seq<Entry>, h: nat, c: seq<nat>)
    requires ChainOk(t, h, c) && |t'| == |t|
    requires forall k :: 0 <= k < |c| ==> t'[c[k]].key == t[c[k]].key && t'[c[k]].next == t[c[k]].next
    ensures ChainOk(t', h, c)
  {
  }

  /** Two chains have no entry in common. */
  lemma ChainsApart(t: seq<Entry>, h: nat, c: seq<nat>, g: nat, d: seq<nat>)
    requires ChainOk(t, h, c) && ChainOk(t, g, d) && h != g
    ensures forall k, l :: 0 <= k < |c| && 0 <= l < |d| ==> c[k] != d[l]
  {
  }

  /** A free entry is on no chain. */
  lemma FreeOffChain(t: seq<Entry>, h: nat, c: seq<nat>, f: nat)
    requires ChainOk(t, h, c) && f < |t| && t[f].key == 0
    ensures forall k :: 0 <= k < |c| ==> c[k] != f
  {
  }

  /** A chain outlives changes to another chain and to a free entry. */
  lemma OtherChain(t: seq<Entry>, t': seq<Entry>, g: nat, d: seq<nat>, h: nat, c: seq<nat>, f: nat)
    requires ChainOk(t, g, d) && ChainOk(t, h, c) && g != h
    requires |t'| == |t| && f < |t| && t[f].key == 0
    requires forall s :: 0 <= s < |t| && s != f && s !in c ==> t'[s] == t[s]
    ensures ChainOk(t', g, d)
  {
    ChainsApart(t, g, d, h, c);
    FreeOffChain(t, g, d, f);
    assert forall k :: 0 <= k < |d| ==> d[k] !in c && t'[d[k]] == t[d[k]];
    ChainFrame(t, t', g, d);
  }

  /** Which slots head a chain. */
  lemma SlotHead(t: seq<Entry>, chains: map<nat, seq<nat>>, m: nat)
    requires Chained(t, chains) && 2 <= |t| && m < |t|
    ensures m in chains <==> t[m].key != 0 && HashSlot(t[m].key, |t|) == m
    ensures m in chains ==> |chains[m]| > 0 && chains[m][0] == m
  {
    hide HashSlot;
    assert m in chains ==> ChainOk(t, m, chains[m]);
  }

  lemma JoinChain(t: seq<Entry>, m: nat, c: seq<nat>, f: nat, key: int)
    requires ChainOk(t, m, c) && 1 <= f < |t| && t[f].key == 0
    requires key != 0 && HashSlot(key, |t|) == m
    ensures ChainOk(Joined(t, m, f, key), m, [m, f] + c[1..])
  {
    hide HashSlot;
    FreeOffChain(t, m, c, f);
    var t' := Joined(t, m, f, key);
    var c' := [m, f] + c[1..];
    forall k | 2 <= k < |c'| ensures c'[k] == c[k - 1] && t'[c'[k]] == t[c[k - 1]] {
      assert c[0] != c[k - 1];
    }
    assert |c| > 1 ==> c[0] + t[c[0]].next == c[1] && t[m].next != 0;
    JoinLinks(t', c', c, t, m, f);
  }

  lemma JoinLinks(t': seq<Entry>, c': seq<nat>, c: seq<nat>, t: seq<Entry>, m: nat, f: nat)
    requires ChainOk(t, m, c) && |t'| == |t| && f < |t| && c' == [m, f] + c[1..]
    requires forall k :: 1 <= k < |c| ==> t'[c[k]].next == t[c[k]].next
    requires m + t'[m].next == f
    requires if |c| > 1 then f + t'[f].next == c[1] else t'[f].next == 0
    ensures forall k :: 0 <= k < |c'| - 1 ==> c'[k] < |t| && c'[k] + t'[c'[k]].next == c'[k + 1]
    ensures t'[c'[|c'| - 1]].next == 0
  {
    hide HashSlot;
    assert forall k :: 2 <= k < |c'| ==> c'[k] == c[k - 1];
  }

  lemma MoveInChain(t: seq<Entry>, h: nat, c: seq<nat>, k: nat, f: nat, key: int)
    requires ChainOk(t, h, c) && 1 <= f < |t| && t[f].key == 0 && 0 < k < |c|
    ensures ChainOk(Displaced(t, c[k], f, c[k - 1], key), h, Relocated(c, k, f))
  {
    hide HashSlot;
    FreeOffChain(t, h, c, f);
    var t' := Displaced(t, c[k], f, c[k - 1], key);
    var c' := Relocated(c, k, f);
    forall j | 0 <= j < |c| && j != k && j != k - 1 ensures t'[c'[j]] == t[c[j]] {
      assert if j < k then c[j] != c[k] else c[k] != c[j];
      assert if j < k - 1 then c[j] != c[k - 1] else c[k - 1] != c[j];
    }
    assert c[k - 1] != c[k];
    assert k < |c| - 1 ==> c[k] + t[c[k]].next == c[k + 1];
  }

  // ---- The three ways a key enters the table ----------------------------------

  /** It starts a chain of its own in its unused hash slot. */
  lemma StartChained(t: seq<Entry>, chains: map<nat, seq<nat>>, key: int)
    requires Chained(t, chains) && |t| >= 2 && key != 0
    requires t[HashSlot(key, |t|)].key == 0
    ensures var h := HashSlot(key, |t|); Chained(t[h := Entry(0, key, BLANK)], chains[h := [h]])
  {
    hide HashSlot;
    var h := HashSlot(key, |t|);
    var t' := t[h := Entry(0, key, BLANK)];
    SlotHead(t, chains, h);
    assert ChainOk(t', h, [h]);
    forall g | g in chains ensures ChainOk(t', g, chains[g]) {
      FreeOffChain(t, g, chains[g], h);
      ChainFrame(t, t', g, chains[g]);
    }
  }

  /** Its hash slot belongs to its own chain: it goes into the free entry `f`,
      linked right behind the slot. */
  lemma JoinChained(t: seq<Entry>, chains: map<nat, seq<nat>>, key: int, f: nat)
    requires Chained(t, chains) && |t| >= 2 && key != 0
    requires 1 <= f < |t| && t[f].key == 0 && HashSlot(key, |t|) in chains
    ensures var m := HashSlot(key, |t|);
      && |chains[m]| > 0 && Chained(Joined(t, m, f, key), chains[m := [m, f] + chains[m][1..]])
  {
    hide HashSlot, ChainOk;
    var m := HashSlot(key, |t|);
    SlotHead(t, chains, m);
    var c := chains[m];
    var t' := Joined(t, m, f, key);
    var c' := [m, f] + c[1..];
    JoinChain(t, m, c, f, key);
    assert c[0] == m;
    forall g | g in chains && g != m ensures ChainOk(t', g, chains[g]) {
      OtherChain(t, t', g, chains[g], m, c, f);
    }
    forall s | 0 <= s < |t| && t'[s].key != 0 && HashSlot(t'[s].key, |t|) == m ensures s in c' {
      InJoined(c, m, f, s);
    }
  }

  lemma InJoined(c: seq<nat>, m: nat, f: nat, s: nat)
    requires |c| > 0 && c[0] == m
    ensures s == f || s in c ==> s in [m, f] + c[1..]
  {
    var r := [m, f] + c[1..];
    assert r[1] == f && r[0] == m;
    if s in c && s != m {
      var k :| 0 <= k < |c| && c[k] == s;
      assert r[k + 1] == s;
    }
  }

  /** Its hash slot is taken by an entry of another chain: that entry moves to
      the free entry `f`, and the key starts its own chain in the slot. */
  lemma DisplaceChained(t: seq<Entry>, chains: map<nat, seq<nat>>, key: int, f: nat, h: nat, k: nat)
    requires Chained(t, chains) && |t| >= 2 && key != 0
    requires 1 <= f < |t| && t[f].key == 0
    requires h in chains && 0 < k < |chains[h]| && chains[h][k] == HashSlot(key, |t|)
    ensures chains[h][k - 1] < |t|
    ensures Chained(Displaced(t, HashSlot(key, |t|), f, chains[h][k - 1], key),
                    Rechained(chains, h, Relocated(chains[h], k, f), HashSlot(key, |t|)))
  {
    hide HashSlot, Relocated, ChainOk;
    var m := HashSlot(key, |t|);
    var c := chains[h];
    ChainAt(t, h, c, k);
    var t' := Displaced(t, m, f, c[k - 1], key);
    var c' := Relocated(c, k, f);
    MoveInChain(t, h, c, k, f, key);
    SlotHead(t, chains, m);
    LoneChain(t', m);
    forall g | g in chains && g != h ensures ChainOk(t', g, chains[g]) {
      OtherChain(t, t', g, chains[g], h, c, f);
    }
    DisplacedKeys(t, m, f, c[k - 1], key);
    hide Displaced;
    forall s | 0 <= s < |t| && s != m && t'[s].key != 0 && HashSlot(t'[s].key, |t|) == h ensures s in c' {
      InRelocated(c, k, f, s);
    }
  }

  lemma DisplacedKeys(t: seq<Entry>, m: nat, f: nat, p: nat, key: int)
    requires m < |t| && f < |t| && p < |t| && m != f && p != f
    ensures var t' := Displaced(t, m, f, p, key);
      && |t'| == |t| && t'[m].key == key && t'[f].key == t[m].key
      && forall s :: 0 <= s < |t| && s != m && s != f ==> t'[s].key == t[s].key
  {
  }

  lemma ChainAt(t: seq<Entry>, h: nat, c: seq<nat>, k: nat)
    requires ChainOk(t, h, c) && 0 < k < |c|
    ensures 1 <= c[k] < |t| && 1 <= c[k - 1] < |t| && c[k] != h && c[k - 1] != c[k]
    ensures t[c[k]].key != 0 && HashSlot(t[c[k]].key, |t|) == h && t[c[k - 1]].key != 0
  {
    hide HashSlot;
  }

  lemma LoneChain(t: seq<Entry>, m: nat)
    requires 1 <= m < |t| && t[m].key != 0 && t[m].next == 0 && HashSlot(t[m].key, |t|) == m
    ensures ChainOk(t, m, [m])
  {
    hide HashSlot;
  }

  lemma InRelocated(c: seq<nat>, k: nat, f: nat, s: nat)
    requires k < |c|
    ensures s == f || (s in c && s != c[k]) ==> s in Relocated(c, k, f)
  {
    var r := Relocated(c, k, f);
    assert r[k] == f;
    if s in c && s != c[k] {
      var j :| 0 <= j < |c| && c[j] == s;
      assert r[j] == s;
    }
  }

  /** `t'` and `at'` hold one non-zero key more than `t` and `at`, with a blank
      payload; no other payload has changed. */
  ghost predicate Entered(t: seq<Entry>, at: map<int, nat>, t': seq<Entry>, at': map<int, nat>, key: int) {
    && |t'| == |t| && key in at' && at'[key] < |t'| && t'[at'[key]].payload == BLANK
    && (forall k :: k in at' <==> k in at || k == key)
    && (forall k :: k in at && at[k] < |t| && k != key ==> at'[k] < |t'| && t'[at'[k]].payload == t[at[k]].payload)
    && (|t| > 0 ==> t'[0].payload == t[0].payload)
    && (forall s :: 0 <= s < |t| && t[s].key != 0 ==> t'[s].key != 0)
  }

  /** A key put in the unused entry `e`, links aside. */
  lemma LocatedPut(t: seq<Entry>, t': seq<Entry>, at: map<int, nat>, key: int, e: nat)
    requires Located(t, at) && Spare(t) && key != 0 && key !in at
    requires |t'| == |t| && 1 <= e < |t| && t[e].key == 0 && t'[e].key == key && t'[e].payload == BLANK
    requires forall s :: 0 <= s < |t| && s != e ==> t'[s].key == t[s].key && t'[s].payload == t[s].payload
    requires forall s :: 0 <= s < |t| && t'[s].key == 0 ==> t'[s].next == t[s].next
    ensures Located(t', at[key := e]) && Spare(t') && Entered(t, at, t', at[key := e], key)
  {
  }

  lemma LocatedDisplaced(t: seq<Entry>, at: map<int, nat>, m: nat, f: nat, p: nat, key: int)
    requires Located(t, at) && Spare(t) && key != 0 && key !in at
    requires 1 <= m < |t| && 1 <= f < |t| && p < |t| && t[f].key == 0 && t[m].key != 0 && t[p].key != 0 && p != m
    ensures var t', at' := Displaced(t, m, f, p, key), at[t[m].key := f][key := m];
      Located(t', at') && Spare(t') && Entered(t, at, t', at', key)
  {
    DisplacedKeys(t, m, f, p, key);
    var t' := Displaced(t, m, f, p, key);
    assert forall s :: 0 <= s < |t| && s != m && s != f ==> t'[s].payload == t[s].payload;
    assert t'[f].payload == t[m].payload;
  }

  // ---- How many keys a table holds ------------------------------------------------

  function Used(t: seq<Entry>, n: nat): (u: nat)
    requires n <= |t|
    ensures u <= n
  {
    if n == 0 then 0 else Used(t, n - 1) + (if t[n - 1].key != 0 then 1 else 0)
  }

  ghost function KeysBelow(t: seq<Entry>, n: nat): set<int>
    requires n <= |t|
  {
    set s | 0 <= s < n && t[s].key != 0 :: t[s].key
  }

  lemma {:induction false} KeysBelowCount(t: seq<Entry>, at: map<int, nat>, n: nat)
    requires Located(t, at) && n <= |t|
    ensures |KeysBelow(t, n)| == Used(t, n)
  {
    if n > 0 {
      KeysBelowCount(t, at, n - 1);
      if t[n - 1].key == 0 {
        assert KeysBelow(t, n) == KeysBelow(t, n - 1);
      } else {
        assert KeysBelow(t, n) == KeysBelow(t, n - 1) + {t[n - 1].key};
        assert t[n - 1].key !in KeysBelow(t, n - 1);
      }
    }
  }

  lemma UsedCount(t: seq<Entry>, at: map<int, nat>)
    requires Located(t, at)
    ensures |at| == Used(t, |t|)
  {
    KeysBelowCount(t, at, |t|);
    forall k | k in at ensures k in KeysBelow(t, |t|) {
      assert t[at[k]].key == k;
    }
    assert at.Keys == KeysBelow(t, |t|);
  }

  /** Entry 0 holds no key, so a table is full with one key less than entries. */
  lemma {:induction false} UsedBound(t: seq<Entry>, n: nat)
    requires 1 <= n <= |t| && t[0].key == 0
    ensures Used(t, n) <= n - 1
    ensures Used(t, n) == n - 1 <==> forall s :: 1 <= s < n ==> t[s].key != 0
  {
    if n > 1 {
      UsedBound(t, n - 1);
    }
  }

  /** The number of entries the table is full with. */
  ghost predicate Full(t: seq<Entry>) {
    forall s :: 1 <= s < |t| ==> t[s].key != 0
  }

  lemma FullCount(t: seq<Entry>, chains: map<nat, seq<nat>>, at: map<int, nat>)
    requires TableOk(t, chains, at) && |t| > 0
    ensures |at| <= |t| - 1
    ensures |at| == |t| - 1 <==> Full(t)
  {
    UsedCount(t, at);
    UsedBound(t, |t|);
  }

  /** All keys of `at` are in `at'`, with the payloads they had. */
  ghost predicate Kept(t: seq<Entry>, at: map<int, nat>, t': seq<Entry>, at': map<int, nat>) {
    forall k :: k in at && at[k] < |t| ==> k in at' && at'[k] < |t'| && t'[at'[k]].payload == t[at[k]].payload
  }

  lemma KeptTwice(t: seq<Entry>, at: map<int, nat>, t1: seq<Entry>, at1: map<int, nat>, t2: seq<Entry>, at2: map<int, nat>)
    requires Kept(t, at, t1, at1) && Kept(t1, at1, t2, at2)
    ensures Kept(t, at, t2, at2)
  {
  }

  lemma EnteredKept(t: seq<Entry>, at: map<int, nat>, t': seq<Entry>, at': map<int, nat>, key: int)
    requires Entered(t, at, t', at', key) && key !in at
    ensures Kept(t, at, t', at') && forall k :: k in at' <==> k in at || k == key
  {
  }

  lemma KeptZero(t: seq<Entry>, t': seq<Entry>, at: map<int, nat>, chains: map<nat, seq<nat>>)
    requires TableOk(t, chains, at) && |t'| == |t| && forall s :: 1 <= s < |t| ==> t'[s] == t[s]
    ensures Kept(t, at, t', at)
  {
    hide Chained;
  }

  lemma NothingKept(t: seq<Entry>, at: map<int, nat>, t': seq<Entry>, at': map<int, nat>)
    requires Located(t, at) && t == []
    ensures at == map[] && Kept(t, at, t', at')
  {
    assert forall k :: k in at ==> false;
  }

  /** Writing the payload of a key, or that of entry 0, changes nothing else. */
  lemma PayloadFrame(t: seq<Entry>, chains: map<nat, seq<nat>>, at: map<int, nat>, e: nat, v: Payload)
    requires TableOk(t, chains, at) && e < |t| && (e == 0 || t[e].key != 0)
    ensures TableOk(t[e := t[e].(payload := v)], chains, at)
  {
    hide HashSlot, ChainOk;
    var t' := t[e := t[e].(payload := v)];
    forall h | h in chains ensures ChainOk(t', h, chains[h]) {
      SameLinks(t, t', h, chains[h]);
    }
  }

  lemma SameLinks(t: seq<Entry>, t': seq<Entry>, h: nat, c: seq<nat>)
    requires ChainOk(t, h, c) && |t'| == |t|
    requires forall s :: 0 <= s < |t| ==> t'[s].key == t[s].key && t'[s].next == t[s].next
    ensures ChainOk(t', h, c)
  {
    ChainFrame(t, t', h, c);
  }

  /** The chain position of the entry in slot `m` when it is not at home there. */
  lemma OnChain(t: seq<Entry>, chains: map<nat, seq<nat>>, m: nat) returns (h: nat, k: nat)
    requires Chained(t, chains) && |t| >= 2 && 1 <= m < |t| && t[m].key != 0 && HashSlot(t[m].key, |t|) != m
    ensures h == HashSlot(t[m].key, |t|) && h in chains && 0 < k < |chains[h]| && chains[h][k] == m
    ensures ChainOk(t, h, chains[h])
  {
    hide HashSlot;
    h := HashSlot(t[m].key, |t|);
    k :| 0 <= k < |chains[h]| && chains[h][k] == m;
  }

  lemma ChainStep(t: seq<Entry>, h: nat, c: seq<nat>, j: nat, k: nat)
    requires ChainOk(t, h, c) && j < k < |c|
    ensures c[j] < |t| && c[j] + t[c[j]].next == c[j + 1] && 1 <= c[j + 1] < |t|
    ensures c[j + 1] == c[k] ==> j + 1 == k
  {
    hide HashSlot;
  }

  lemma Blanks(n: nat)
    requires n == 0 || n >= MIN_SIZE
    ensures TableOk(seq(n, i => EMPTY), map[], map[])
  {
  }

  /** The payload last found, before entry `n`, in an entry without a key. */
  function LastZero(t: seq<Entry>, n: nat): Payload
    requires n <= |t|
  {
    if n == 0 then BLANK else if t[n - 1].key == 0 then t[n - 1].payload else LastZero(t, n - 1)
  }

  lemma {:induction false} LastZeroOf(t: seq<Entry>, n: nat)
    requires Spare(t) && 1 <= n <= |t|
    ensures LastZero(t, n) == if (forall s :: 1 <= s < n ==> t[s].key != 0) then t[0].payload else BLANK
  {
    if n > 1 {
      LastZeroOf(t, n - 1);
    }
  }

  /** The keys of the first `n` entries of `t`, and only those, are in `t'`, with
      the payloads they have in `t`. */
  ghost predicate ReenteredIn(t: seq<Entry>, at: map<int, nat>, t': seq<Entry>, at': map<int, nat>, n: nat) {
    && (forall k :: k in at' <==> k in at && at[k] < n)
    && Kept(t', at', t, at)
  }

  lemma UsedBelow(t: seq<Entry>, at: map<int, nat>, at': map<int, nat>, n: nat)
    requires Located(t, at) && n <= |t|
    requires forall k :: k in at' <==> k in at && at[k] < n
    ensures |at'| == Used(t, n)
  {
    KeysBelowCount(t, at, n);
    forall k | k in at' ensures k in KeysBelow(t, n) {
      assert t[at[k]].key == k;
    }
    assert at'.Keys == KeysBelow(t, n);
  }

  lemma SameCount(at: map<int, nat>, at': map<int, nat>)
    requires forall k :: k in at' <==> k in at
    ensures |at'| == |at|
  {
    forall k | k in at.Keys + at'.Keys ensures k in at.Keys && k in at'.Keys {
      assert k in at <==> k in at';
    }
    assert at'.Keys == at.Keys;
  }

  /** While a table is refilled it holds too few keys to be full. */
  lemma Underfull(t: seq<Entry>, chains: map<nat, seq<nat>>, at: map<int, nat>,
                  t': seq<Entry>, chains': map<nat, seq<nat>>, at': map<int, nat>, n: nat)
    requires TableOk(t, chains, at) && TableOk(t', chains', at') && n < |t| <= |t'|
    requires forall k :: k in at' <==> k in at && at[k] < n
    ensures |at'| < |t'| - 1 && !Full(t')
  {
    hide HashSlot, Chained, KeysBelow, Used;
    UsedBelow(t, at, at', n);
    if n > 0 {
      UsedBound(t, n);
    }
    FullCount(t', chains', at');
  }

  /** Entry `i` of `t` has been entered in `t0` as entry `e` of `t1`. */
  lemma ReenteredStep(t: seq<Entry>, at: map<int, nat>, t0: seq<Entry>, at0: map<int, nat>,
                      t1: seq<Entry>, at1: map<int, nat>, e: nat, i: nat)
    requires i < |t| && e < |t1| && Located(t, at) && Located(t0, at0) && Located(t1, at1) && ReenteredIn(t, at, t0, at0, i)
    requires Kept(t0, at0, t1, at1)
    requires forall k :: k in at1 <==> k in at0 || (k == t[i].key && k != 0)
    requires t[i].key != 0 ==> at1[t[i].key] == e
    requires t[i].key == 0 ==> e == 0 && t1[0].key == 0
    ensures ReenteredIn(t, at, t1[e := t1[e].(payload := t[i].payload)], at1, i + 1)
  {
    var t2 := t1[e := t1[e].(payload := t[i].payload)];
    forall k | k in at1 ensures k in at && at[k] < i + 1 && t2[at1[k]].payload == t[at[k]].payload {
      assert k != t[i].key ==> k in at0 && t1[at1[k]].key == k;
    }
  }

  lemma AllReentered(t: seq<Entry>, chains: map<nat, seq<nat>>, at: map<int, nat>, t': seq<Entry>, at': map<int, nat>)
    requires TableOk(t, chains, at) && ReenteredIn(t, at, t', at', |t|)
    requires Located(t', at')
    ensures Kept(t, at, t', at') && forall k :: k in at' <==> k in at
    ensures LastZero(t, |t|) == if |t| > 0 && Full(t) then t[0].payload else BLANK
  {
    if |t| > 0 {
      LastZeroOf(t, |t|);
    }
  }

  ghost predicate TailUsed(t: seq<Entry>, from: nat) {
    forall s :: from <= s < |t| ==> t[s].key != 0
  }

  lemma PayloadWrite(t: seq<Entry>, chains: map<nat, seq<nat>>, at: map<int, nat>, lastfree: nat, e: nat, v: Payload)
    requires TableOk(t, chains, at) && e < |t| && (e == 0 || t[e].key != 0) && TailUsed(t, lastfree)
    ensures var t' := t[e := t[e].(payload := v)]; TableOk(t', chains, at) && TailUsed(t', lastfree)
  {
    PayloadFrame(t, chains, at, e, v);
  }

  lemma LocatedIn(t: seq<Entry>, at: map<int, nat>, key: int)
    requires Located(t, at)
    ensures key == 0 || t == [] ==> key !in at
    ensures key in at ==> at[key] < |t| && t[at[key]].key == key
  {
  }

  lemma LocatedAt(t: seq<Entry>, at: map<int, nat>, e: nat)
    requires Located(t, at) && e < |t| && t[e].key != 0
    ensures t[e].key in at && at[t[e].key] == e
  {
  }

  /** A stretch of entries each leading to the next, the last to none. */
  ghost predicate Walk(t: seq<Entry>, c: seq<nat>) {
    && (forall k :: 0 <= k < |c| ==> c[k] < |t|)
    && (forall k :: 0 <= k < |c| - 1 ==> c[k] + t[c[k]].next == c[k + 1] && t[c[k]].next != 0)
    && (|c| > 0 ==> t[c[|c| - 1]].next == 0)
  }

  lemma ChainWalk(t: seq<Entry>, c: seq<nat>, j: nat)
    requires Walk(t, c) && j < |c|
    ensures c[j] < |t| && (t[c[j]].next == 0 <==> j == |c| - 1)
    ensures j < |c| - 1 ==> c[j] + t[c[j]].next == c[j + 1] && c[j + 1] < |t|
  {
  }

  lemma ChainIsWalk(t: seq<Entry>, h: nat, c: seq<nat>)
    requires ChainOk(t, h, c)
    ensures Walk(t, c)
  {
    hide HashSlot;
    forall k | 0 <= k < |c| - 1 ensures t[c[k]].next != 0 {
      assert c[k] != c[k + 1];
    }
  }

  /** The chain an entry is on, or the entry alone when it is unused. */
  lemma ChainThrough(t: seq<Entry>, chains: map<nat, seq<nat>>, m: nat) returns (c: seq<nat>, j: nat)
    requires Chained(t, chains) && Spare(t) && 1 <= m < |t|
    ensures Walk(t, c) && j < |c| && c[j] == m
    ensures m in chains ==> c == chains[m] && j == 0
  {
    hide HashSlot;
    SlotHead(t, chains, m);
    if t[m].key == 0 {
      c, j := [m], 0;
    } else if HashSlot(t[m].key, |t|) == m {
      c, j := chains[m], 0;
      ChainIsWalk(t, m, c);
    } else {
      var h, k := OnChain(t, chains, m);
      c, j := chains[h], k;
      ChainIsWalk(t, h, c);
    }
  }

  /** A key in the table is on the chain that goes through its hash slot. */
  lemma KeyOnChain(t: seq<Entry>, chains: map<nat, seq<nat>>, at: map<int, nat>, key: int, c: seq<nat>, j: nat)
    requires TableOk(t, chains, at) && |t| > 0 && key != 0 && j < |c|
    requires HashSlot(key, |t|) in chains ==> c == chains[HashSlot(key, |t|)] && j == 0
    ensures key in at ==> at[key] in c[j..]
  {
    hide HashSlot, ChainOk;
    if key in at {
      assert t[at[key]].key == key;
      assert c[0..] == c;
    }
  }

  lemma LastOfChain(c: seq<nat>, j: nat, at: map<int, nat>, key: int, t: seq<Entry>)
    requires Located(t, at) && j == |c| - 1 && c[j] < |t| && t[c[j]].key != key
    requires key in at ==> at[key] in c[j..]
    ensures key !in at
  {
    assert c[j..] == [c[j]];
  }

  ghost predicate HoldsIn(t: seq<Entry>, at: map<int, nat>, hasZero: bool, m: map<int, Payload>) {
    && (forall k :: k != 0 ==> (k in at <==> k in m))
    && (forall k :: k in at && k in m && at[k] < |t| ==> t[at[k]].payload == m[k])
    && (if 0 in m then |t| > 0 && hasZero && t[0].payload == m[0] else hasZero == (|t| > MIN_SIZE))
    && (0 !in m && |t| > 0 ==> t[0].payload == BLANK)
  }

  /** Writing the payload of the entry just set turns the one map into the other. */
  lemma PutHolds(t: seq<Entry>, at: map<int, nat>, zero: bool, t1: seq<Entry>, at1: map<int, nat>, zero1: bool,
                 m: map<int, Payload>, key: int, e: nat, v: Payload)
    requires Located(t, at) && Located(t1, at1) && HoldsIn(t, at, zero, m) && Kept(t, at, t1, at1)
    requires |t| == 0 || |t| >= MIN_SIZE
    requires if |t| == 0 then |t1| == MIN_SIZE else |t1| >= |t|
    requires forall k :: k in at1 <==> k in at || (k == key && k != 0)
    requires e < |t1| && e == (if key != 0 then at1[key] else 0) && t1[0].key == 0
    requires key != 0 ==> t1[0].payload == if |t| > 0 then t[0].payload else BLANK
    requires zero1 == (zero || key == 0 || (0 < |t| < |t1|))
    ensures HoldsIn(t1[e := t1[e].(payload := v)], at1, zero1, m[key := v])
  {
    var t2, m2 := t1[e := t1[e].(payload := v)], m[key := v];
    forall k | k in at1 && k in m2 ensures t2[at1[k]].payload == m2[k] {
      assert t1[at1[k]].key == k;
      assert k != key ==> k in at;
    }
    assert key != 0 ==> e != 0;
  }

  /** With entries of 24 bytes the count wraps when a table of 2^27 entries is full. */
  lemma GrowthWraps()
    ensures Fits(24, 0x800_0000) && LargerSize(2 * 0x800_0000, 24) == 2 * 0x800_0000 && !Fits(24, 2 * 0x800_0000)
  {
    LargePowers();
    DoubledFromMin(0x800_0000, 24);
  }

  /** The size to grow to. */
  function LargerSize(want: nat, entrySize: nat): (r: nat)
    requires entrySize > 0
  {
    DoubledUntil(MIN_SIZE, want, MAX_BYTES / entrySize)
  }

  method FindSize(want: nat, entrySize: nat) returns (newSize: nat)
    requires entrySize > 0
    ensures newSize == LargerSize(want, entrySize) && newSize >= MIN_SIZE && PowerOfTwo(newSize)
  {
    newSize := MIN_SIZE;
    PowerOf8And16();
    while newSize < MAX_BYTES / entrySize && newSize < want
      invariant newSize >= MIN_SIZE && PowerOfTwo(newSize)
      invariant LargerSize(want, entrySize) == DoubledUntil(newSize, want, MAX_BYTES / entrySize)
      decreases want - newSize
    {
      newSize := newSize * 2;
    }
  }

  lemma PowerAbove8(n: nat)
    requires PowerOfTwo(n) && n > 8
    ensures n >= 16
  {
    PowerOf8And16();
    if n < 16 {
      PowersApart(n, 8);
    }
  }

  lemma DoubledFromMin(size: nat, entrySize: nat)
    requires PowerOfTwo(size) && size >= MIN_SIZE && entrySize > 0
    ensures var r := LargerSize(2 * size, entrySize);
      if size < MAX_BYTES / entrySize then r == 2 * size else r <= size
  {
    PowerOf8And16();
    DoubledOnce(MIN_SIZE, size, MAX_BYTES / entrySize);
  }

  class Table {
    const entrySize: nat
    var size: nat
    var lastfree: nat
    var hasZero: bool
    var hash: array<Entry>
    ghost var chains: map<nat, seq<nat>>
    ghost var at: map<int, nat>

    ghost predicate Core()
      reads this, hash
    {
      && entrySize > HEADER && hash.Length == size && TableOk(hash[..], chains, at)
      && (size > 0 ==> PowerOfTwo(size) && size >= MIN_SIZE && 1 <= lastfree <= size)
      && Fits(entrySize, size) && Fits(entrySize, MIN_SIZE)
    }

    ghost predicate Valid()
      reads this, hash
    {
      Core() && (size > 0 ==> TailUsed(hash[..], lastfree))
    }

    /** pb_inittable: no entries yet. */
    constructor (entrySize: nat)
      requires entrySize > HEADER && Fits(entrySize, MIN_SIZE)
      ensures Valid() && fresh(hash) && this.entrySize == entrySize
      ensures size == 0 && !hasZero && at == map[]
    {
      this.entrySize := entrySize;
      size, lastfree, hasZero := 0, 0, false;
      hash := new Entry[0];
      chains, at := map[], map[];
    }

    /** A copy of another table's header with `n` zeroed entries. */
    constructor Zeroed(entrySize: nat, n: nat, hasZero: bool)
      requires entrySize > HEADER && n >= MIN_SIZE && PowerOfTwo(n) && Fits(entrySize, n) && Fits(entrySize, MIN_SIZE)
      ensures Valid() && fresh(hash) && this.entrySize == entrySize && size == n
      ensures this.hasZero == hasZero && at == map[] && hash[0].payload == BLANK
    {
      this.entrySize := entrySize;
      size, lastfree, this.hasZero := n, n, hasZero;
      hash := new Entry[n](i => EMPTY);
      chains, at := map[], map[];
      new;
      Blanks(n);
      assert hash[..] == seq(n, i => EMPTY);
    }

    /** The next unused entry below `lastfree`; 0 when there is none. */
    method FindFree() returns (f: nat)
      requires Valid() && size > 0
      modifies this`lastfree
      ensures Core()
      ensures f == 0 ==> Full(hash[..]) && Valid()
      ensures f != 0 ==> f < size && hash[f].key == 0 && lastfree == f && TailUsed(hash[..], f + 1)
    {
      hide HashSlot, ChainOk, Chained, Located;
      f := 0;
      while lastfree > 1
        invariant Core()
        invariant 1 <= lastfree <= size && TailUsed(hash[..], lastfree)
        decreases lastfree
      {
        lastfree := lastfree - 1;
        var cur := lastfree;
        if hash[cur].key == 0 && hash[cur].next == 0 {
          f := cur;
          return;
        }
      }
    }

    /** The entry that leads to `m`, on the chain of the key in `m`. */
    method Predecessor(m: nat) returns (on: nat, ghost h: nat, ghost k: nat)
      requires Core() && size > 0 && 1 <= m < size && hash[m].key != 0 && HashSlot(hash[m].key, size) != m
      ensures h in chains && 0 < k < |chains[h]| && chains[h][k] == m && on == chains[h][k - 1] < size
      ensures 0 <= on < size && on + hash[on].next == m
      ensures h == HashSlot(hash[m].key, size) && ChainOk(hash[..], h, chains[h])
    {
      hide HashSlot, ChainOk, Located, Spare;
      on := HashSlot(hash[m].key, size);
      h, k := OnChain(hash[..], chains, m);
      SlotHead(hash[..], chains, h);
      ghost var j := 0;
      ChainStep(hash[..], h, chains[h], j, k);
      while on + hash[on].next != m
        invariant 0 <= j < k && on == chains[h][j] < size
        invariant on + hash[on].next == chains[h][j + 1]
        invariant chains[h][j + 1] == m ==> j + 1 == k
        decreases k - j
      {
        on := on + hash[on].next;
        j := j + 1;
        ChainStep(hash[..], h, chains[h], j, k);
      }
    }

    /** The part of pbT_newkey that makes room for a key whose hash slot `mp` is
        taken, with the help of the free entry `f`. The key still has to be
        written to the entry it returns. */
    method Collide(key: int, mp: nat, f: nat)
      returns (e: nat, ghost chains': map<nat, seq<nat>>, ghost at': map<int, nat>)
      requires Core() && size > 0 && key != 0 && key !in at
      requires mp == HashSlot(key, size) && hash[mp].key != 0
      requires 1 <= f < size && hash[f].key == 0
      modifies hash
      ensures 1 <= e < size && key in at' && at'[key] == e
      ensures var t' := hash[..][e := hash[e].(key := key, payload := BLANK)];
        TableOk(t', chains', at') && Entered(old(hash[..]), at, t', at', key) && t'[f].key != 0
    {
      hide HashSlot, Chained, Located, Spare, ChainOk, Entered;
      SlotHead(hash[..], chains, mp);
      if HashSlot(hash[mp].key, size) != mp {
        e := mp;
        chains', at' := Displace(key, mp, f);
      } else {
        e := f;
        chains', at' := JoinUp(key, mp, f);
      }
    }

    /** The entry in the slot belongs to another chain and makes way. */
    method Displace(key: int, mp: nat, f: nat) returns (ghost chains': map<nat, seq<nat>>, ghost at': map<int, nat>)
      requires Core() && size > 0 && key != 0 && key !in at
      requires mp == HashSlot(key, size) && hash[mp].key != 0 && HashSlot(hash[mp].key, size) != mp
      requires 1 <= f < size && hash[f].key == 0
      modifies hash
      ensures 1 <= mp < size && key in at' && at'[key] == mp
      ensures var t' := hash[..][mp := hash[mp].(key := key, payload := BLANK)];
        TableOk(t', chains', at') && Entered(old(hash[..]), at, t', at', key) && t'[f].key != 0
    {
      hide HashSlot, Chained, Located, Spare, ChainOk, Entered, Relocated, Rechained;
      ghost var t := hash[..];
      SlotHead(t, chains, mp);
      var on, h, k := Predecessor(mp);
      ChainAt(t, h, chains[h], k);
      DisplaceChained(t, chains, key, f, h, k);
      LocatedDisplaced(t, at, mp, f, on, key);
      chains' := Rechained(chains, h, Relocated(chains[h], k, f), mp);
      at' := at[t[mp].key := f][key := mp];
      hash[on] := hash[on].(next := f - on);
      hash[f] := hash[mp];
      if hash[mp].next != 0 {
        hash[f] := hash[f].(next := hash[f].next + (mp - f));
        hash[mp] := hash[mp].(next := 0);
      }
      assert hash[..][mp := hash[mp].(key := key, payload := BLANK)] == Displaced(t, mp, f, on, key);
    }

    /** It heads the key's own chain, which the key joins. */
    method JoinUp(key: int, mp: nat, f: nat) returns (ghost chains': map<nat, seq<nat>>, ghost at': map<int, nat>)
      requires Core() && size > 0 && key != 0 && key !in at
      requires mp == HashSlot(key, size) && hash[mp].key != 0 && HashSlot(hash[mp].key, size) == mp
      requires 1 <= f < size && hash[f].key == 0
      modifies hash
      ensures key in at' && at'[key] == f
      ensures var t' := hash[..][f := hash[f].(key := key, payload := BLANK)];
        TableOk(t', chains', at') && Entered(old(hash[..]), at, t', at', key) && t'[f].key != 0
    {
      hide HashSlot, Chained, Located, ChainOk, Entered;
      ghost var t := hash[..];
      SlotHead(t, chains, mp);
      JoinChained(t, chains, key, f);
      chains' := chains[mp := [mp, f] + chains[mp][1..]];
      at' := at[key := f];
      LocatedPut(t, Joined(t, mp, f, key), at, key, f);
      if hash[mp].next != 0 {
        hash[f] := hash[f].(next := mp - f + hash[mp].next);
      }
      hash[mp] := hash[mp].(next := f - mp);
      assert hash[..][f := hash[f].(key := key, payload := BLANK)] == Joined(t, mp, f, key);
    }

    /** pbT_newkey up to the point where a full table must grow, which -1 tells. */
    method Enter(key: int) returns (r: int)
      requires Valid() && size > 0 && key !in at
      modifies this`lastfree, this`hasZero, this`chains, this`at, hash
      ensures Valid()
      ensures r < 0 <==> key != 0 && Full(old(hash[..]))
      ensures r < 0 ==> hash[..] == old(hash[..]) && at == old(at) && hasZero == old(hasZero)
      ensures r >= 0 ==> r < size && Kept(old(hash[..]), old(at), hash[..], at) && hash[r].payload == BLANK
      ensures r >= 0 ==> forall k :: k in at <==> k in old(at) || (k == key && k != 0)
      ensures r >= 0 ==> r == (if key != 0 then at[key] else 0) && hasZero == (old(hasZero) || key == 0)
      ensures r >= 0 && key != 0 ==> hash[0].payload == old(hash[0].payload)
    {
      hide HashSlot, Chained, Located, ChainOk, PowerOfTwo, LargerSize, Fits;
      ghost var t, at0 := hash[..], at;
      if key == 0 {
        PayloadFrame(hash[..], chains, at, 0, BLANK);
        hasZero := true;
        hash[0] := hash[0].(payload := BLANK);
        KeptZero(t, hash[..], at, chains);
        return 0;
      }
      var mp := HashSlot(key, size);
      if hash[mp].key != 0 {
        var f := FindFree();
        if f == 0 {
          return -1;
        }
        mp, chains, at := Collide(key, mp, f);
      } else {
        StartChained(hash[..], chains, key);
        LocatedPut(hash[..], hash[..][mp := Entry(0, key, BLANK)], at, key, mp);
        chains, at := chains[mp := [mp]], at[key := mp];
      }
      hash[mp] := hash[mp].(key := key, payload := BLANK);
      EnteredKept(t, at0, hash[..], at, key);
      r := mp;
    }

    /** pbT_newkey. A key that is new to the table gets an entry with a blank
        payload, and a full table is grown first; nothing else is lost. */
    method NewKey(key: int) returns (r: int)
      requires Valid() && key !in at
      modifies this, hash
      ensures Valid() && (hash == old(hash) || fresh(hash))
      ensures r < 0 ==> key != 0 && old(size) > 0 && Full(old(hash[..])) && Refused(r, entrySize, size)
      ensures r < 0 ==> size == old(size) && hash == old(hash) && hash[..] == old(hash[..])
      ensures r < 0 ==> at == old(at) && hasZero == old(hasZero)
      ensures r >= 0 ==> r < size && Kept(old(hash[..]), old(at), hash[..], at) && hash[r].payload == BLANK
      ensures r >= 0 ==> forall k :: k in at <==> k in old(at) || (k == key && k != 0)
      ensures r >= 0 ==> r == if key != 0 then at[key] else 0
      ensures r >= 0 && key != 0 ==> hash[0].payload == (if old(size) > 0 then old(hash[0].payload) else BLANK)
      ensures r >= 0 ==> (size == old(size) <==> old(size) > 0 && (key == 0 || !Full(old(hash[..]))))
      ensures r >= 0 ==> if old(size) == 0 then size == MIN_SIZE else size == old(size) || size == 2 * old(size)
      ensures r >= 0 && 0 < old(size) < size ==> !Stuck(entrySize, old(size))
      ensures r >= 0 && size == old(size) ==> hash == old(hash)
      ensures r >= 0 ==> hasZero == (old(hasZero) || key == 0 || (0 < old(size) < size))
      decreases if size == 0 || |at| >= size - 1 then 2 else 0, 1
    {
      hide HashSlot, Chained, Located, ChainOk, TailUsed, Spare, Full, Kept, PowerOfTwo, LargerSize, Fits;
      ghost var t, at0 := hash[..], at;
      if size == 0 {
        FirstEntries();
        r := Enter(key);
        NothingKept(t, at0, hash[..], at);
      } else {
        FullCount(hash[..], chains, at);
        r := Enter(key);
        if r < 0 {
          r := GrowForKey(key);
        }
      }
    }

    /** Growing a table that has no entries yet always succeeds. */
    method FirstEntries()
      requires Valid() && size == 0
      modifies this
      ensures Valid() && size == MIN_SIZE && fresh(hash) && at == map[] && !Full(hash[..])
      ensures hasZero == old(hasZero) && hash[0].payload == BLANK
      decreases 2, 0
    {
      hide HashSlot, Chained, ChainOk, TailUsed, Full, PowerOfTwo;
      NothingKept(hash[..], at, hash[..], at);
      var n := Resize(2 * size);
      assert forall k :: k in at ==> false;
      assert at == map[];
      FullCount(hash[..], chains, at);
    }

    /** The growing end of pbT_newkey. */
    method GrowForKey(key: int) returns (r: int)
      requires Valid() && size > 0 && key !in at && key != 0 && Full(hash[..])
      modifies this, hash
      ensures Valid()
      ensures r < 0 ==> Refused(r, entrySize, size)
      ensures r < 0 ==> size == old(size) && hash == old(hash) && hash[..] == old(hash[..])
      ensures r < 0 ==> at == old(at) && hasZero == old(hasZero)
      ensures r >= 0 ==> r < size && Kept(old(hash[..]), old(at), hash[..], at) && hash[r].payload == BLANK
      ensures r >= 0 ==> forall k :: k in at <==> k in old(at) || k == key
      ensures r >= 0 ==> r == at[key] && hash[0].payload == old(hash[0].payload) && hasZero
      ensures r >= 0 ==> size == 2 * old(size) && !Stuck(entrySize, old(size)) && fresh(hash)
      decreases 2, 0
    {
      hide HashSlot, Chained, Located, ChainOk, TailUsed, Spare, Full, Kept, PowerOfTwo, LargerSize, Fits;
      ghost var t, at0 := hash[..], at;
      FullCount(t, chains, at);
      DoubledFromMin(size, entrySize);
      var n := Resize(2 * size);
      if n <= 0 {
        return if n == 0 then NO_ROOM else WRAPPED;
      }
      ghost var t1, at1 := hash[..], at;
      SameCount(at0, at1);
      FullCount(t1, chains, at1);
      r := NewKey(key);
      KeptTwice(t, at0, t1, at1, hash[..], at);
    }

    /** pb_resizetable to no fewer entries than there are: every entry is entered anew
        into the other table, which never has to grow meanwhile. */
    method Resize(want: nat) returns (newSize: int)
      requires Valid() && (want >= size || LargerSize(want, entrySize) >= size)
      modifies this
      ensures Valid()
      ensures newSize <= 0 ==> hash == old(hash) && at == old(at)
      ensures newSize <= 0 ==> size == old(size) && hasZero == old(hasZero) && lastfree == old(lastfree)
      ensures var n := LargerSize(want, entrySize);
        newSize == if n < want then 0 else if !Fits(entrySize, n) then WRAPPED else n
      ensures newSize > 0 ==> newSize == size
      ensures newSize > 0 ==> fresh(hash) && hasZero == (old(hasZero) || old(size) > 0)
      ensures newSize > 0 ==> Kept(old(hash[..]), old(at), hash[..], at) && forall k :: k in at <==> k in old(at)
      ensures newSize > 0 ==>
        hash[0].payload == if old(size) > 0 && Full(old(hash[..])) then old(hash[0].payload) else BLANK
      decreases 1, 2
    {
      hide TailUsed, Full, Kept, Spare, LastZero, Chained, ReenteredIn, ChainOk, HashSlot, PowerOfTwo, LargerSize;
      newSize := FindSize(want, entrySize);
      if newSize < want {
        return 0;
      }
      if !Fits(entrySize, newSize) {
        return WRAPPED;
      }
      var nt := new Table.Zeroed(entrySize, newSize, hasZero);
      Refill(nt);
      AllReentered(hash[..], chains, at, nt.hash[..], nt.at);
      size, lastfree, hasZero, hash := nt.size, nt.lastfree, nt.hasZero, nt.hash;
      chains, at := nt.chains, nt.at;
    }

    /** The loop of pb_resizetable. */
    method Refill(nt: Table)
      requires Valid() && nt != this && nt.hash != hash
      requires nt.Valid() && nt.size >= size && nt.size > 0 && nt.entrySize == entrySize
      requires nt.at == map[] && nt.hash[0].payload == BLANK
      modifies nt, nt.hash
      ensures nt.Valid() && nt.hash == old(nt.hash) && nt.size == old(nt.size)
      ensures ReenteredIn(hash[..], at, nt.hash[..], nt.at, size)
      ensures nt.hasZero == (old(nt.hasZero) || size > 0)
      ensures nt.hash[0].payload == LastZero(hash[..], size)
      decreases 1, 1
    {
      hide Chained, Located, TailUsed, HashSlot;
      var i := 0;
      while i < size
        invariant 0 <= i <= size
        invariant nt.Valid() && nt.hash == old(nt.hash) && nt.size == old(nt.size)
        invariant ReenteredIn(hash[..], at, nt.hash[..], nt.at, i)
        invariant nt.hasZero == (old(nt.hasZero) || i > 0)
        invariant nt.hash[0].payload == LastZero(hash[..], i)
      {
        Reenter(nt, i);
        i := i + 1;
      }
    }

    /** One round of it. */
    method Reenter(nt: Table, i: nat)
      requires Valid() && i < size
      requires nt != this && nt.hash != hash && nt.Valid() && nt.size >= size && nt.entrySize == entrySize
      requires ReenteredIn(hash[..], at, nt.hash[..], nt.at, i)
      modifies nt, nt.hash
      ensures nt.Valid() && nt.hash == old(nt.hash) && nt.size == old(nt.size)
      ensures ReenteredIn(hash[..], at, nt.hash[..], nt.at, i + 1)
      ensures nt.hasZero == (old(nt.hasZero) || hash[i].key == 0)
      ensures nt.hash[0].payload == if hash[i].key == 0 then hash[i].payload else old(nt.hash[0].payload)
      decreases 1, 0
    {
      hide HashSlot, Chained, ChainOk, Full, Kept, TailUsed, PowerOfTwo;
      ghost var t0, at0 := nt.hash[..], nt.at;
      Underfull(hash[..], chains, at, t0, nt.chains, at0, i);
      var e := nt.NewKey(hash[i].key);
      ghost var t1 := nt.hash[..];
      PayloadWrite(t1, nt.chains, nt.at, nt.lastfree, e, hash[i].payload);
      nt.hash[e] := nt.hash[e].(payload := hash[i].payload);
      ReenteredStep(hash[..], at, t0, at0, t1, nt.at, e, i);
    }

    /** pb_gettable: the entry of a key, or -1. A non-zero key is found exactly when
        it is in the table; the key 0 when its flag is set. */
    method Get(key: int) returns (r: int)
      requires Valid()
      ensures key != 0 ==> r == if key in at then at[key] else -1
      ensures key == 0 ==> r == if size > 0 && hasZero then 0 else -1
      ensures r < size
    {
      hide HashSlot, Chained, Located, ChainOk, TailUsed, PowerOfTwo;
      LocatedIn(hash[..], at, key);
      if size == 0 {
        return -1;
      }
      if key == 0 {
        return if hasZero then 0 else -1;
      }
      var e := HashSlot(key, size);
      ghost var c, j := ChainThrough(hash[..], chains, e);
      ChainWalk(hash[..], c, j);
      KeyOnChain(hash[..], chains, at, key, c, j);
      while hash[e].key != key
        invariant Walk(hash[..], c) && 0 <= j < |c| && e == c[j] < size
        invariant key in at ==> at[key] in c[j..]
        decreases |c| - j
      {
        ChainWalk(hash[..], c, j);
        if hash[e].next == 0 {
          LastOfChain(c, j, at, key, hash[..]);
          return -1;
        }
        e := e + hash[e].next;
        j := j + 1;
      }
      LocatedAt(hash[..], at, e);
      r := e;
    }

    /** pb_settable: the entry of a key, made when there is none. */
    method Set(key: int) returns (r: int)
      requires Valid()
      modifies this, hash
      ensures Valid() && (hash == old(hash) || fresh(hash))
      ensures r < 0 ==> key != 0 && key !in at && size > 0 && Refused(r, entrySize, size) && size == old(size) && hash == old(hash)
      ensures r < 0 ==> hash[..] == old(hash[..]) && at == old(at) && hasZero == old(hasZero)
      ensures r >= 0 ==> r < size && Kept(old(hash[..]), old(at), hash[..], at)
      ensures r >= 0 ==> forall k :: k in at <==> k in old(at) || (k == key && k != 0)
      ensures r >= 0 ==> r == if key != 0 then at[key] else 0
      ensures r >= 0 && key != 0 ==> hash[0].payload == (if old(size) > 0 then old(hash[0].payload) else BLANK)
      ensures r >= 0 ==> if old(size) == 0 then size == MIN_SIZE else size == old(size) || size == 2 * old(size)
      ensures 0 < old(size) < size ==> Full(old(hash[..])) && key != 0 && key !in old(at)
      ensures r < 0 <==> key != 0 && key !in old(at) && old(size) > 0 && Full(old(hash[..])) && Stuck(entrySize, old(size))
      ensures r >= 0 ==> hasZero == (old(hasZero) || key == 0 || (0 < old(size) < size))
    {
      hide HashSlot, Chained, Located, ChainOk, TailUsed, PowerOfTwo, Spare;
      r := Get(key);
      if r < 0 {
        LocatedIn(hash[..], at, key);
        r := NewKey(key);
      }
    }

    /** The table stands for the finite map `m`: non-zero keys are found as `m`
        has them. The key 0 is found when `m` has it, and also, with a blank
        payload, once the table has outgrown its first allocation. */
    ghost predicate Holds(m: map<int, Payload>)
      requires Valid()
      reads this, hash
    {
      HoldsIn(hash[..], at, hasZero, m)
    }

    lemma HoldsNothing()
      requires Valid() && size == 0 && !hasZero && at == map[]
      ensures Holds(map[])
    {
    }

    /** When a table has outgrown its first allocation. */
    lemma Outgrown(m: map<int, Payload>)
      requires Valid() && Holds(m) && Snug() && 0 !in m
      ensures size > MIN_SIZE <==> |m| >= 8
    {
      hide HashSlot, Chained, Located, ChainOk, Spare, TailUsed;
      NonZeroKeys(m);
      assert m.Keys - {0} == m.Keys;
      assert |m| == |m.Keys|;
      if size > 0 {
        FullCount(hash[..], chains, at);
        if size > MIN_SIZE {
          PowerAbove8(size);
        }
      }
    }

    /** A table grown by insertions alone is at least half full, but for the smallest. */
    ghost predicate Snug()
      reads this
    {
      size > MIN_SIZE ==> 2 * |at| >= size
    }

    /** Sets a key and writes the payload, as every caller of pb_settable does. It fails
        exactly for a new key when the table is full and cannot grow. */
    method Put(key: int, v: Payload, ghost m: map<int, Payload>) returns (ok: bool)
      requires Valid() && Holds(m)
      modifies this, hash
      ensures Valid() && (hash == old(hash) || fresh(hash))
      ensures Holds(if ok then m[key := v] else m)
      ensures !ok <==> key != 0 && key !in m && old(size) > 0 && Full(old(hash[..])) && Stuck(entrySize, old(size))
      ensures !ok ==> size == old(size)
      ensures size >= old(size) && (old(Snug()) ==> Snug())
    {
      hide HashSlot, Chained, ChainOk, PowerOfTwo, Kept, Full, Stuck;
      ghost var t, at0, size0 := hash[..], at, size;
      if size > 0 {
        FullCount(t, chains, at);
      }
      var e := Set(key);
      ok := e >= 0;
      if ok {
        if old(Snug()) {
          StillSnug(at0, size0, key);
        }
        ghost var t1 := hash[..];
        PayloadWrite(t1, chains, at, lastfree, e, v);
        hash[e] := hash[e].(payload := v);
        PutHolds(t, at0, old(hasZero), t1, at, hasZero, m, key, e, v);
      }
    }

    lemma StillSnug(at0: map<int, nat>, size0: nat, key: int)
      requires forall k :: k in at <==> k in at0 || (k == key && k != 0)
      requires if size0 == 0 then size == MIN_SIZE else size == size0 || (size == 2 * size0 && |at0| == size0 - 1 && key !in at0 && key != 0)
      requires size0 > MIN_SIZE ==> 2 * |at0| >= size0
      ensures Snug()
    {
      var added := at.Keys - at0.Keys;
      forall k | k in at0.Keys ensures k in at.Keys {
        assert k in at0;
        assert k in at;
      }
      assert at.Keys == at0.Keys + added;
      assert |at| == |at.Keys| && |at0| == |at0.Keys|;
      if key != 0 && key !in at0 {
        assert key in added;
      }
    }

    /** So what has been put decides whether a new key can be. */
    lemma RoomLeft(m: map<int, Payload>)
      requires Valid() && Holds(m) && Snug()
      ensures size > 0 && Full(hash[..]) && Stuck(entrySize, size) <==> Saturated(entrySize, m)
    {
      hide HashSlot, Chained, ChainOk, PowerOfTwo, Spare, TailUsed, Full, Stuck;
      NonZeroKeys(m);
      var n := |m.Keys - {0}|;
      if size > 0 {
        FullCount(hash[..], chains, at);
        if PowerOfTwo(n + 1) && MIN_SIZE <= n + 1 < size {
          PowersApart(size, n + 1);
        }
      }
    }

    lemma NonZeroKeys(m: map<int, Payload>)
      requires Valid() && Holds(m)
      ensures at.Keys == m.Keys - {0} && |at| == |m.Keys - {0}| && (size == 0 ==> at == map[])
    {
      hide HashSlot, Chained, ChainOk, PowerOfTwo, Spare, TailUsed;
      if size == 0 {
        NothingKept(hash[..], at, hash[..], at);
      }
      forall k ensures k in at.Keys <==> k in m.Keys - {0} {
        if k in at.Keys {
          assert k in at && k != 0;
        }
        if k in m.Keys - {0} {
          assert k in m && k != 0;
        }
      }
      assert at.Keys == m.Keys - {0};
      assert |at| == |at.Keys|;
    }

    /** What a caller of pb_gettable sees of a key. */
    method Lookup(key: int, ghost m: map<int, Payload>) returns (found: bool, v: Payload)
      requires Valid() && Holds(m)
      ensures key != 0 ==> found == (key in m)
      ensures key == 0 ==> found == (key in m || size > MIN_SIZE)
      ensures v == if key in m then m[key] else BLANK
    {
      var e := Get(key);
      found, v := e >= 0, BLANK;
      if found {
        v := hash[e].payload;
      }
    }
  }

  /** The non-zero keys of `m` fill a table of the right size, and it cannot grow. */
  ghost predicate Saturated(entrySize: nat, m: map<int, Payload>)
    requires entrySize > 0
  {
    var size := |m.Keys - {0}| + 1;
    size >= MIN_SIZE && PowerOfTwo(size) && Stuck(entrySize, size)
  }

  /** The last payload given to each key by the puts that succeeded. */
  function LastPuts(puts: seq<(int, Payload)>, done: seq<bool>): (m: map<int, Payload>)
    requires |puts| == |done|
  {
    if puts == [] then map[]
    else
      var k := |puts| - 1;
      var before := LastPuts(puts[..k], done[..k]);
      if done[k] then before[puts[k].0 := puts[k].1] else before
  }

  /** Any run of insertions into a new table ends in the finite map it spells out. A put
      is refused exactly when its key is new and the keys put before fill a table that
      cannot grow. */
  method PutAll(entrySize: nat, puts: seq<(int, Payload)>) returns (t: Table, done: seq<bool>)
    requires entrySize > HEADER && Fits(entrySize, MIN_SIZE)
    ensures fresh(t) && t.Valid() && |done| == |puts|
    ensures t.Holds(LastPuts(puts, done)) && t.Snug()
    ensures forall i :: 0 <= i < |puts| ==>
      var m := LastPuts(puts[..i], done[..i]);
      done[i] <==> puts[i].0 == 0 || puts[i].0 in m || !Saturated(entrySize, m)
  {
    hide LastPuts, Saturated, Table.Holds, Full;
    t := new Table(entrySize);
    done := [];
    t.HoldsNothing();
    NoPuts(puts);
    var i := 0;
    while i < |puts|
      invariant 0 <= i <= |puts| && |done| == i
      invariant fresh(t) && fresh(t.hash) && t.Valid() && t.Snug() && t.entrySize == entrySize
      invariant t.Holds(LastPuts(puts[..i], done))
      invariant AsExpected(entrySize, puts, done, i)
    {
      ghost var m := LastPuts(puts[..i], done);
      t.RoomLeft(m);
      var ok := t.Put(puts[i].0, puts[i].1, m);
      NextPut(entrySize, puts, done, ok);
      done := done + [ok];
      i := i + 1;
    }
    assert puts[..|puts|] == puts;
  }

  ghost predicate AsExpected(entrySize: nat, puts: seq<(int, Payload)>, done: seq<bool>, n: nat)
    requires entrySize > 0 && n <= |done| <= |puts|
  {
    forall i :: 0 <= i < n ==>
      var m := LastPuts(puts[..i], done[..i]);
      done[i] <==> puts[i].0 == 0 || puts[i].0 in m || !Saturated(entrySize, m)
  }

  lemma NoPuts(puts: seq<(int, Payload)>)
    ensures LastPuts(puts[..0], []) == map[]
  {
  }

  lemma NextPut(entrySize: nat, puts: seq<(int, Payload)>, done: seq<bool>, ok: bool)
    requires entrySize > 0 && |done| < |puts| && AsExpected(entrySize, puts, done, |done|)
    requires var m, key := LastPuts(puts[..|done|], done), puts[|done|].0;
      ok <==> key == 0 || key in m || !Saturated(entrySize, m)
    ensures AsExpected(entrySize, puts, done + [ok], |done| + 1)
    ensures LastPuts(puts[..|done| + 1], done + [ok]) ==
      var m := LastPuts(puts[..|done|], done); if ok then m[puts[|done|].0 := puts[|done|].1] else m
  {
    hide Saturated, LastPuts;
    var i := |done|;
    LastPut(puts, done, ok);
    forall j | 0 <= j <= i ensures (done + [ok])[..j] == done[..j] {
    }
    assert done[..i] == done;
  }

  lemma LastPut(puts: seq<(int, Payload)>, done: seq<bool>, ok: bool)
    requires |done| < |puts|
    ensures LastPuts(puts[..|done| + 1], done + [ok]) ==
      var m := LastPuts(puts[..|done|], done); if ok then m[puts[|done|].0 := puts[|done|].1] else m
  {
    var i := |done|;
    assert puts[..i + 1][..i] == puts[..i] && (done + [ok])[..i] == done;
  }

  /** The key 0 is found although it was never set exactly when eight other keys are in
      the table. */
  method PhantomZero(entrySize: nat, puts: seq<(int, Payload)>) returns (t: Table, done: seq<bool>, found: bool, v: Payload)
    requires entrySize > HEADER && Fits(entrySize, MIN_SIZE)
    requires forall i :: 0 <= i < |puts| ==> puts[i].0 != 0
    ensures fresh(t) && t.Valid() && |done| == |puts|
    ensures t.Holds(LastPuts(puts, done)) && 0 !in LastPuts(puts, done)
    ensures (found <==> |LastPuts(puts, done)| >= 8) && v == BLANK
  {
    hide LastPuts, Saturated, Table.Holds, Full;
    t, done := PutAll(entrySize, puts);
    ghost var m := LastPuts(puts, done);
    OnlyPuts(puts, done);
    t.Outgrown(m);
    found, v := t.Lookup(0, m);
  }

  lemma {:induction false} OnlyPuts(puts: seq<(int, Payload)>, done: seq<bool>)
    requires |done| == |puts| && forall i :: 0 <= i < |puts| ==> puts[i].0 != 0
    ensures 0 !in LastPuts(puts, done)
  {
    if puts != [] {
      OnlyPuts(puts[..|puts| - 1], done[..|puts| - 1]);
    }
  }
}
