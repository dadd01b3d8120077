/** Sorted-set blobs (redislib-src/facade/rl_common.c). A sorted set is a map from
    members to the bit patterns of their scores; its walk lists it by score, then
    by bytes. */
module ZsetBlob {
  import opened Basics
  import opened Blob

  type Zset = map<Member, nat>

  /** No score of a sorted set is NaN. */
  ghost predicate ZsetOk(z: Zset) {
    forall m :: m in z ==> z[m] < U64 && !IsNaN(z[m])
  }

  /** The walk of a sorted set. */
  ghost predicate Walk(l: seq<Entry>, z: Zset) {
    Sorted(l) && forall e :: e in l <==> e.member in z && z[e.member] == e.bits
  }

  /** A sorted set has one walk, so it has one blob. */
  lemma OneWalk(l: seq<Entry>, m: seq<Entry>, z: Zset)
    requires Walk(l, z) && Walk(m, z)
    ensures l == m
  {
    OneListing(l, m);
  }

  lemma WalkMembersDiffer(l: seq<Entry>, z: Zset, i: nat, j: nat)
    requires Walk(l, z) && i < j < |l|
    ensures l[i].member != l[j].member
  {
    hide Less;
    assert l[i] in l && l[j] in l;
    assert Less(l[i], l[j]);
    LessIsStrict(l[i], l[j]);
    LessIsStrict(l[i], l[i]);
  }

  function ZsetRecord(e: Entry): Record {
    Record(Le(e.bits, 8), e.member)
  }

  function ZsetRecords(l: seq<Entry>): (rs: seq<Record>)
    ensures |rs| == |l| && forall i :: 0 <= i < |l| ==> rs[i] == ZsetRecord(l[i])
  {
    seq(|l|, i requires 0 <= i < |l| => ZsetRecord(l[i]))
  }

  /** zsetAdd: NaN is refused; a member keeps its score unless the new one differs as a
      number. */
  function Add(z: Zset, m: Member, bits: nat): Option<Zset> {
    if IsNaN(bits) then None
    else if m in z && Order(z[m]) == Order(bits) then Some(z)
    else Some(z[m := bits])
  }

  /** A member added again takes the new score, unless that is the same number: a zero
      keeps its sign. */
  lemma AddedAgain(m: Member, was: nat, bits: nat)
    requires was < U64 && bits < U64 && !IsNaN(was) && !IsNaN(bits)
    ensures var z: Zset := map[m := was];
      Add(z, m, bits) == Some(z[m := if (was == 0 && bits == 0x8000_0000_0000_0000) || (was == 0x8000_0000_0000_0000 && bits == 0)
                                     then was else bits])
  {
    var z: Zset := map[m := was];
    hide IsNaN;
    assert z[m := was] == z;
  }

  function AddAll(rs: seq<Record>): Option<Zset> {
    if rs == [] then Some(map[])
    else
      var n := |rs| - 1;
      var before := AddAll(rs[..n]);
      if before.None? then None else Add(before.value, rs[n].body, Rd(rs[n].head))
  }

  /** rl_load_zset. */
  function LoadZset(u: seq<Byte>): Option<Zset> {
    match LoadRecords(u, 8)
    case None => None
    case Some(rs) => AddAll(rs)
  }

  /** The blobs accepted are those of some records, none with a NaN score. */
  lemma AcceptIff(u: seq<Byte>)
    ensures LoadZset(u).Some? <==>
      exists rs :: Fits(rs, 8) && u == BlobOf(rs) && CountOk(|u|, |rs|, 8) && NoNaN(rs)
  {
    hide LoadRecords, Fits, BlobOf, CountOk, AddAll, NoNaN;
    if LoadZset(u).Some? {
      var rs := LoadRecords(u, 8).value;
      LoadIff(u, 8, rs);
      AddAllIff(rs);
    }
    forall rs | Fits(rs, 8) && u == BlobOf(rs) && CountOk(|u|, |rs|, 8) && NoNaN(rs) ensures LoadZset(u).Some? {
      LoadIff(u, 8, rs);
      AddAllIff(rs);
    }
  }

  ghost predicate NoNaN(rs: seq<Record>) {
    forall i :: 0 <= i < |rs| ==> !IsNaN(Rd(rs[i].head))
  }

  lemma {:induction false} AddAllIff(rs: seq<Record>)
    ensures AddAll(rs).Some? <==> NoNaN(rs)
    ensures AddAll(rs).Some? ==> forall m :: m in AddAll(rs).value ==> exists i :: 0 <= i < |rs| && rs[i].body == m
    ensures AddAll(rs).Some? ==> |AddAll(rs).value| <= |rs|
  {
    hide Rd, IsNaN, NoNaN, Add;
    LastIsNumber(rs);
    if rs != [] {
      var n := |rs| - 1;
      AddAllIff(rs[..n]);
      if AddAll(rs).Some? {
        BodiesAdded(rs[..n], rs[n], AddAll(rs[..n]).value, AddAll(rs).value);
        assert rs == rs[..n] + [rs[n]];
      }
    }
  }

  lemma LastIsNumber(rs: seq<Record>)
    ensures rs == [] ==> NoNaN(rs)
    ensures rs != [] ==>
      var n := |rs| - 1;
      && (NoNaN(rs) <==> NoNaN(rs[..n]) && !IsNaN(Rd(rs[n].head)))
      && forall z :: Add(z, rs[n].body, Rd(rs[n].head)).Some? <==> !IsNaN(Rd(rs[n].head))
  {
    hide Rd, IsNaN;
    if rs != [] {
      var n := |rs| - 1;
      assert forall i :: 0 <= i < n ==> rs[..n][i] == rs[i];
    }
  }

  lemma BodiesAdded(rs: seq<Record>, r: Record, z: Zset, z': Zset)
    requires Add(z, r.body, Rd(r.head)) == Some(z')
    requires forall m :: m in z ==> exists i :: 0 <= i < |rs| && rs[i].body == m
    requires |z| <= |rs|
    ensures var all := rs + [r]; forall m :: m in z' ==> exists i :: 0 <= i < |all| && all[i].body == m
    ensures |z'| <= |rs| + 1
  {
    hide Rd, IsNaN;
    var all := rs + [r];
    forall m | m in z' ensures exists i :: 0 <= i < |all| && all[i].body == m {
      if m in z {
        var i :| 0 <= i < |rs| && rs[i].body == m;
        assert all[i].body == m;
      } else {
        assert all[|rs|].body == m;
      }
    }
    AddSize(z, r.body, Rd(r.head));
  }

  lemma AddSize(z: Zset, m: Member, bits: nat)
    ensures Add(z, m, bits).Some? ==> |Add(z, m, bits).value| <= |z| + 1
  {
    var z' := z[m := bits];
    assert z'.Keys == z.Keys + {m};
    assert |z'.Keys| <= |z.Keys| + 1;
  }

  lemma ScoreBack(bits: nat)
    requires bits < U64
    ensures Rd(Le(bits, 8)) == bits
  {
    hide Pow256, Rd, Le;
    Powers();
    RdOfLe(bits, 8);
  }

  /** The first `n` entries as a map. */
  ghost function MapOf(l: seq<Entry>, n: nat): Zset
    requires n <= |l|
  {
    if n == 0 then map[] else MapOf(l, n - 1)[l[n - 1].member := l[n - 1].bits]
  }

  lemma {:induction false} MapOfHas(l: seq<Entry>, n: nat, m: Member) returns (i: nat)
    requires n <= |l| && m in MapOf(l, n)
    ensures i < n && l[i].member == m && MapOf(l, n)[m] == l[i].bits
  {
    if l[n - 1].member == m {
      i := n - 1;
    } else {
      i := MapOfHas(l, n - 1, m);
    }
  }

  lemma {:induction false} MapOfKeeps(l: seq<Entry>, n: nat, i: nat)
    requires i < n <= |l|
    ensures l[i].member in MapOf(l, n)
  {
    if i < n - 1 {
      MapOfKeeps(l, n - 1, i);
    }
  }

  /** Adding the first `n` entries of a walk one by one gives just those. */
  lemma {:induction false} AddWalk(l: seq<Entry>, z: Zset, n: nat)
    requires Walk(l, z) && ZsetOk(z) && n <= |l|
    ensures AddAll(ZsetRecords(l)[..n]) == Some(MapOf(l, n))
  {
    hide Rd, IsNaN, Sorted, Order, Le, AddAll, MapOf;
    var rs := ZsetRecords(l);
    if n == 0 {
      assert rs[..n] == [];
      NothingAdded();
      FirstMaps(l);
    } else {
      AddWalk(l, z, n - 1);
      assert rs[..n] == rs[..n - 1] + [ZsetRecord(l[n - 1])];
      hide ZsetRecords, Walk, ZsetOk;
      NewMember(l, z, n);
      AddOneWalked(l, z, n, rs[..n - 1]);
    }
  }

  lemma FirstMaps(l: seq<Entry>)
    ensures MapOf(l, 0) == map[]
  {
  }

  lemma AddOneWalked(l: seq<Entry>, z: Zset, n: nat, rs: seq<Record>)
    requires Walk(l, z) && ZsetOk(z) && 0 < n <= |l| && AddAll(rs) == Some(MapOf(l, n - 1))
    requires l[n - 1].member !in MapOf(l, n - 1)
    ensures AddAll(rs + [ZsetRecord(l[n - 1])]) == Some(MapOf(l, n))
  {
    hide Rd, IsNaN, Sorted, Order, Le, AddAll;
    var e := l[n - 1];
    assert e in l;
    ScoreBack(e.bits);
    AddNext(rs, ZsetRecord(e));
  }

  lemma NewMember(l: seq<Entry>, z: Zset, n: nat)
    requires Walk(l, z) && 0 < n <= |l|
    ensures l[n - 1].member !in MapOf(l, n - 1)
  {
    hide Sorted, MapOf;
    if l[n - 1].member in MapOf(l, n - 1) {
      var i := MapOfHas(l, n - 1, l[n - 1].member);
      WalkMembersDiffer(l, z, i, n - 1);
    }
  }

  lemma WalkLoads(l: seq<Entry>, z: Zset)
    requires Walk(l, z) && ZsetOk(z)
    ensures AddAll(ZsetRecords(l)) == Some(z)
  {
    hide Sorted, AddAll, MapOf;
    AddWalk(l, z, |l|);
    assert ZsetRecords(l)[..|l|] == ZsetRecords(l);
    var r := MapOf(l, |l|);
    forall m | m in z ensures m in r {
      var e := Entry(m, z[m]);
      assert e in l;
      var i :| 0 <= i < |l| && l[i] == e;
      MapOfKeeps(l, |l|, i);
    }
    forall m | m in r ensures m in z && r[m] == z[m] {
      var i := MapOfHas(l, |l|, m);
      assert l[i] in l;
    }
    assert r == z;
  }

  /** Loading a dumped sorted set gives it back exactly when its sizes fit their fields
      and the count passes its check. */
  lemma ZsetRoundTrip(l: seq<Entry>, z: Zset)
    requires Walk(l, z) && ZsetOk(z)
    ensures var u := BlobOf(ZsetRecords(l));
      LoadZset(u) == Some(z) <==> Fits(ZsetRecords(l), 8) && CountOk(|u|, |l|, 8)
  {
    hide LoadRecords, BlobOf, CountOk, AddAll, Walk;
    var rs := ZsetRecords(l);
    var u := BlobOf(rs);
    LoadIff(u, 8, rs);
    WalkLoads(l, z);
    if LoadZset(u) == Some(z) {
      var qs := LoadRecords(u, 8).value;
      LoadIff(u, 8, qs);
      AddAllIff(qs);
      LoadedFits(l, z, qs);
      SameBlob(qs, rs, 8);
    }
  }

  /** The blob of one member: the count, the pattern of the score from its lowest byte on,
      the member's length and its bytes. */
  lemma OneMemberBytes(m: Member, bits: nat)
    requires bits < U64 && |m| < U32
    ensures BlobOf([ZsetRecord(Entry(m, bits))]) == [1, 0, 0, 0] + Le(bits, 8) + FourBytes(|m|) + m
    ensures forall i :: 0 <= i < 8 ==> Le(bits, 8)[i] == bits / Pow256(i) % 256
  {
    hide Le, Pow256;
    OneIn32();
    SmallNumber(|m|);
    OneRecord(ZsetRecord(Entry(m, bits)));
    forall i | 0 <= i < 8 ensures Le(bits, 8)[i] == bits / Pow256(i) % 256 {
      LeAt(bits, 8, i);
    }
    hide Wr32, AllBytes, FourBytes;
  }

  /** The blob of one member is loaded exactly when its score is a number, both infinities
      included. */
  lemma OneMemberLoads(m: Member, bits: nat)
    requires bits < U64 && |m| < U32
    ensures var u, z: Zset := BlobOf([ZsetRecord(Entry(m, bits))]), map[m := bits];
      LoadZset(u) == if 0x7FF0_0000_0000_0000 < bits < 0x8000_0000_0000_0000 || 0xFFF0_0000_0000_0000 < bits
                     then None else Some(z)
  {
    var rs := [ZsetRecord(Entry(m, bits))];
    var u := BlobOf(rs);
    NaNPatterns(bits);
    ScoreBack(bits);
    hide LoadRecords, BlobOf, IsNaN, Rd, Le, Order;
    OneCountIsOk(rs);
    LoadIff(u, 8, rs);
    assert AddAll(rs) == Add(map[], m, bits) by {
      assert rs[..0] == [] && AddAll(rs[..0]) == Some(map[]);
    }
  }

  lemma OneCountIsOk(rs: seq<Record>)
    requires |rs| == 1 && |rs[0].head| == 8 && |rs[0].body| < U32
    ensures CountOk(|BlobOf(rs)|, 1, 8) && Fits(rs, 8)
  {
    assert AllBytes(rs) == Bytes(rs[0]) + AllBytes(rs[1..]);
    assert |AllBytes(rs)| >= 12 && |AllBytes(rs)| < 12 + U32;
  }

  lemma LoadedFits(l: seq<Entry>, z: Zset, qs: seq<Record>)
    requires Walk(l, z) && Fits(qs, 8) && |z| <= |qs|
    requires forall m :: m in z ==> exists i :: 0 <= i < |qs| && qs[i].body == m
    ensures Fits(ZsetRecords(l), 8)
  {
    hide Sorted, Le;
    forall i | 0 <= i < |l| ensures |l[i].member| < U32 {
      assert l[i] in l;
    }
    WalkSize(l, z);
  }

  lemma WalkSize(l: seq<Entry>, z: Zset)
    requires Walk(l, z)
    ensures |l| == |z|
  {
    forall i, j | 0 <= i < j < |l| ensures l[i].member != l[j].member {
      WalkMembersDiffer(l, z, i, j);
    }
    forall m ensures m in z.Keys <==> exists i :: 0 <= i < |l| && l[i].member == m {
      if m in z {
        assert Entry(m, z[m]) in l;
      }
      if exists i :: 0 <= i < |l| && l[i].member == m {
        var i :| 0 <= i < |l| && l[i].member == m;
        assert l[i] in l;
      }
    }
    DistinctSize(l, z.Keys);
    assert |z| == |z.Keys|;
  }

  lemma {:induction false} DistinctSize(l: seq<Entry>, s: set<Member>)
    requires forall i, j :: 0 <= i < j < |l| ==> l[i].member != l[j].member
    requires forall m :: m in s <==> exists i :: 0 <= i < |l| && l[i].member == m
    ensures |l| == |s|
  {
    if l == [] {
      assert s == {};
    } else {
      var n := |l| - 1;
      var m := l[n].member;
      forall x ensures x in s - {m} <==> exists i :: 0 <= i < n && l[..n][i].member == x {
        if x in s - {m} {
          var i :| 0 <= i < |l| && l[i].member == x;
          assert l[..n][i].member == x;
        }
        if exists i :: 0 <= i < n && l[..n][i].member == x {
          var i :| 0 <= i < n && l[..n][i].member == x;
          assert l[i].member == x;
        }
      }
      assert m in s;
      DistinctSize(l[..n], s - {m});
    }
  }

  // ---- The dumper and the loader ---------------------------------------------------------------

  /** rl_wr64, a byte at a time. */
  method Write64(v: nat) returns (b: seq<Byte>)
    requires v < U64
    ensures b == Le(v, 8)
  {
    hide Le;
    b := [];
    var rest := v;
    for i := 0 to 8
      invariant |b| == i && Le(v, 8) == b + Le(rest, 8 - i)
    {
      NextByte(b, rest, 8 - i);
      b := b + [rest % 256];
      rest := rest / 256;
    }
    NoBytes(b, rest);
  }

  lemma NextByte(b: seq<Byte>, v: nat, n: nat)
    requires n > 0
    ensures b + Le(v, n) == b + [v % 256] + Le(v / 256, n - 1)
  {
    assert Le(v, n) == [v % 256] + Le(v / 256, n - 1);
  }

  lemma NoBytes(b: seq<Byte>, v: nat)
    ensures b + Le(v, 0) == b
  {
  }

  /** rl_rd64, from the last byte to the first. */
  method Read64(p: seq<Byte>, at: nat) returns (v: nat)
    requires at + 8 <= |p|
    ensures v == Rd(p[at..at + 8])
  {
    v := 0;
    var i := 8;
    while i > 0
      invariant 0 <= i <= 8 && v == Rd(p[at + i..at + 8])
    {
      i := i - 1;
      assert p[at + i..at + 8][1..] == p[at + i + 1..at + 8];
      v := 256 * v + p[at + i];
    }
  }

  /** rl_dump_zset: the walk, record by record. */
  method DumpZset(l: seq<Entry>) returns (out: seq<Byte>)
    requires forall i :: 0 <= i < |l| ==> l[i].bits < U64
    ensures out == BlobOf(ZsetRecords(l))
  {
    hide Wr32, Le;
    out := Write32(|l| % U32);
    SmallWr(|l|);
    var i := 0;
    while i < |l|
      invariant 0 <= i <= |l| && out == Wr32(|l|) + AllBytes(ZsetRecords(l[..i]))
    {
      var score := Write64(l[i].bits);
      var len := Write32(|l[i].member| % U32);
      SmallWr(|l[i].member|);
      assert ZsetRecords(l[..i + 1]) == ZsetRecords(l[..i]) + [ZsetRecord(l[i])];
      BytesAppend(ZsetRecords(l[..i]), ZsetRecord(l[i]));
      out := out + (score + len);
      out := out + l[i].member;
      i := i + 1;
    }
    assert l[..i] == l;
  }

  lemma AddNext(done: seq<Record>, r: Record)
    ensures AddAll(done + [r]) ==
      if AddAll(done).None? then None else Add(AddAll(done).value, r.body, Rd(r.head))
  {
    hide Rd;
    assert (done + [r])[..|done|] == done;
  }

  /** What has been added when `i` of `n` records have been read. */
  lemma {:induction false} NoneStays(done: seq<Record>, rest: seq<Record>)
    requires AddAll(done).None?
    ensures AddAll(done + rest).None?
  {
    hide Rd;
    if rest == [] {
      assert done + rest == done;
    } else {
      var n := |rest| - 1;
      NoneStays(done, rest[..n]);
      assert done + rest == done + rest[..n] + [rest[n]];
      AddNext(done + rest[..n], rest[n]);
    }
  }

  /** rl_load_zset: records are added as they are read; a record that does not fit, a NaN
      score or bytes left over make the whole blob bad. */
  method LoadZsetBlob(buf: seq<Byte>) returns (r: Option<Zset>)
    ensures r == LoadZset(buf)
  {
    hide Rd, Parse, AddAll, Parsing, IsNaN, Order;
    if |buf| < 4 {
      return None;
    }
    var count := Read32(buf, 0);
    assert buf[0..4] == buf[..4];
    if count > (|buf| - 4) / 12 % U32 {
      return None;
    }
    var zobj: Zset := map[];
    var p: nat, i: nat := 4, 0;
    ghost var done: seq<Record> := [];
    ParseStart(buf, count, 8);
    assert AddAll([]) == Some(map[]) by { NothingAdded(); }
    while i < count
      invariant 0 <= i <= count && p <= |buf| && Parsing(buf, p, count, i, 8, done)
      invariant AddAll(done) == Some(zobj)
    {
      ParseNext(buf, p, count, i, 8, done);
      if |buf| - p < 12 {
        return None;
      }
      var bits := Read64(buf, p);
      p := p + 8;
      var mlen := Read32(buf, p);
      p := p + 4;
      if |buf| - p < mlen {
        return None;
      }
      var ele := buf[p..p + mlen];
      p := p + mlen;
      AddNext(done, Record(buf[p - mlen - 12..p - mlen - 4], ele));
      done := done + [Record(buf[p - mlen - 12..p - mlen - 4], ele)];
      i := i + 1;
      var added := Add(zobj, ele, bits);
      if added.None? {
        BadRecord(buf, p, count, i, done);
        return None;
      }
      zobj := added.value;
    }
    ParseEnd(buf, p, count, 8, done);
    if p != |buf| {
      return None;
    }
    r := Some(zobj);
  }

  lemma NothingAdded()
    ensures AddAll([]) == Some(map[])
  {
  }

  lemma BadRecord(buf: seq<Byte>, p: nat, n: nat, i: nat, done: seq<Record>)
    requires Parsing(buf, p, n, i, 8, done) && AddAll(done).None?
    ensures Parse(buf[4..], n, 8).Some? ==> AddAll(Parse(buf[4..], n, 8).value).None?
  {
    hide Parse, AddAll;
    var rest := Parse(buf[p..], n - i, 8);
    if rest.Some? {
      NoneStays(done, rest.value);
    }
  }
}
