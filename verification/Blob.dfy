/** The blobs sets and sorted sets are dumped to and loaded from
    (redislib-src/facade/rl_common.c): a count, and records with little-endian
    lengths. What the loaders accept, round trips, and one blob for one value. */
module Blob {
  import opened Basics
  import O = SkipOrder

  type Member = seq<Byte>

  const U32: nat := 0x1_0000_0000
  const U64: nat := 0x1_0000_0000_0000_0000

  // ---- Little-endian numbers -----------------------------------------------------------------

  function Le(v: nat, n: nat): (b: seq<Byte>)
    ensures |b| == n
  {
    if n == 0 then [] else [v % 256] + Le(v / 256, n - 1)
  }

  function Rd(b: seq<Byte>): (v: nat) {
    if b == [] then 0 else b[0] + 256 * Rd(b[1..])
  }

  function Pow256(n: nat): (p: nat)
    ensures p > 0
  {
    if n == 0 then 1 else 256 * Pow256(n - 1)
  }

  lemma {:induction false} RdOfLe(v: nat, n: nat)
    requires v < Pow256(n)
    ensures Rd(Le(v, n)) == v
  {
    if n > 0 {
      RdOfLe(v / 256, n - 1);
      assert Le(v, n)[1..] == Le(v / 256, n - 1);
    }
  }

  lemma {:induction false} LeOfRd(b: seq<Byte>)
    ensures Le(Rd(b), |b|) == b && Rd(b) < Pow256(|b|)
  {
    if b != [] {
      LeOfRd(b[1..]);
      LowByte(b[0], Rd(b[1..]));
      assert b == [b[0]] + b[1..];
    }
  }

  lemma LowByte(x: Byte, q: nat)
    ensures (x + 256 * q) % 256 == x && (x + 256 * q) / 256 == q
  {
  }

  lemma Powers()
    ensures Pow256(4) == U32 && Pow256(8) == U64
  {
    assert Pow256(1) == 256 * Pow256(0);
    assert Pow256(2) == 256 * Pow256(1);
    assert Pow256(3) == 256 * Pow256(2);
    assert Pow256(4) == 256 * Pow256(3);
    assert Pow256(5) == 256 * Pow256(4);
    assert Pow256(6) == 256 * Pow256(5);
    assert Pow256(7) == 256 * Pow256(6);
    assert Pow256(8) == 256 * Pow256(7);
  }

  /** Least significant byte first. */
  lemma {:induction false} LeAt(v: nat, n: nat, i: nat)
    requires i < n
    ensures Le(v, n)[i] == v / Pow256(i) % 256
  {
    if i > 0 {
      LeAt(v / 256, n - 1, i - 1);
      DivDiv(v, Pow256(i - 1));
    }
  }

  lemma DivDiv(v: nat, p: nat)
    requires p > 0
    ensures v / 256 / p == v / (256 * p)
  {
    var q, r := v / 256 / p, v / 256 % p;
    assert v / 256 == p * q + r;
    var s := v % 256;
    assert v == 256 * (p * q + r) + s;
    Nested(p, q, r);
    Unique(v, 256 * p, q, 256 * r + s);
  }

  lemma Nested(p: nat, q: nat, r: nat)
    ensures 256 * (p * q + r) == 256 * p * q + 256 * r
    ensures r < p ==> 256 * r + 255 < 256 * p
  {
  }

  lemma Unique(v: nat, m: nat, q: nat, r: nat)
    requires m > 0 && r < m && v == m * q + r
    ensures v / m == q
  {
    var q', r' := v / m, v % m;
    assert v == m * q' + r';
    if q < q' { Below(m, q, q'); } else if q' < q { Below(m, q', q); }
  }

  /** rl_wr32 keeps the low 32 bits. */
  function Wr32(v: nat): (b: seq<Byte>)
    ensures |b| == 4
  {
    Le(v % U32, 4)
  }

  lemma Wr32Back(v: nat)
    ensures v < U32 ==> Rd(Wr32(v)) == v
  {
    Powers();
    RdOfLe(v % U32, 4);
  }

  lemma Rd32Back(b: seq<Byte>)
    requires |b| == 4
    ensures Rd(b) < U32 && Wr32(Rd(b)) == b
  {
    hide Pow256, Le, Rd;
    Powers();
    LeOfRd(b);
    assert Rd(b) % U32 == Rd(b);
  }

  // ---- Records --------------------------------------------------------------------------------

  /** A member, after a head that is empty in set blobs and the score's eight bytes in
      sorted-set blobs. */
  datatype Record = Record(head: seq<Byte>, body: Member)

  function Bytes(r: Record): seq<Byte> {
    r.head + Wr32(|r.body|) + r.body
  }

  function AllBytes(rs: seq<Record>): seq<Byte> {
    if rs == [] then [] else Bytes(rs[0]) + AllBytes(rs[1..])
  }

  /** The blob of some records. */
  function BlobOf(rs: seq<Record>): (u: seq<Byte>)
    ensures |u| >= 4
  {
    Wr32(|rs|) + AllBytes(rs)
  }

  /** Sizes the 32-bit fields can hold. */
  ghost predicate Fits(rs: seq<Record>, k: nat) {
    |rs| < U32 && forall i :: 0 <= i < |rs| ==> |rs[i].head| == k && |rs[i].body| < U32
  }

  /** The records of a blob after its count; none when it is not exactly `n` records. */
  function Parse(u: seq<Byte>, n: nat, k: nat): (r: Option<seq<Record>>)
    decreases n
  {
    if n == 0 then if u == [] then Some([]) else None
    else if |u| < k + 4 then None
    else
      var len := Rd(u[k..k + 4]);
      if |u| - k - 4 < len then None
      else
        var rest := Parse(u[k + 4 + len..], n - 1, k);
        if rest.None? then None else Some([Record(u[..k], u[k + 4..k + 4 + len])] + rest.value)
  }

  lemma {:induction false} ParseAll(rs: seq<Record>, k: nat)
    requires Fits(rs, k)
    ensures Parse(AllBytes(rs), |rs|, k) == Some(rs)
  {
    hide Wr32, Rd;
    if rs != [] {
      var r, u := rs[0], AllBytes(rs);
      var len := |r.body|;
      Wr32Back(len);
      RecordSlices(r, AllBytes(rs[1..]), k);
      ParseAll(rs[1..], k);
      assert [r] + rs[1..] == rs;
    }
  }

  lemma RecordSlices(r: Record, rest: seq<Byte>, k: nat)
    requires |r.head| == k
    ensures var u, len := Bytes(r) + rest, |r.body|;
      && |u| >= k + 4 + len
      && u[..k] == r.head && u[k..k + 4] == Wr32(len) && u[k + 4..k + 4 + len] == r.body && u[k + 4 + len..] == rest
  {
    hide Wr32;
  }

  lemma {:induction false} ParsedBytes(u: seq<Byte>, n: nat, k: nat)
    requires Parse(u, n, k).Some? && n < U32
    ensures var rs := Parse(u, n, k).value; |rs| == n && Fits(rs, k) && u == AllBytes(rs)
    decreases n
  {
    hide Wr32, Rd;
    if n > 0 {
      var len := Rd(u[k..k + 4]);
      Rd32Back(u[k..k + 4]);
      ParsedBytes(u[k + 4 + len..], n - 1, k);
      var rest := Parse(u[k + 4 + len..], n - 1, k).value;
      var r := Record(u[..k], u[k + 4..k + 4 + len]);
      assert Parse(u, n, k).value == [r] + rest;
      assert ([r] + rest)[1..] == rest;
      Reassembled(u, k, len);
    }
  }

  lemma Reassembled(u: seq<Byte>, k: nat, len: nat)
    requires k + 4 + len <= |u|
    ensures u == u[..k] + u[k..k + 4] + u[k + 4..k + 4 + len] + u[k + 4 + len..]
  {
  }

  /** The check of the count against the blob's size, which is made on 32 bits. */
  predicate CountOk(size: nat, n: nat, k: nat)
    requires size >= 4
  {
    n <= (size - 4) / (k + 4) % U32
  }

  /** Both loaders up to their members. */
  function LoadRecords(u: seq<Byte>, k: nat): Option<seq<Record>> {
    if |u| < 4 then None
    else
      var n := Rd(u[..4]);
      if !CountOk(|u|, n, k) then None else Parse(u[4..], n, k)
  }

  /** A loader accepts exactly the blobs of some records, none missing and nothing after
      them, whose count passes the check. */
  lemma LoadIff(u: seq<Byte>, k: nat, rs: seq<Record>)
    ensures LoadRecords(u, k) == Some(rs) <==> Fits(rs, k) && u == BlobOf(rs) && CountOk(|u|, |rs|, k)
  {
    hide Wr32, Rd, Parse, AllBytes, CountOk;
    if LoadRecords(u, k) == Some(rs) {
      var n := Rd(u[..4]);
      Rd32Back(u[..4]);
      ParsedBytes(u[4..], n, k);
      assert u == u[..4] + u[4..];
    }
    if Fits(rs, k) && u == BlobOf(rs) && CountOk(|u|, |rs|, k) {
      Wr32Back(|rs|);
      assert u[..4] == Wr32(|rs|) && u[4..] == AllBytes(rs);
      ParseAll(rs, k);
    }
  }

  lemma {:induction false} AllBytesSize(rs: seq<Record>, k: nat)
    requires forall i :: 0 <= i < |rs| ==> |rs[i].head| == k
    ensures |AllBytes(rs)| >= |rs| * (k + 4)
  {
    hide Wr32;
    if rs != [] {
      AllBytesSize(rs[1..], k);
      Factored(|rs| - 1, k + 4);
    }
  }

  lemma Factored(a: nat, b: nat)
    ensures (a + 1) * b == a * b + b
  {
  }

  /** The check never stands in the way of a blob below 2^32 smallest records. */
  lemma CountIsOk(rs: seq<Record>, k: nat)
    requires Fits(rs, k) && (|BlobOf(rs)| - 4) / (k + 4) < U32
    ensures CountOk(|BlobOf(rs)|, |rs|, k)
  {
    hide AllBytes;
    AllBytesSize(rs, k);
    var size := |AllBytes(rs)|;
    QuotientAtLeast(size, k + 4, |rs|);
  }

  /** But four records of 2^32 - 4 bytes make 4 * 2^32 bytes, the count of which is 0 on
      32 bits, and their blob is refused. */
  lemma RefusedBlob(m: Member)
    requires |m| == U32 - 4
    ensures var r := Record([], m); Fits([r, r, r, r], 0) && LoadRecords(BlobOf([r, r, r, r]), 0) == None
  {
    var r := Record([], m);
    var rs := [r, r, r, r];
    FourRecords(r);
    assert |Bytes(r)| == U32;
    var u := BlobOf(rs);
    hide Wr32, AllBytes, Rd, Parse, Bytes;
    Wr32Back(4);
    assert u[..4] == Wr32(4);
    assert |u| - 4 == 4 * U32;
  }

  lemma FourRecords(r: Record)
    ensures |AllBytes([r, r, r, r])| == 4 * |Bytes(r)|
  {
    hide Bytes;
    assert [r, r, r, r][1..] == [r, r, r] && [r, r, r][1..] == [r, r] && [r, r][1..] == [r];
    assert AllBytes([r]) == Bytes(r) + AllBytes([]) by { assert [r][1..] == []; }
    assert |AllBytes([r, r])| == 2 * |Bytes(r)|;
    assert |AllBytes([r, r, r])| == 3 * |Bytes(r)|;
  }

  lemma QuotientAtLeast(size: nat, m: nat, n: nat)
    requires m > 0 && n * m <= size
    ensures n <= size / m
  {
    if size / m < n {
      var q := size / m;
      assert size == m * q + size % m;
      Below(m, q, n);
    }
  }

  lemma Below(m: nat, q: nat, n: nat)
    requires q < n
    ensures m * q + m <= n * m
  {
    assert n * m == m * q + m * (n - q);
    Times(m, n - q);
  }

  lemma Times(m: nat, d: nat)
    requires d >= 1
    ensures m * d >= m
  {
  }

  // ---- Listings in order --------------------------------------------------------------------------

  /** A member with the bit pattern of its score; plain sets use the pattern 0. */
  datatype Entry = Entry(member: Member, bits: nat)

  /** What the pattern of a double counts for in comparisons; both zeros are 0. */
  function Order(bits: nat): int {
    if bits < 0x8000_0000_0000_0000 then bits else -(bits - 0x8000_0000_0000_0000)
  }

  predicate IsNaN(bits: nat) {
    bits / 0x10_0000_0000_0000 % 0x800 == 0x7FF && bits % 0x10_0000_0000_0000 != 0
  }

  /** The 64-bit patterns that are not numbers: those beyond the two infinities. */
  lemma NaNPatterns(bits: nat)
    requires bits < U64
    ensures IsNaN(bits) <==> 0x7FF0_0000_0000_0000 < bits < 0x8000_0000_0000_0000 || 0xFFF0_0000_0000_0000 < bits
  {
  }

  /** Positive numbers are in the order of their patterns, negative ones in the opposite
      order and before them, and both zeros are equal. The infinities are the ends. */
  lemma ScoreOrder(a: nat, b: nat)
    requires a < U64 && b < U64 && !IsNaN(a) && !IsNaN(b)
    ensures a < 0x8000_0000_0000_0000 && b < 0x8000_0000_0000_0000 ==> (Order(a) < Order(b) <==> a < b)
    ensures a >= 0x8000_0000_0000_0000 && b >= 0x8000_0000_0000_0000 ==> (Order(a) < Order(b) <==> a > b)
    ensures a >= 0x8000_0000_0000_0000 > b ==>
      if a == 0x8000_0000_0000_0000 && b == 0 then Order(a) == Order(b) else Order(a) < Order(b)
    ensures Order(0xFFF0_0000_0000_0000) <= Order(a) <= Order(0x7FF0_0000_0000_0000)
  {
    NaNPatterns(a);
    NaNPatterns(b);
  }

  /** The order of a sorted set's walk, and of rl_cmp_members for equal scores. */
  predicate Less(a: Entry, b: Entry) {
    Order(a.bits) < Order(b.bits) || (Order(a.bits) == Order(b.bits) && O.CompareObj(a.member, b.member) < 0)
  }

  ghost predicate Sorted(l: seq<Entry>) {
    forall i, j :: 0 <= i < j < |l| ==> Less(l[i], l[j])
  }

  /** By score, and among equal scores by bytes. */
  lemma LessMeaning(a: Entry, b: Entry)
    ensures Less(a, b) <==>
      || Order(a.bits) < Order(b.bits)
      || (Order(a.bits) == Order(b.bits) && exists k :: O.FirstDifference(a.member, b.member, k))
  {
    hide O.CompareObj, O.FirstDifference, Order;
    O.Lexicographic(a.member, b.member);
  }

  lemma LessIsStrict(a: Entry, b: Entry)
    ensures !(Less(a, b) && Less(b, a)) && !Less(a, a)
  {
    O.CompareAntisymmetric(a.member, b.member);
    O.CompareAntisymmetric(a.member, a.member);
  }

  /** There is one order to list the same entries in. */
  lemma {:induction false} OneListing(l: seq<Entry>, m: seq<Entry>)
    requires Sorted(l) && Sorted(m) && forall e :: e in l <==> e in m
    ensures l == m
  {
    hide Less;
    if l == [] {
      if m != [] { FirstIn(m); }
    } else {
      assert l[0] in l;
      var i :| 0 <= i < |m| && m[i] == l[0];
      assert m[0] in m;
      var j :| 0 <= j < |l| && l[j] == m[0];
      LessIsStrict(l[0], m[0]);
      assert i == 0 || j == 0;
      assert l[0] == m[0];
      forall e ensures e in l[1..] <==> e in m[1..] {
        TailHas(l, e);
        TailHas(m, e);
      }
      OneListing(l[1..], m[1..]);
      assert l == [l[0]] + l[1..] && m == [m[0]] + m[1..];
    }
  }

  lemma FirstIn(m: seq<Entry>)
    requires m != []
    ensures m[0] in m
  {
  }

  lemma TailHas(l: seq<Entry>, e: Entry)
    requires l != [] && Sorted(l)
    ensures e in l[1..] <==> e in l && e != l[0]
  {
    if e in l[1..] {
      var i :| 0 <= i < |l| - 1 && l[1..][i] == e;
      assert Less(l[0], l[i + 1]);
      LessIsStrict(l[0], e);
    }
    if e in l && e != l[0] {
      var i :| 0 <= i < |l| && l[i] == e;
      assert l[1..][i - 1] == e;
    }
  }

  // ---- Sets ----------------------------------------------------------------------------------------

  ghost predicate SetListing(l: seq<Member>, s: set<Member>) {
    && (forall m :: m in l <==> m in s)
    && (forall i, j :: 0 <= i < j < |l| ==> O.CompareObj(l[i], l[j]) < 0)
  }

  function SetRecords(l: seq<Member>): (rs: seq<Record>)
    ensures |rs| == |l| && forall i :: 0 <= i < |l| ==> rs[i] == Record([], l[i])
  {
    seq(|l|, i requires 0 <= i < |l| => Record([], l[i]))
  }

  /** A set has one listing, whatever order its elements are iterated in. */
  lemma OneSetListing(l: seq<Member>, m: seq<Member>, s: set<Member>)
    requires SetListing(l, s) && SetListing(m, s)
    ensures l == m
  {
    var a, b := seq(|l|, i requires 0 <= i < |l| => Entry(l[i], 0)), seq(|m|, i requires 0 <= i < |m| => Entry(m[i], 0));
    forall e ensures e in a <==> e in b {
      AsEntry(l, a, e);
      AsEntry(m, b, e);
    }
    OneListing(a, b);
    assert forall i :: 0 <= i < |l| ==> a[i].member == l[i] && b[i].member == m[i];
  }

  lemma AsEntry(l: seq<Member>, a: seq<Entry>, e: Entry)
    requires |a| == |l| && forall i :: 0 <= i < |l| ==> a[i] == Entry(l[i], 0)
    ensures e in a <==> e.bits == 0 && e.member in l
  {
    if e.bits == 0 && e.member in l {
      var i :| 0 <= i < |l| && l[i] == e.member;
      assert a[i] == e;
    }
  }

  /** rl_load_set: the members of the records, which may repeat. */
  function LoadSet(u: seq<Byte>): Option<set<Member>> {
    match LoadRecords(u, 0)
    case None => None
    case Some(rs) => Some(set i | 0 <= i < |rs| :: rs[i].body)
  }

  /** Loading a dumped set gives it back exactly when its sizes fit their fields and
      the count passes its check. */
  lemma SetRoundTrip(l: seq<Member>, s: set<Member>)
    requires SetListing(l, s)
    ensures var u := BlobOf(SetRecords(l));
      LoadSet(u) == Some(s) <==> Fits(SetRecords(l), 0) && CountOk(|u|, |l|, 0)
  {
    hide LoadRecords, BlobOf, CountOk;
    var rs := SetRecords(l);
    var u := BlobOf(rs);
    LoadIff(u, 0, rs);
    if Fits(rs, 0) && CountOk(|u|, |l|, 0) {
      MembersOf(l, s);
    } else if LoadSet(u) == Some(s) {
      var qs := LoadRecords(u, 0).value;
      LoadIff(u, 0, qs);
      SetOfRecords(l, s, qs);
      assert Fits(rs, 0);
      assert u == BlobOf(qs) == BlobOf(rs);
      SameBlob(qs, rs, 0);
    }
  }

  lemma MembersOf(l: seq<Member>, s: set<Member>)
    requires SetListing(l, s)
    ensures (set i | 0 <= i < |SetRecords(l)| :: SetRecords(l)[i].body) == s
  {
    var rs := SetRecords(l);
    forall m | m in s ensures exists i :: 0 <= i < |rs| && rs[i].body == m {
      var i :| 0 <= i < |l| && l[i] == m;
      assert rs[i].body == m;
    }
  }

  /** A set that can be loaded has sizes that fit. */
  lemma SetOfRecords(l: seq<Member>, s: set<Member>, qs: seq<Record>)
    requires SetListing(l, s) && Fits(qs, 0) && s == set i | 0 <= i < |qs| :: qs[i].body
    ensures Fits(SetRecords(l), 0)
  {
    var rs := SetRecords(l);
    forall i | 0 <= i < |l| ensures |l[i]| < U32 {
      assert l[i] in s;
    }
    ListingSize(l, s);
    ImageSize(qs, s);
  }

  lemma {:induction false} ListingSize(l: seq<Member>, s: set<Member>)
    requires SetListing(l, s)
    ensures |l| == |s|
  {
    if l == [] {
      assert s == {};
    } else {
      var n := |l| - 1;
      var m := l[n];
      O.CompareAntisymmetric(m, m);
      forall x ensures x in l[..n] <==> x in s - {m} {
        if x in l[..n] {
          var i :| 0 <= i < n && l[i] == x;
          assert O.CompareObj(l[i], l[n]) < 0;
        }
        if x in s - {m} {
          var i :| 0 <= i < |l| && l[i] == x;
          assert l[..n][i] == x;
        }
      }
      ListingSize(l[..n], s - {m});
    }
  }

  lemma {:induction false} ImageSize(qs: seq<Record>, s: set<Member>)
    requires s == set i | 0 <= i < |qs| :: qs[i].body
    ensures |s| <= |qs|
  {
    if qs == [] {
      assert s == {};
    } else {
      var n := |qs| - 1;
      var t := set i | 0 <= i < n :: qs[..n][i].body;
      ImageSize(qs[..n], t);
      assert s == t + {qs[n].body};
    }
  }

  /** Blobs of fitting records are equal only for equal records. */
  lemma SameBlob(qs: seq<Record>, rs: seq<Record>, k: nat)
    requires Fits(qs, k) && Fits(rs, k) && BlobOf(qs) == BlobOf(rs)
    ensures qs == rs
  {
    hide Parse, AllBytes, Wr32, Rd;
    Wr32Back(|qs|);
    Wr32Back(|rs|);
    assert BlobOf(qs)[..4] == Wr32(|qs|) && BlobOf(rs)[..4] == Wr32(|rs|);
    assert BlobOf(qs)[4..] == AllBytes(qs) && BlobOf(rs)[4..] == AllBytes(rs);
    ParseAll(qs, k);
    ParseAll(rs, k);
  }

  /** rl_wr32: the four bytes, by shifts. */
  method Write32(v: nat) returns (b: seq<Byte>)
    requires v < U32
    ensures b == Wr32(v)
  {
    b := [v % 256, v / 256 % 256, v / 65536 % 256, v / 16777216 % 256];
    Le4(v);
  }

  lemma Le4(v: nat)
    requires v < U32
    ensures Wr32(v) == [v % 256, v / 256 % 256, v / 65536 % 256, v / 16777216 % 256]
  {
    assert v % U32 == v;
    assert Le(v / 256 / 256 / 256, 1) == [v / 256 / 256 / 256 % 256] + Le(v / 256 / 256 / 256 / 256, 0);
    assert Le(v / 256 / 256, 2) == [v / 256 / 256 % 256] + Le(v / 256 / 256 / 256, 1);
    assert Le(v / 256, 3) == [v / 256 % 256] + Le(v / 256 / 256, 2);
    assert Le(v, 4) == [v % 256] + Le(v / 256, 3);
  }

  function Sum4(a: nat, b: nat, c: nat, d: nat): nat {
    a + 256 * b + 65536 * c + 16777216 * d
  }

  /** rl_rd32. */
  method Read32(p: seq<Byte>, at: nat) returns (v: nat)
    requires at + 4 <= |p|
    ensures v == Rd(p[at..at + 4])
  {
    v := Sum4(p[at], p[at + 1], p[at + 2], p[at + 3]);
    var b := p[at..at + 4];
    Rd4(b);
  }

  lemma Rd4(b: seq<Byte>)
    requires |b| == 4
    ensures Rd(b) == Sum4(b[0], b[1], b[2], b[3])
  {
    assert Rd(b) == b[0] + 256 * Rd(b[1..]);
    assert Rd(b[1..]) == b[1] + 256 * Rd(b[1..][1..]);
    assert Rd(b[1..][1..]) == b[2] + 256 * Rd(b[1..][1..][1..]);
    assert Rd(b[1..][1..][1..]) == b[3] + 256 * Rd(b[1..][1..][1..][1..]);
  }

  /** rl_load_set: the whole shape is checked before any member is copied. */
  method LoadSetBlob(buf: seq<Byte>) returns (r: Option<set<Member>>)
    ensures r == LoadSet(buf)
  {
    hide Rd, Parse;
    if |buf| < 4 {
      return None;
    }
    var count := Read32(buf, 0);
    assert buf[0..4] == buf[..4];
    if count > (|buf| - 4) / 4 % U32 {
      return None;
    }
    var rec: Option<seq<(nat, nat)>> := Check(buf, count);
    if rec.None? {
      return None;
    }
    var sobj: set<Member> := {};
    var rs := Parse(buf[4..], count, 0).value;
    var i := 0;
    while i < |rec.value|
      invariant 0 <= i <= |rec.value|
      invariant sobj == set j | 0 <= j < i :: rs[j].body
    {
      var ele := buf[rec.value[i].0..rec.value[i].0 + rec.value[i].1];
      sobj := sobj + {ele};
      i := i + 1;
    }
    r := Some(sobj);
  }

  /** The references (start and length) the first pass collects. */
  ghost predicate Refer(buf: seq<Byte>, refs: seq<(nat, nat)>, rs: seq<Record>) {
    && |refs| == |rs|
    && forall i :: 0 <= i < |refs| ==>
        refs[i].0 + refs[i].1 <= |buf| && buf[refs[i].0..refs[i].0 + refs[i].1] == rs[i].body
  }

  /** What is left to parse at `p`, the records before it being `done`. */
  ghost predicate Parsing(u: seq<Byte>, p: nat, n: nat, i: nat, k: nat, done: seq<Record>) {
    && 4 <= |u| && p <= |u| && i <= n && |done| == i
    && var whole, rest := Parse(u[4..], n, k), Parse(u[p..], n - i, k);
       if rest.None? then whole == None else whole == Some(done + rest.value)
  }

  lemma ParseNext(u: seq<Byte>, p: nat, n: nat, i: nat, k: nat, done: seq<Record>)
    requires |u| >= 4 && Parsing(u, p, n, i, k, done) && i < n
    ensures |u| - p < k + 4 ==> Parse(u[4..], n, k) == None
    ensures |u| - p >= k + 4 ==>
      var len := Rd(u[p + k..p + k + 4]);
      if |u| - p - k - 4 < len then Parse(u[4..], n, k) == None
      else Parsing(u, p + k + 4 + len, n, i + 1, k, done + [Record(u[p..p + k], u[p + k + 4..p + k + 4 + len])])
  {
    hide Rd;
    var w := u[p..];
    if |w| >= k + 4 {
      SubSlice(u, p, k, k + 4);
      var len := Rd(u[p + k..p + k + 4]);
      if |w| - k - 4 >= len {
        SubSlice(u, p, 0, k);
        SubSlice(u, p, k + 4, k + 4 + len);
        var r, rest := Record(w[..k], w[k + 4..k + 4 + len]), Parse(w[k + 4 + len..], n - i - 1, k);
        if rest.Some? {
          assert done + ([r] + rest.value) == done + [r] + rest.value;
        }
      }
    }
  }

  lemma SubSlice(u: seq<Byte>, p: nat, a: nat, b: nat)
    requires p <= |u| && a <= b <= |u| - p
    ensures u[p..][a..b] == u[p + a..p + b] && u[p..][b..] == u[p + b..]
    ensures a == 0 ==> u[p..][..b] == u[p..p + b]
  {
  }

  lemma ParseStart(u: seq<Byte>, n: nat, k: nat)
    requires |u| >= 4
    ensures Parsing(u, 4, n, 0, k, [])
  {
    assert forall rs: seq<Record> :: [] + rs == rs;
  }

  lemma ParseEnd(u: seq<Byte>, p: nat, n: nat, k: nat, done: seq<Record>)
    requires Parsing(u, p, n, n, k, done)
    ensures Parse(u[4..], n, k) == if p == |u| then Some(done) else None
  {
    assert done + [] == done;
  }

  method Check(buf: seq<Byte>, count: nat) returns (rec: Option<seq<(nat, nat)>>)
    requires |buf| >= 4
    ensures rec.None? <==> Parse(buf[4..], count, 0).None?
    ensures rec.Some? ==> Refer(buf, rec.value, Parse(buf[4..], count, 0).value)
  {
    hide Rd;
    var p: nat, i: nat := 4, 0;
    var refs: seq<(nat, nat)> := [];
    ghost var done: seq<Record> := [];
    ParseStart(buf, count, 0);
    while i < count
      invariant 0 <= i <= count && Parsing(buf, p, count, i, 0, done) && Refer(buf, refs, done)
    {
      hide Parse;
      ParseNext(buf, p, count, i, 0, done);
      assert buf[p..p + 0] == [];
      if |buf| - p < 4 {
        return None;
      }
      var len := Read32(buf, p);
      p := p + 4;
      if |buf| - p < len {
        return None;
      }
      refs := refs + [(p, len)];
      done := done + [Record([], buf[p..p + len])];
      p := p + len;
      i := i + 1;
    }
    ParseEnd(buf, p, count, 0, done);
    if p != |buf| {
      return None;
    }
    rec := Some(refs);
  }

  /** Insertion by rl_cmp_members. */
  method InsertMember(l: seq<Member>, m: Member) returns (r: seq<Member>)
    requires forall i, j :: 0 <= i < j < |l| ==> O.CompareObj(l[i], l[j]) < 0
    requires m !in l
    ensures forall i, j :: 0 <= i < j < |r| ==> O.CompareObj(r[i], r[j]) < 0
    ensures forall x :: x in r <==> x in l || x == m
    ensures |r| == |l| + 1
  {
    hide O.CompareObj;
    var k := |l|;
    while k > 0 && O.CompareObj(l[k - 1], m) >= 0
      invariant 0 <= k <= |l| && forall i :: k <= i < |l| ==> O.CompareObj(m, l[i]) < 0
    {
      assert l[k - 1] in l;
      O.CompareAntisymmetric(l[k - 1], m);
      O.CompareAntisymmetric(m, l[k - 1]);
      k := k - 1;
    }
    if k > 0 {
      forall i | 0 <= i < k ensures O.CompareObj(l[i], m) < 0 {
        if i < k - 1 {
          O.CompareTransitive(l[i], l[k - 1], m);
        }
      }
    }
    r := l[..k] + [m] + l[k..];
    forall x ensures x in r <==> x in l || x == m {
      assert l == l[..k] + l[k..];
    }
  }

  /** rl_dump_set: the members in whatever order the iteration gives them, sorted, and
      written one after the other. */
  method DumpSetBlob(sobj: set<Member>) returns (out: seq<Byte>)
    ensures exists l :: SetListing(l, sobj) && out == BlobOf(SetRecords(l))
  {
    hide SetListing, BlobOf;
    var members := Gather(sobj);
    out := WriteMembers(members);
    assert SetListing(members, sobj) && out == BlobOf(SetRecords(members));
  }

  /** The members in whatever order the iteration gives them, sorted. */
  method Gather(sobj: set<Member>) returns (members: seq<Member>)
    ensures SetListing(members, sobj)
  {
    hide O.CompareObj;
    members := [];
    var todo := sobj;
    while todo != {}
      invariant todo <= sobj && SetListing(members, sobj - todo)
      decreases |todo|
    {
      var m :| m in todo;
      todo := todo - {m};
      members := InsertMember(members, m);
    }
    assert sobj - todo == sobj;
  }

  method WriteMembers(members: seq<Member>) returns (out: seq<Byte>)
    ensures out == BlobOf(SetRecords(members))
  {
    hide Wr32, AllBytes;
    out := Write32(|members| % U32);
    SmallWr(|members|);
    NoRecords();
    var i := 0;
    while i < |members|
      invariant 0 <= i <= |members|
      invariant out == Wr32(|members|) + AllBytes(SetRecords(members[..i]))
    {
      var hdr := Write32(|members[i]| % U32);
      SmallWr(|members[i]|);
      RecordsNext(members, i);
      Appended(Wr32(|members|), AllBytes(SetRecords(members[..i])), hdr, members[i]);
      out := out + hdr;
      out := out + members[i];
      i := i + 1;
    }
    assert members[..i] == members;
  }

  lemma NoRecords()
    ensures AllBytes(SetRecords([])) == []
  {
  }

  lemma Appended(a: seq<Byte>, b: seq<Byte>, c: seq<Byte>, d: seq<Byte>)
    ensures a + b + c + d == a + (b + c + d)
  {
  }

  /** The blob of the set of one member: the count, its length and its bytes, each number
      in four bytes. */
  lemma OneMemberBlob(m: Member)
    requires |m| < U32
    ensures BlobOf(SetRecords([m])) == [1, 0, 0, 0] + FourBytes(|m|) + m
  {
    OneIn32();
    SmallNumber(|m|);
    OneRecord(Record([], m));
    hide Wr32, AllBytes, FourBytes;
    assert SetRecords([m]) == [Record([], m)];
  }

  function FourBytes(v: nat): seq<Byte> {
    [v % 256, v / 256 % 256, v / 65536 % 256, v / 16777216 % 256]
  }

  lemma OneRecord(r: Record)
    ensures AllBytes([r]) == r.head + Wr32(|r.body|) + r.body
  {
    hide Wr32;
    assert [r][1..] == [];
    assert AllBytes([r]) == Bytes(r) + AllBytes([]);
  }

  lemma OneIn32()
    ensures Wr32(1) == [1, 0, 0, 0]
  {
    Le4(1);
  }

  lemma SmallNumber(v: nat)
    requires v < U32
    ensures Wr32(v) == FourBytes(v)
  {
    Le4(v);
    hide Wr32;
  }

  lemma SmallWr(v: nat)
    ensures Wr32(v % U32) == Wr32(v)
  {
  }

  lemma RecordsNext(l: seq<Member>, i: nat)
    requires i < |l|
    ensures AllBytes(SetRecords(l[..i + 1])) == AllBytes(SetRecords(l[..i])) + Wr32(|l[i]|) + l[i]
  {
    hide Wr32;
    assert SetRecords(l[..i + 1]) == SetRecords(l[..i]) + [Record([], l[i])];
    BytesAppend(SetRecords(l[..i]), Record([], l[i]));
  }

  lemma {:induction false} BytesAppend(rs: seq<Record>, r: Record)
    ensures AllBytes(rs + [r]) == AllBytes(rs) + r.head + Wr32(|r.body|) + r.body
  {
    hide Wr32;
    if rs == [] {
      assert ([] + [r])[1..] == [];
    } else {
      BytesAppend(rs[1..], r);
      assert (rs + [r])[1..] == rs[1..] + [r];
      Prepended(Bytes(rs[0]), AllBytes(rs[1..]), r.head, Wr32(|r.body|), r.body);
    }
  }

  lemma Prepended(a: seq<Byte>, b: seq<Byte>, c: seq<Byte>, d: seq<Byte>, e: seq<Byte>)
    ensures a + (b + c + d + e) == a + b + c + d + e
  {
  }
}
