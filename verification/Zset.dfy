/** The sorted set of luaclib-src/lua/zset.lua: a skip list kept beside a table of scores. */
module Zset {
  import opened Basics
  import opened SkipOrder
  import opened SkipShape
  import opened SkipList
  import opened Modular

  type Table = map<Bytes, real>

  /** The list holds just the members of the table, each under its score. */
  ghost predicate Lists(s: seq<Entry>, m: Table) {
    && Sorted(s)
    && (forall e :: e in s ==> e.obj in m && m[e.obj] == e.score)
    && (forall o :: o in m ==> Entry(m[o], o) in s)
  }

  /** The members that come before a member. */
  ghost function Ahead(m: Table, o: Bytes): set<Bytes>
    requires o in m
  {
    set p | p in m && Before(Entry(m[p], p), Entry(m[o], o))
  }

  /** The rank of a member, told from the table alone. */
  ghost function RankIn(m: Table, o: Bytes): (r: nat)
    requires o in m
    ensures r > 0
  {
    1 + |Ahead(m, o)|
  }

  /** The members at some ranks, and those at all others. */
  ghost function Ranked(m: Table, lo: int, hi: int): Table {
    map o | o in m && lo <= RankIn(m, o) <= hi :: m[o]
  }

  ghost function Unranked(m: Table, lo: int, hi: int): Table {
    map o | o in m && !(lo <= RankIn(m, o) <= hi) :: m[o]
  }

  function Elements(l: seq<Bytes>): set<Bytes> {
    set o | o in l
  }

  lemma ListsDistinct(s: seq<Entry>, m: Table)
    requires Lists(s, m)
    ensures DistinctMembers(s)
  {
    forall i, j | 0 <= i < j < |s| ensures s[i].obj != s[j].obj {
      BeforeTotal(s[i], s[j]);
      assert s[i] in s && s[j] in s;
    }
  }

  lemma ListsAdd(s: seq<Entry>, m: Table, e: Entry)
    requires Lists(s, m) && e.obj !in m
    ensures e !in s && Lists(Inserted(s, e), m[e.obj := e.score])
  {
    hide Inserted, Before, Sorted;
    InsertedSorted(s, e);
  }

  lemma ListsRemove(s: seq<Entry>, m: Table, o: Bytes)
    requires Lists(s, m) && o in m
    ensures var P := CountBefore(s, Entry(m[o], o)); P < |s| && Lists(Removed(s, P), m - {o})
  {
    hide Removed, Before, Sorted, CountBefore;
    var e := Entry(m[o], o);
    MemberIsNext(s, e);
    RemovedSorted(s, CountBefore(s, e));
  }

  /** The members at the first `n` places. */
  ghost function Front(s: seq<Entry>, n: nat): set<Bytes>
    requires n <= |s|
  {
    set i | 0 <= i < n :: s[i].obj
  }

  lemma {:induction false} FrontSize(s: seq<Entry>, n: nat)
    requires DistinctMembers(s) && n <= |s|
    ensures |Front(s, n)| == n
  {
    if n > 0 {
      FrontSize(s, n - 1);
      FrontNext(s, n);
    }
  }

  lemma FrontNext(s: seq<Entry>, n: nat)
    requires DistinctMembers(s) && 0 < n <= |s|
    ensures Front(s, n) == Front(s, n - 1) + {s[n - 1].obj} && s[n - 1].obj !in Front(s, n - 1)
  {
    forall p ensures p in Front(s, n) <==> p in Front(s, n - 1) || p == s[n - 1].obj {
      if p in Front(s, n) {
        var i :| 0 <= i < n && s[i].obj == p;
      }
      if p in Front(s, n - 1) {
        var i :| 0 <= i < n - 1 && s[i].obj == p;
      }
    }
  }

  /** The place of a member in the list is its rank, and there are as many places as
      members. */
  lemma PlaceIsRank(s: seq<Entry>, m: Table, k: nat)
    requires Lists(s, m) && k < |s|
    ensures s[k].obj in m && RankIn(m, s[k].obj) == k + 1
  {
    assert s[k] in s;
    ListsDistinct(s, m);
    FrontSize(s, k);
    var o := s[k].obj;
    forall p ensures p in Ahead(m, o) <==> p in Front(s, k) {
      if p in Ahead(m, o) {
        var i :| 0 <= i < |s| && s[i] == Entry(m[p], p);
        BeforeTotal(s[i], s[k]);
      }
      if p in Front(s, k) {
        var i :| 0 <= i < k && s[i].obj == p;
        assert s[i] in s;
      }
    }
    assert Ahead(m, o) == Front(s, k);
  }

  lemma AsManyPlaces(s: seq<Entry>, m: Table)
    requires Lists(s, m)
    ensures |s| == |m|
  {
    ListsDistinct(s, m);
    FrontSize(s, |s|);
    forall o ensures o in m <==> o in Front(s, |s|) {
      if o in m {
        var i :| 0 <= i < |s| && s[i] == Entry(m[o], o);
      }
      if o in Front(s, |s|) {
        var i :| 0 <= i < |s| && s[i].obj == o;
        assert s[i] in s;
      }
    }
    assert m.Keys == Front(s, |s|);
  }

  lemma SlicedSorted(s: seq<Entry>, lo: nat, hi: nat)
    requires Sorted(s) && lo <= hi <= |s|
    ensures Sorted(Sliced(s, lo, hi))
  {
    var t := Sliced(s, lo, hi);
    assert forall i :: 0 <= i < |t| ==> t[i] == s[if i < lo then i else i + hi - lo];
  }

  lemma UnrankedIs(m: Table, lo: int, hi: int)
    ensures forall o :: o in Unranked(m, lo, hi) <==> o in m && !(lo <= RankIn(m, o) <= hi)
    ensures forall o :: o in Unranked(m, lo, hi) ==> Unranked(m, lo, hi)[o] == m[o]
  {
  }

  /** A list that has lost a stretch holds the members at the other ranks. */
  lemma SlicedLists(s: seq<Entry>, m: Table, lo: nat, hi: nat)
    requires Lists(s, m) && lo <= hi <= |s|
    ensures Lists(Sliced(s, lo, hi), Unranked(m, lo + 1, hi))
  {
    hide RankIn, Before, Unranked, Sorted;
    SlicedSorted(s, lo, hi);
    SlicedHas(s, m, lo, hi);
    SlicedLacksNone(s, m, lo, hi, Unranked(m, lo + 1, hi));
  }

  lemma SlicedHas(s: seq<Entry>, m: Table, lo: nat, hi: nat)
    requires Lists(s, m) && lo <= hi <= |s|
    ensures forall e :: e in Sliced(s, lo, hi) ==>
      e.obj in Unranked(m, lo + 1, hi) && Unranked(m, lo + 1, hi)[e.obj] == e.score
  {
    hide RankIn, Before, Unranked, Sorted;
    UnrankedIs(m, lo + 1, hi);
    var t, n := Sliced(s, lo, hi), Unranked(m, lo + 1, hi);
    forall e | e in t ensures e.obj in n && n[e.obj] == e.score {
      var k :| 0 <= k < |t| && t[k] == e;
      var i := if k < lo then k else k + hi - lo;
      assert s[i] == e && e in s;
      PlaceIsRank(s, m, i);
    }
  }

  lemma SlicedLacksNone(s: seq<Entry>, m: Table, lo: nat, hi: nat, n: Table)
    requires Lists(s, m) && lo <= hi <= |s| && n == Unranked(m, lo + 1, hi)
    ensures forall o :: o in n ==> Entry(n[o], o) in Sliced(s, lo, hi)
  {
    hide RankIn, Before, Unranked, Sorted;
    UnrankedIs(m, lo + 1, hi);
    var t := Sliced(s, lo, hi);
    forall o | o in n ensures Entry(n[o], o) in t {
      var k :| 0 <= k < |s| && s[k] == Entry(m[o], o);
      PlaceIsRank(s, m, k);
      assert t[if k < lo then k else k - (hi - lo)] == s[k];
    }
  }

  /** So the table alone decides what the list is. */
  lemma OneList(s: seq<Entry>, t: seq<Entry>, m: Table)
    requires Lists(s, m) && Lists(t, m)
    ensures s == t
  {
    AsManyPlaces(s, m);
    AsManyPlaces(t, m);
    forall k | 0 <= k < |s| ensures s[k] == t[k] {
      PlaceIsRank(s, m, k);
      PlaceIsRank(t, m, k);
      assert s[k] in s;
      var j :| 0 <= j < |t| && t[j] == s[k];
      PlaceIsRank(t, m, j);
    }
  }

  class Zset {
    const sl: SkipList
    var tbl: Table

    constructor ()
      ensures Valid() && tbl == map[] && fresh(sl) && fresh(sl.nodes)
    {
      sl := new SkipList();
      tbl := map[];
    }

    ghost predicate Valid()
      reads this, sl, sl.nodes
    {
      sl.Valid() && Lists(sl.Contents(), tbl)
    }

    /** mt:add, with the tower height the draw chose. */
    method Add(score: real, member: Bytes, lvl: nat)
      requires Valid() && 1 <= lvl <= MAXLEVEL
      modifies this, sl, sl.nodes
      ensures Valid() && tbl == old(tbl)[member := score]
      ensures forall n :: n in sl.nodes ==> n in old(sl.nodes) || fresh(n)
    {
      hide Lists, SkipList.Valid, SkipList.Contents, Inserted, Removed, CountBefore;
      ghost var m := tbl;
      if member in tbl {
        if tbl[member] == score {
          assert m[member := score] == m;
          return;
        }
        ListsMember(sl.Contents(), tbl, member);
        ListsRemove(sl.Contents(), tbl, member);
        var _ := sl.Delete(tbl[member], member);
        assert forall i :: 0 <= i < |sl.nodes| ==> sl.nodes[i] in old(sl.nodes);
        m := m - {member};
      }
      assert Lists(sl.Contents(), m);
      ListsAdd(sl.Contents(), m, Entry(score, member));
      sl.Insert(score, member, lvl);
      tbl := tbl[member := score];
      assert tbl == m[member := score];
    }

    lemma ListsMember(s: seq<Entry>, m: Table, o: Bytes)
      requires Lists(s, m) && o in m
      ensures Entry(m[o], o) in s
    {
    }

    /** mt:rem */
    method Rem(member: Bytes)
      requires Valid()
      modifies this, sl, sl.nodes
      ensures Valid() && tbl == old(tbl) - {member}
      ensures forall n :: n in sl.nodes ==> n in old(sl.nodes)
    {
      hide Lists, SkipList.Valid, SkipList.Contents, Removed, CountBefore;
      if member in tbl {
        ListsMember(sl.Contents(), tbl, member);
        ListsRemove(sl.Contents(), tbl, member);
        var _ := sl.Delete(tbl[member], member);
        tbl := tbl - {member};
      } else {
        assert tbl - {member} == tbl;
      }
    }

    /** mt:count */
    method Count() returns (n: nat)
      requires Valid()
      ensures n == |tbl|
    {
      hide Lists;
      AsManyPlaces(sl.Contents(), tbl);
      sl.RankBasics();
      n := sl.length;
    }

    /** delete_by_rank of the Lua binding, which takes both ranks modulo 2^32 and in
        either order; the callback clears the table. */
    method DeleteRanks(from: int, to: int) returns (removed: nat)
      requires Valid()
      modifies this, sl, sl.nodes
      ensures Valid() && tbl == RanksDeleted(old(tbl), from, to) && removed == |old(tbl)| - |tbl|
      ensures forall n :: n in sl.nodes ==> n in old(sl.nodes)
    {
      hide Lists, SkipList.Valid, SkipList.Contents, Unranked, Sliced, Unsigned32, Elements;
      ghost var s, m := sl.Contents(), tbl;
      AsManyPlaces(s, m);
      var start, end := Unsigned32(from), Unsigned32(to);
      if start > end {
        start, end := end, start;
      }
      var called;
      removed, called := sl.DeleteByRank(start, end);
      DeletedRanks(s, m, start, end, called);
      Clear(called);
      AsManyPlaces(sl.Contents(), tbl);
    }

    lemma DeletedRanks(s: seq<Entry>, m: Table, start: nat, end: nat, called: seq<Bytes>)
      requires Lists(s, m) && start <= end
      requires var lo := if start == 0 then 0 else Min(start - 1, |s|);
        |called| == Min(end, |s|) - lo && forall k :: 0 <= k < |called| ==> called[k] == s[lo + k].obj
      ensures m - Elements(called) == Unranked(m, start, end)
      ensures Lists(Sliced(s, if start == 0 then 0 else Min(start - 1, |s|), Min(end, |s|)), Unranked(m, start, end))
      ensures |Sliced(s, if start == 0 then 0 else Min(start - 1, |s|), Min(end, |s|))| == |s| - |called|
    {
      hide Lists, Unranked, Sliced, Elements;
      var lo, hi := if start == 0 then 0 else Min(start - 1, |s|), Min(end, |s|);
      SlicedMore(s, lo, hi);
      SlicedLists(s, m, lo, hi);
      Cleared(s, m, called, lo, hi);
      SameRanks(s, m, start, end);
    }

    /** The callbacks, one for each member taken out. */
    method Clear(called: seq<Bytes>)
      modifies this`tbl
      ensures tbl == old(tbl) - Elements(called)
    {
      var k := 0;
      while k < |called|
        invariant 0 <= k <= |called| && tbl == old(tbl) - Elements(called[..k])
      {
        assert called[..k + 1] == called[..k] + [called[k]];
        tbl := tbl - {called[k]};
        k := k + 1;
      }
      assert called[..k] == called;
    }

    lemma Cleared(s: seq<Entry>, m: Table, called: seq<Bytes>, lo: nat, hi: nat)
      requires Lists(s, m) && lo <= hi <= |s| && |called| == hi - lo
      requires forall k :: 0 <= k < |called| ==> called[k] == s[lo + k].obj
      ensures m - Elements(called) == Unranked(m, lo + 1, hi)
    {
      hide RankIn, Before, Sorted, Unranked;
      UnrankedIs(m, lo + 1, hi);
      var gone := Elements(called);
      forall o | o in m ensures o in gone <==> lo + 1 <= RankIn(m, o) <= hi {
        var j := PlaceOf(s, m, o);
        if lo <= j < hi {
          assert called[j - lo] == o;
        }
        if o in gone {
          var i :| 0 <= i < |called| && called[i] == o;
          PlaceIsRank(s, m, lo + i);
        }
      }
      assert m - gone == Unranked(m, lo + 1, hi);
    }

    /** Ranks beyond the ends make no difference. */
    lemma SameRanks(s: seq<Entry>, m: Table, start: nat, end: nat)
      requires Lists(s, m) && start <= end
      ensures var lo := if start == 0 then 0 else Min(start - 1, |s|);
        Unranked(m, lo + 1, Min(end, |s|)) == Unranked(m, start, end)
    {
      hide RankIn;
      AllRanks(s, m);
    }

    /** mt:limit keeps the members at the first ranks. A negative count is taken modulo
        2^32: -1 removes all members, and any other as a rule only the last one. */
    method Limit(count: int) returns (removed: nat)
      requires Valid()
      modifies this, sl, sl.nodes
      ensures Valid() && tbl == Limited(old(tbl), count) && removed == |old(tbl)| - |tbl|
      ensures count >= 0 && |old(tbl)| < U32 ==> tbl == Ranked(old(tbl), 1, count)
      ensures count == -1 && |old(tbl)| < U32 ==> tbl == map[]
      ensures count < -1 && |old(tbl)| <= U32 + count ==> tbl == Ranked(old(tbl), 1, |old(tbl)| - 1)
      ensures forall n :: n in sl.nodes ==> n in old(sl.nodes)
    {
      hide SkipList.Valid, SkipList.Contents, Lists, RanksDeleted, Ranked;
      LimitMeans(sl.Contents(), tbl, count);
      var total := Count();
      if total <= count {
        return 0;
      }
      removed := DeleteRanks(count + 1, total);
    }

    /** mt:rev_limit keeps the members at the last ranks, and none for a negative count. */
    method RevLimit(count: int) returns (removed: nat)
      requires Valid()
      modifies this, sl, sl.nodes
      ensures Valid() && tbl == RevLimited(old(tbl), count) && removed == |old(tbl)| - |tbl|
      ensures count >= 0 && |old(tbl)| < U32 ==> tbl == Ranked(old(tbl), |old(tbl)| - count + 1, |old(tbl)|)
      ensures count < 0 && |old(tbl)| - count < U32 ==> tbl == map[]
      ensures forall n :: n in sl.nodes ==> n in old(sl.nodes)
    {
      hide SkipList.Valid, SkipList.Contents, Lists, RanksDeleted, Ranked;
      RevLimitMeans(sl.Contents(), tbl, count);
      var total := Count();
      if total <= count {
        return 0;
      }
      removed := DeleteRanks(total - count, 1);
    }

    lemma LimitMeans(s: seq<Entry>, m: Table, count: int)
      requires Lists(s, m)
      ensures count >= 0 && |m| < U32 ==> Limited(m, count) == Ranked(m, 1, count)
      ensures count == -1 && |m| < U32 ==> Limited(m, count) == map[]
      ensures count < -1 && |m| <= U32 + count ==> Limited(m, count) == Ranked(m, 1, |m| - 1)
    {
      hide RankIn, Lists;
      AllRanks(s, m);
    }

    lemma RevLimitMeans(s: seq<Entry>, m: Table, count: int)
      requires Lists(s, m)
      ensures count >= 0 && |m| < U32 ==> RevLimited(m, count) == Ranked(m, |m| - count + 1, |m|)
      ensures count < 0 && |m| - count < U32 ==> RevLimited(m, count) == map[]
    {
      hide RankIn, Lists;
      AllRanks(s, m);
    }

    lemma AllRanks(s: seq<Entry>, m: Table)
      requires Lists(s, m)
      ensures |s| == |m| && forall o :: o in m ==> 1 <= RankIn(m, o) <= |m|
    {
      AsManyPlaces(s, m);
      forall o | o in m ensures RankIn(m, o) <= |m| {
        var k :| 0 <= k < |s| && s[k] == Entry(m[o], o);
        PlaceIsRank(s, m, k);
      }
    }

    /** mt:rank: one more than the number of members before it. */
    method Rank(member: Bytes) returns (r: Option<nat>)
      requires Valid()
      ensures r == if member in tbl then Some(RankIn(tbl, member)) else None
    {
      hide SkipList.Valid, SkipList.Contents, SkipList.Linked, RankAnswer, Sorted, RankIn, Lists, DistinctMembers;
      if member !in tbl {
        return None;
      }
      ghost var s := sl.Contents();
      ListsDistinct(s, tbl);
      sl.RankBasics();
      sl.Basics();
      ghost var k := PlaceOf(s, tbl, member);
      var rank := sl.GetRank(tbl[member], member);
      RankOfMember(sl.nodes, k, rank);
      r := Some(rank);
    }

    /** mt:rev_rank: one more than the number of members after it. */
    method RevRank(member: Bytes) returns (r: Option<int>)
      requires Valid()
      ensures r == if member in tbl then Some(|tbl| - RankIn(tbl, member) + 1) else None
    {
      hide SkipList.Valid, SkipList.Contents, Lists, RankIn;
      var rank := Rank(member);
      if rank.None? {
        return None;
      }
      var n := Count();
      r := Some(n - rank.value + 1);
    }

    /** mt:range */
    method Range(r1: int, r2: int) returns (out: seq<Bytes>)
      requires Valid()
      ensures out == RangeAnswer(sl.Contents(), r1, r2)
    {
      hide SkipList.Valid, SkipList.Contents, Lists, RanksFrom, Unsigned32;
      out := sl.RankRange(Unsigned32(AtLeastOne(r1)), Unsigned32(AtLeastOne(r2)));
    }

    /** mt:rev_range: the members from one rank to another, counted from the end. When both
        ranks are beyond the end it answers the lowest member, if any. */
    method RevRange(r1: int, r2: int) returns (out: seq<Bytes>)
      requires Valid()
      ensures var s := sl.Contents();
        && out == RangeAnswer(s, |s| - r1 + 1, |s| - r2 + 1)
        && (|s| < INT_LIMIT - 1 ==>
            && (1 <= r1 <= r2 && r1 <= |s| ==> out == ReverseObjs(Objs(s, |s| - Min(r2, |s|), |s| - r1 + 1)))
            && (1 <= r2 <= r1 && r2 <= |s| ==> out == Objs(s, |s| - Min(r1, |s|), |s| - r2 + 1))
            && (r1 > |s| && r2 > |s| ==> out == Objs(s, 0, Min(1, |s|)))
            && (r1 < 1 && |s| - r1 < U32 - 1 ==> out == []))
    {
      hide SkipList.Valid, SkipList.Contents, Lists, Objs, ReverseObjs, RangeAnswer;
      ghost var s := sl.Contents();
      AsManyPlaces(s, tbl);
      var n := Count();
      out := Range(n - r1 + 1, n - r2 + 1);
      if n < INT_LIMIT - 1 {
        DownFromEnd(s, r1, r2);
        UpFromEnd(s, r1, r2);
        OutsideRanks(s, r1, r2);
      }
    }

    /** A member is found again at its rank. */
    method RankThenRange(member: Bytes) returns (out: seq<Bytes>)
      requires Valid() && member in tbl
      ensures |tbl| < U32 ==> out == [member]
    {
      hide SkipList.Valid, SkipList.Contents, Lists, RankIn, RangeAnswer;
      ghost var s := sl.Contents();
      AsManyPlaces(s, tbl);
      ghost var k := PlaceOf(s, tbl, member);
      OneRank(s, k);
      var r := Rank(member);
      out := Range(r.value, r.value);
    }

    lemma PlaceOf(s: seq<Entry>, m: Table, o: Bytes) returns (k: nat)
      requires Lists(s, m) && o in m
      ensures k < |s| && s[k] == Entry(m[o], o) && RankIn(m, o) == k + 1
    {
      hide RankIn;
      k :| 0 <= k < |s| && s[k] == Entry(m[o], o);
      PlaceIsRank(s, m, k);
    }
  }

  const U32: nat := 0x1_0000_0000

  function AtLeastOne(r: int): nat {
    if r < 1 then 1 else r
  }

  /** What is left after delete_by_rank. */
  ghost function RanksDeleted(m: Table, from: int, to: int): Table {
    var a, b := Unsigned32(from), Unsigned32(to);
    Unranked(m, Min(a, b), if a <= b then b else a)
  }

  ghost function Limited(m: Table, count: int): Table {
    if |m| <= count then m else RanksDeleted(m, count + 1, |m|)
  }

  ghost function RevLimited(m: Table, count: int): Table {
    if |m| <= count then m else RanksDeleted(m, |m| - count, 1)
  }

  /** What range answers: ranks below 1 are taken for 1, all ranks modulo 2^32, and there
      is no answer for 2^31 ranks and more. */
  ghost function RangeAnswer(s: seq<Entry>, r1: int, r2: int): seq<Bytes> {
    var a, b := Unsigned32(AtLeastOne(r1)), Unsigned32(AtLeastOne(r2));
    if RangeLength(a, b) < INT_LIMIT then RanksFrom(s, a, b) else []
  }

  /** It answers the members from one rank to another exactly when there are fewer than
      2^31 ranks, or none of the members is asked for. */
  lemma RangeRight(s: seq<Entry>, r1: int, r2: int)
    requires r1 < U32 && r2 < U32
    ensures RangeAnswer(s, r1, r2) == RanksFrom(s, AtLeastOne(r1), AtLeastOne(r2)) <==>
      RangeLength(AtLeastOne(r1), AtLeastOne(r2)) < INT_LIMIT || AtLeastOne(r1) > |s|
  {
    var a, b := AtLeastOne(r1), AtLeastOne(r2);
    if a <= |s| {
      SomeRanks(s, a, b);
    }
  }

  /** Ranks below 1 stand for 1, and others for themselves. */
  lemma RangeClamps(s: seq<Entry>, r1: int, r2: int)
    ensures r1 < 1 ==> RangeAnswer(s, r1, r2) == RangeAnswer(s, 1, r2)
    ensures r2 < 1 ==> RangeAnswer(s, r1, r2) == RangeAnswer(s, r1, 1)
    ensures 1 <= r1 <= r2 < INT_LIMIT ==> RangeAnswer(s, r1, r2) == RanksFrom(s, r1, r2)
    ensures 1 <= r2 <= r1 < INT_LIMIT ==> RangeAnswer(s, r1, r2) == RanksFrom(s, r1, r2)
  {
    hide RanksFrom;
  }

  lemma SomeRanks(s: seq<Entry>, a: nat, b: nat)
    requires 1 <= a <= |s| && 1 <= b
    ensures RanksFrom(s, a, b) != []
  {
  }

  /** So of a list of three members the ranks from 1 to 2^31 are none. */
  lemma WideRange(s: seq<Entry>)
    requires |s| == 3
    ensures RangeAnswer(s, 1, INT_LIMIT) == [] && RanksFrom(s, 1, INT_LIMIT) == Objs(s, 0, 3)
  {
  }

  lemma OneRank(s: seq<Entry>, k: nat)
    requires k < |s|
    ensures |s| < U32 ==> RangeAnswer(s, k + 1, k + 1) == [s[k].obj]
  {
  }

  lemma DownFromEnd(s: seq<Entry>, r1: int, r2: int)
    requires |s| < INT_LIMIT - 1
    ensures 1 <= r1 <= r2 && r1 <= |s| ==>
      RangeAnswer(s, |s| - r1 + 1, |s| - r2 + 1) == ReverseObjs(Objs(s, |s| - Min(r2, |s|), |s| - r1 + 1))
  {
    hide Objs, ReverseObjs, Unsigned32;
    if 1 <= r1 <= |s| {
      OneObj(s, |s| - r1);
    }
  }

  lemma UpFromEnd(s: seq<Entry>, r1: int, r2: int)
    requires |s| < INT_LIMIT - 1
    ensures 1 <= r2 <= r1 && r2 <= |s| ==>
      RangeAnswer(s, |s| - r1 + 1, |s| - r2 + 1) == Objs(s, |s| - Min(r1, |s|), |s| - r2 + 1)
  {
    hide Objs, ReverseObjs, Unsigned32;
  }

  lemma OutsideRanks(s: seq<Entry>, r1: int, r2: int)
    requires |s| < INT_LIMIT - 1
    ensures r1 > |s| && r2 > |s| ==> RangeAnswer(s, |s| - r1 + 1, |s| - r2 + 1) == Objs(s, 0, Min(1, |s|))
    ensures r1 < 1 && |s| - r1 < U32 - 1 ==> RangeAnswer(s, |s| - r1 + 1, |s| - r2 + 1) == []
  {
    hide Objs, ReverseObjs, Unsigned32;
    OneObj(s, 0);
  }

  lemma OneObj(s: seq<Entry>, k: nat)
    ensures k < |s| ==> ReverseObjs(Objs(s, k, k + 1)) == Objs(s, k, k + 1)
    ensures Objs(s, 0, 0) == []
  {
    if k < |s| {
      assert Objs(s, k, k + 1)[1..] == [];
    }
  }

  datatype Op =
    | Add(score: real, member: Bytes, lvl: nat)
    | Rem(member: Bytes)
    | Limit(count: int)
    | RevLimit(count: int)

  /** What the operations mean for the table alone. */
  ghost function Applied(m: Table, op: Op): Table {
    match op
    case Add(score, member, _) => m[member := score]
    case Rem(member) => m - {member}
    case Limit(count) => Limited(m, count)
    case RevLimit(count) => RevLimited(m, count)
  }

  ghost function After(m: Table, ops: seq<Op>): Table {
    if ops == [] then m else Applied(After(m, ops[..|ops| - 1]), ops[|ops| - 1])
  }

  /** Any run of operations on a new sorted set, whatever tower heights are drawn, leaves
      the table they mean and the one list of it in order. */
  method RunZset(ops: seq<Op>) returns (z: Zset)
    requires forall op :: op in ops && op.Add? ==> 1 <= op.lvl <= MAXLEVEL
    ensures fresh(z) && z.Valid() && z.tbl == After(map[], ops) && Lists(z.sl.Contents(), After(map[], ops))
  {
    hide SkipList.Valid, SkipList.Contents, Lists, Applied;
    z := new Zset();
    var i := 0;
    while i < |ops|
      invariant 0 <= i <= |ops|
      invariant fresh(z) && fresh(z.sl) && fresh(z.sl.nodes) && z.Valid() && z.tbl == After(map[], ops[..i])
    {
      assert ops[i] in ops && ops[..i + 1][..i] == ops[..i];
      Exec(z, ops[i]);
      assert forall j :: 0 <= j < |z.sl.nodes| ==> z.sl.nodes[j] in z.sl.nodes;
      i := i + 1;
    }
    assert ops[..i] == ops;
  }

  method Exec(z: Zset, op: Op)
    requires z.Valid() && (op.Add? ==> 1 <= op.lvl <= MAXLEVEL)
    modifies z, z.sl, z.sl.nodes
    ensures z.Valid() && z.tbl == Applied(old(z.tbl), op)
    ensures forall n :: n in z.sl.nodes ==> n in old(z.sl.nodes) || fresh(n)
  {
    hide SkipList.Valid, SkipList.Contents, Lists, Limited, RevLimited;
    match op
    case Add(score, member, lvl) => z.Add(score, member, lvl);
    case Rem(member) => z.Rem(member);
    case Limit(count) => var _ := z.Limit(count);
    case RevLimit(count) => var _ := z.RevLimit(count);
  }
}
