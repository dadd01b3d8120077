/** The order of skip-list entries, and what the list operations mean for a
    plain sorted sequence. */
module SkipOrder {

  type Bytes = seq<int>

  datatype Entry = Entry(score: real, obj: Bytes)

  function Min(a: int, b: int): int {
    if a <= b then a else b
  }

  /** memcmp over the first `n` bytes. */
  function MemCmp(a: Bytes, b: Bytes, n: nat): int
    requires n <= |a| && n <= |b|
  {
    if n == 0 then 0
    else if a[0] != b[0] then a[0] - b[0]
    else MemCmp(a[1..], b[1..], n - 1)
  }

  /** compareslObj */
  function CompareObj(a: Bytes, b: Bytes): int {
    var cmp := MemCmp(a, b, Min(|a|, |b|));
    if cmp == 0 then |a| - |b| else cmp
  }

  /** The test of every descent: score first, then bytes. */
  predicate Before(x: Entry, y: Entry) {
    x.score < y.score || (x.score == y.score && CompareObj(x.obj, y.obj) < 0)
  }

  predicate AtOrBefore(x: Entry, y: Entry) {
    x.score < y.score || (x.score == y.score && CompareObj(x.obj, y.obj) <= 0)
  }

  // ---- A total order --------------------------------------------------------

  lemma CompareStep(a: Bytes, b: Bytes)
    ensures a == [] || b == [] ==> CompareObj(a, b) == |a| - |b|
    ensures a != [] && b != [] && a[0] != b[0] ==> CompareObj(a, b) == a[0] - b[0]
    ensures a != [] && b != [] && a[0] == b[0] ==> CompareObj(a, b) == CompareObj(a[1..], b[1..])
  {
  }

  lemma {:induction false} CompareAntisymmetric(a: Bytes, b: Bytes)
    ensures CompareObj(a, b) == 0 <==> a == b
    ensures CompareObj(a, b) < 0 <==> CompareObj(b, a) > 0
  {
    hide CompareObj;
    CompareStep(a, b);
    CompareStep(b, a);
    if a != [] && b != [] && a[0] == b[0] {
      CompareAntisymmetric(a[1..], b[1..]);
      assert a == [a[0]] + a[1..] && b == [b[0]] + b[1..];
    }
  }

  lemma {:induction false} CompareTransitive(a: Bytes, b: Bytes, c: Bytes)
    requires CompareObj(a, b) < 0 && CompareObj(b, c) <= 0
    ensures CompareObj(a, c) < 0
  {
    hide CompareObj;
    CompareStep(a, b);
    CompareStep(b, c);
    CompareStep(a, c);
    if a != [] && b != [] && c != [] && a[0] == b[0] == c[0] {
      CompareTransitive(a[1..], b[1..], c[1..]);
    }
  }

  /** The order is the lexicographic one: up to the first byte that differs, the smaller
      one coming first, and a proper prefix before what it is a prefix of. */
  lemma Lexicographic(a: Bytes, b: Bytes)
    ensures CompareObj(a, b) < 0 <==> exists k :: FirstDifference(a, b, k)
  {
    if CompareObj(a, b) < 0 {
      var k := FindDifference(a, b);
    }
    forall k | FirstDifference(a, b, k) ensures CompareObj(a, b) < 0 {
      DifferenceDecides(a, b, k);
    }
  }

  ghost predicate FirstDifference(a: Bytes, b: Bytes, k: nat) {
    && k <= |a| && k < |b| && a[..k] == b[..k]
    && (k == |a| || a[k] < b[k])
  }

  lemma {:induction false} FindDifference(a: Bytes, b: Bytes) returns (k: nat)
    requires CompareObj(a, b) < 0
    ensures FirstDifference(a, b, k)
  {
    hide CompareObj;
    CompareStep(a, b);
    if a == [] || b == [] || a[0] != b[0] {
      k := 0;
    } else {
      var j := FindDifference(a[1..], b[1..]);
      k := j + 1;
      assert a[..k] == [a[0]] + a[1..][..j] && b[..k] == [b[0]] + b[1..][..j];
    }
  }

  lemma {:induction false} DifferenceDecides(a: Bytes, b: Bytes, k: nat)
    requires FirstDifference(a, b, k)
    ensures CompareObj(a, b) < 0
    decreases k
  {
    hide CompareObj;
    CompareStep(a, b);
    if k > 0 {
      assert a[0] == a[..k][0] == b[..k][0] == b[0];
      assert a[1..][..k - 1] == a[..k][1..] && b[1..][..k - 1] == b[..k][1..];
      DifferenceDecides(a[1..], b[1..], k - 1);
    }
  }

  lemma BeforeTotal(x: Entry, y: Entry)
    ensures x == y <==> !Before(x, y) && !Before(y, x)
    ensures !(Before(x, y) && Before(y, x))
    ensures AtOrBefore(x, y) <==> x == y || Before(x, y)
  {
    CompareAntisymmetric(x.obj, y.obj);
    CompareAntisymmetric(y.obj, x.obj);
  }

  lemma BeforeTransitive(x: Entry, y: Entry, z: Entry)
    requires Before(x, y) && AtOrBefore(y, z)
    ensures Before(x, z)
  {
    if x.score == y.score == z.score { CompareTransitive(x.obj, y.obj, z.obj); }
  }

  // ---- Sorted sequences -----------------------------------------------------

  ghost predicate Sorted(s: seq<Entry>) {
    forall i, j :: 0 <= i < j < |s| ==> Before(s[i], s[j])
  }

  /** Scores ascend, and members of equal score are in the order of their bytes. */
  lemma SortedMeaning(s: seq<Entry>)
    ensures Sorted(s) <==> forall i, j :: 0 <= i < j < |s| ==>
      || s[i].score < s[j].score
      || (s[i].score == s[j].score && exists k :: FirstDifference(s[i].obj, s[j].obj, k))
  {
    hide CompareObj;
    forall i, j | 0 <= i < j < |s|
      ensures CompareObj(s[i].obj, s[j].obj) < 0 <==> exists k :: FirstDifference(s[i].obj, s[j].obj, k)
    {
      Lexicographic(s[i].obj, s[j].obj);
    }
  }

  /** Members are told apart by their bytes alone. */
  ghost predicate DistinctMembers(s: seq<Entry>) {
    forall i, j :: 0 <= i < j < |s| ==> s[i].obj != s[j].obj
  }

  /** How many entries come before `e`. */
  function CountBefore(s: seq<Entry>, e: Entry): (n: nat)
    ensures n <= |s|
  {
    if s == [] || !Before(s[0], e) then 0 else 1 + CountBefore(s[1..], e)
  }

  lemma {:induction false} CountBeforeSplits(s: seq<Entry>, e: Entry)
    requires Sorted(s)
    ensures forall i :: 0 <= i < |s| ==> (i < CountBefore(s, e) <==> Before(s[i], e))
  {
    if s != [] {
      if Before(s[0], e) {
        CountBeforeSplits(s[1..], e);
        forall i | 0 <= i < |s| ensures i < CountBefore(s, e) <==> Before(s[i], e) {
          if i > 0 { assert s[i] == s[1..][i - 1]; }
        }
      } else {
        forall i | 0 <= i < |s| ensures !Before(s[i], e) {
          if Before(s[i], e) && i > 0 {
            BeforeTotal(s[i], e);
            BeforeTransitive(s[0], s[i], e);
          }
        }
      }
    }
  }

  /** The entry of a sorted sequence equal to `e` can only be the first one not before it. */
  lemma MemberIsNext(s: seq<Entry>, e: Entry)
    requires Sorted(s)
    ensures e in s <==> CountBefore(s, e) < |s| && s[CountBefore(s, e)] == e
  {
    CountBeforeSplits(s, e);
    var p := CountBefore(s, e);
    if e in s {
      var i :| 0 <= i < |s| && s[i] == e;
      BeforeTotal(e, e);
      if p != i { BeforeTotal(s[p], e); }
    }
  }

  function Inserted(s: seq<Entry>, e: Entry): seq<Entry> {
    s[..CountBefore(s, e)] + [e] + s[CountBefore(s, e)..]
  }

  function Removed(s: seq<Entry>, i: nat): seq<Entry>
    requires i < |s|
  {
    s[..i] + s[i + 1..]
  }

  lemma InsertedSorted(s: seq<Entry>, e: Entry)
    requires Sorted(s) && e !in s
    ensures Sorted(Inserted(s, e))
    ensures forall x :: x in Inserted(s, e) <==> x in s || x == e
  {
    CountBeforeSplits(s, e);
    var p := CountBefore(s, e);
    var t := Inserted(s, e);
    forall i, j | 0 <= i < j < |t| ensures Before(t[i], t[j]) {
      if j == p {
        assert t[i] == s[i];
      } else if i == p {
        assert t[j] == s[j - 1];
        BeforeTotal(s[j - 1], e);
      } else {
        assert t[i] == s[if i < p then i else i - 1] && t[j] == s[if j < p then j else j - 1];
      }
    }
    forall x ensures x in t <==> x in s || x == e {
      if x in s {
        var i :| 0 <= i < |s| && s[i] == x;
        assert t[if i < p then i else i + 1] == x;
      }
      assert t[p] == e;
    }
  }

  lemma RemovedSorted(s: seq<Entry>, i: nat)
    requires Sorted(s) && i < |s|
    ensures Sorted(Removed(s, i))
    ensures forall x :: x in Removed(s, i) <==> x in s && x != s[i]
  {
    var t := Removed(s, i);
    forall x ensures x in t <==> x in s && x != s[i] {
      if x in s && x != s[i] {
        var j :| 0 <= j < |s| && s[j] == x;
        assert t[if j < i then j else j - 1] == x;
      }
      BeforeTotal(s[i], s[i]);
    }
  }

  /** The sequence without the entries at `from` up to, not including, `to`. */
  function Sliced(s: seq<Entry>, from: nat, to: nat): seq<Entry>
    requires from <= to <= |s|
  {
    s[..from] + s[to..]
  }

  lemma SlicedMore(s: seq<Entry>, from: nat, to: nat)
    requires from <= to <= |s|
    ensures |Sliced(s, from, to)| == |s| - (to - from)
    ensures Sliced(s, from, from) == s
    ensures to < |s| ==>
      Sliced(s, from, to)[from] == s[to] && Removed(Sliced(s, from, to), from) == Sliced(s, from, to + 1)
  {
  }

  // ---- Rank queries and score ranges ----------------------------------------

  /** How many entries come at or before `e`. */
  function CountUpTo(s: seq<Entry>, e: Entry): (n: nat)
    ensures n <= |s|
  {
    if s == [] || !AtOrBefore(s[0], e) then 0 else 1 + CountUpTo(s[1..], e)
  }

  lemma {:induction false} CountUpToSplits(s: seq<Entry>, e: Entry)
    requires Sorted(s)
    ensures forall i :: 0 <= i < |s| ==> (i < CountUpTo(s, e) <==> AtOrBefore(s[i], e))
  {
    if s != [] {
      if AtOrBefore(s[0], e) {
        CountUpToSplits(s[1..], e);
        forall i | 0 <= i < |s| ensures i < CountUpTo(s, e) <==> AtOrBefore(s[i], e) {
          if i > 0 { assert s[i] == s[1..][i - 1]; }
        }
      } else {
        forall i | 0 <= i < |s| ensures !AtOrBefore(s[i], e) {
          BeforeTotal(s[0], e);
          if AtOrBefore(s[i], e) && i > 0 {
            BeforeTransitive(s[0], s[i], e);
          }
        }
      }
    }
  }

  /** An entry that is present is the last one at or before itself. */
  lemma MemberIsLast(s: seq<Entry>, k: nat)
    requires Sorted(s) && k < |s|
    ensures CountUpTo(s, s[k]) == k + 1
  {
    CountUpToSplits(s, s[k]);
    BeforeTotal(s[k], s[k]);
    if k + 1 < |s| {
      BeforeTotal(s[k + 1], s[k]);
      BeforeTotal(s[k], s[k + 1]);
    }
    assert k + 1 < |s| ==> Before(s[k], s[k + 1]);
  }

  /** How many scores are below `x`. */
  function CountBelow(s: seq<Entry>, x: real): (n: nat)
    ensures n <= |s|
  {
    if s == [] || s[0].score >= x then 0 else 1 + CountBelow(s[1..], x)
  }

  /** How many scores are at most `x`. */
  function CountAtMost(s: seq<Entry>, x: real): (n: nat)
    ensures n <= |s|
  {
    if s == [] || s[0].score > x then 0 else 1 + CountAtMost(s[1..], x)
  }

  lemma ScoresAscend(s: seq<Entry>, i: nat, j: nat)
    requires Sorted(s) && i <= j < |s|
    ensures s[i].score <= s[j].score
  {
    if i < j { assert Before(s[i], s[j]); }
  }

  lemma {:induction false} CountBelowSplits(s: seq<Entry>, x: real)
    requires Sorted(s)
    ensures forall i :: 0 <= i < |s| ==> (i < CountBelow(s, x) <==> s[i].score < x)
  {
    if s != [] {
      if s[0].score < x {
        CountBelowSplits(s[1..], x);
        assert forall i :: 0 < i < |s| ==> s[i] == s[1..][i - 1];
      } else {
        forall i | 0 <= i < |s| ensures s[i].score >= x { ScoresAscend(s, 0, i); }
      }
    }
  }

  lemma {:induction false} CountAtMostSplits(s: seq<Entry>, x: real)
    requires Sorted(s)
    ensures forall i :: 0 <= i < |s| ==> (i < CountAtMost(s, x) <==> s[i].score <= x)
  {
    if s != [] {
      if s[0].score <= x {
        CountAtMostSplits(s[1..], x);
        assert forall i :: 0 < i < |s| ==> s[i] == s[1..][i - 1];
      } else {
        forall i | 0 <= i < |s| ensures s[i].score > x { ScoresAscend(s, 0, i); }
      }
    }
  }

  /** slIsInRange, as a test of the two ends of the list. */
  predicate EndsMeet(s: seq<Entry>, min: real, max: real) {
    min <= max && s != [] && s[|s| - 1].score >= min && s[0].score <= max
  }

  /** The ends meet the range when some score is not below it and some is not above. */
  lemma EndsMeetIff(s: seq<Entry>, min: real, max: real)
    requires Sorted(s)
    ensures EndsMeet(s, min, max) <==>
      && min <= max
      && (exists i :: 0 <= i < |s| && s[i].score >= min) && (exists i :: 0 <= i < |s| && s[i].score <= max)
  {
    forall i | 0 <= i < |s| ensures s[0].score <= s[i].score <= s[|s| - 1].score {
      ScoresAscend(s, 0, i);
      ScoresAscend(s, i, |s| - 1);
    }
  }

  lemma RangeEnds(s: seq<Entry>, min: real, max: real)
    requires Sorted(s) && EndsMeet(s, min, max)
    ensures CountBelow(s, min) < |s| && CountAtMost(s, max) > 0
  {
    CountBelowSplits(s, min);
    CountAtMostSplits(s, max);
    var last := |s| - 1;
    assert last < CountBelow(s, min) <==> s[last].score < min;
  }

  /** The first entry at or above `min` and the last one at or below `max`, which
      slFirstInRange and slLastInRange answer, are in the range exactly when some
      entry is. The test of the ends alone does not say so. */
  lemma RangeAnswers(s: seq<Entry>, min: real, max: real)
    requires Sorted(s) && EndsMeet(s, min, max)
    ensures CountBelow(s, min) < |s| && CountAtMost(s, max) > 0
    ensures s[CountBelow(s, min)].score <= max <==> exists k :: 0 <= k < |s| && min <= s[k].score <= max
    ensures s[CountAtMost(s, max) - 1].score >= min <==> exists k :: 0 <= k < |s| && min <= s[k].score <= max
  {
    CountBelowSplits(s, min);
    CountAtMostSplits(s, max);
    var f, l := CountBelow(s, min), CountAtMost(s, max) - 1;
    RangeEnds(s, min, max);
    if k :| 0 <= k < |s| && min <= s[k].score <= max {
      ScoresAscend(s, f, k);
      ScoresAscend(s, k, l);
    }
  }

  /** A range that falls into a gap of the list: both searches answer an entry
      outside it. */
  lemma RangeInGap()
    ensures var s := [Entry(1.0, [97]), Entry(5.0, [98])];
      && Sorted(s) && EndsMeet(s, 2.0, 3.0)
      && s[CountBelow(s, 2.0)].score == 5.0 && s[CountAtMost(s, 3.0) - 1].score == 1.0
  {
    var s := [Entry(1.0, [97]), Entry(5.0, [98])];
    CountBelowSplits(s, 2.0);
    CountAtMostSplits(s, 3.0);
  }

  /** The members with scores from `lo` to `hi`, in list order. */
  function Between(s: seq<Entry>, lo: real, hi: real): seq<Bytes> {
    if s == [] then []
    else if lo <= s[0].score <= hi then [s[0].obj] + Between(s[1..], lo, hi)
    else Between(s[1..], lo, hi)
  }

  function ReverseObjs(s: seq<Bytes>): seq<Bytes> {
    if s == [] then [] else ReverseObjs(s[1..]) + [s[0]]
  }

  /** The members of a stretch of the list. */
  function Objs(s: seq<Entry>, from: nat, to: nat): seq<Bytes>
    requires from <= to <= |s|
  {
    seq(to - from, k requires 0 <= k < to - from <= |s| - from => s[from + k].obj)
  }

  /** Everything that is between two scores is one stretch of the list. */
  lemma {:induction false} BetweenIsStretch(s: seq<Entry>, lo: real, hi: real)
    requires Sorted(s)
    ensures var f, l := CountBelow(s, lo), CountAtMost(s, hi);
      Between(s, lo, hi) == if f <= l then Objs(s, f, l) else []
  {
    if s != [] {
      BetweenIsStretch(s[1..], lo, hi);
      NoneBelow(s, lo);
      NoneAtMost(s, hi);
      StretchStep(s, lo, hi);
    }
  }

  lemma StretchStep(s: seq<Entry>, lo: real, hi: real)
    requires s != []
    requires CountBelow(s[1..], lo) == if CountBelow(s, lo) == 0 then 0 else CountBelow(s, lo) - 1
    requires CountAtMost(s[1..], hi) == if CountAtMost(s, hi) == 0 then 0 else CountAtMost(s, hi) - 1
    requires var f, l := CountBelow(s[1..], lo), CountAtMost(s[1..], hi);
      Between(s[1..], lo, hi) == if f <= l then Objs(s[1..], f, l) else []
    ensures var f, l := CountBelow(s, lo), CountAtMost(s, hi);
      Between(s, lo, hi) == if f <= l then Objs(s, f, l) else []
  {
    var f, l := CountBelow(s, lo), CountAtMost(s, hi);
    assert f == 0 <==> s[0].score >= lo;
    assert l == 0 <==> s[0].score > hi;
    hide CountBelow, CountAtMost, Objs;
    ObjsTail(s, f, l);
  }

  lemma ObjsTail(s: seq<Entry>, f: nat, l: nat)
    requires s != [] && f <= |s| && l <= |s|
    ensures 0 < f <= l ==> Objs(s, f, l) == Objs(s[1..], f - 1, l - 1)
    ensures 0 == f < l ==> Objs(s, f, l) == [s[0].obj] + Objs(s[1..], 0, l - 1)
    ensures Objs(s, 0, 0) == [] && Objs(s[1..], 0, 0) == []
  {
  }

  lemma NoneBelow(s: seq<Entry>, x: real)
    requires Sorted(s) && s != []
    ensures CountBelow(s[1..], x) == if CountBelow(s, x) == 0 then 0 else CountBelow(s, x) - 1
  {
    if |s| > 1 { ScoresAscend(s, 0, 1); }
  }

  lemma NoneAtMost(s: seq<Entry>, x: real)
    requires Sorted(s) && s != []
    ensures CountAtMost(s[1..], x) == if CountAtMost(s, x) == 0 then 0 else CountAtMost(s, x) - 1
  {
    if |s| > 1 { ScoresAscend(s, 0, 1); }
  }

  lemma EndsApart(s: seq<Entry>, lo: real, hi: real)
    requires Sorted(s) && !EndsMeet(s, lo, hi)
    ensures CountAtMost(s, hi) <= CountBelow(s, lo)
  {
    var f, l := CountBelow(s, lo), CountAtMost(s, hi);
    if s != [] {
      ScoreTests(s, 0, lo, hi);
      ScoreTests(s, |s| - 1, lo, hi);
    }
    if f < |s| { ScoreTests(s, f, lo, hi); }
  }

  lemma ScoreTests(s: seq<Entry>, k: nat, lo: real, hi: real)
    requires Sorted(s) && k < |s|
    ensures s[k].score < lo <==> k < CountBelow(s, lo)
    ensures s[k].score <= hi <==> k < CountAtMost(s, hi)
  {
    CountBelowSplits(s, lo);
    CountAtMostSplits(s, hi);
  }

  /** The members from one rank to another, upwards or downwards; none when the first rank
      is outside the list. */
  function RanksFrom(s: seq<Entry>, r1: nat, r2: nat): seq<Bytes> {
    if r1 == 0 || r1 > |s| then []
    else if r1 <= r2 then Objs(s, r1 - 1, Min(r2, |s|))
    else ReverseObjs(Objs(s, if r2 == 0 then 0 else r2 - 1, r1))
  }

  /** Member by member: the one at place `k` has the rank `r1 + k`, or `r1 - k` on the way
      down; the last has the rank `r2`, if there is one. */
  lemma RanksFromAt(s: seq<Entry>, r1: nat, r2: nat, k: nat)
    requires 1 <= r1 <= |s|
    ensures r1 <= r2 ==> |RanksFrom(s, r1, r2)| == Min(r2, |s|) - r1 + 1
    ensures r1 > r2 ==> |RanksFrom(s, r1, r2)| == if r2 == 0 then r1 else r1 - r2 + 1
    ensures k < |RanksFrom(s, r1, r2)| ==> RanksFrom(s, r1, r2)[k] == s[if r1 <= r2 then r1 + k - 1 else r1 - k - 1].obj
  {
    hide Objs, ReverseObjs;
    if r1 <= r2 {
      ObjsAt(s, r1 - 1, Min(r2, |s|), k);
    } else {
      var from := if r2 == 0 then 0 else r2 - 1;
      ReverseAt(Objs(s, from, r1), k);
      ObjsAt(s, from, r1, k);
      if k < r1 - from {
        ObjsAt(s, from, r1, r1 - from - 1 - k);
      }
    }
  }

  lemma ObjsAt(s: seq<Entry>, from: nat, to: nat, k: nat)
    requires from <= to <= |s|
    ensures |Objs(s, from, to)| == to - from
    ensures k < to - from ==> Objs(s, from, to)[k] == s[from + k].obj
  {
  }

  lemma {:induction false} ReverseAt(s: seq<Bytes>, k: nat)
    ensures |ReverseObjs(s)| == |s|
    ensures k < |s| ==> ReverseObjs(s)[k] == s[|s| - 1 - k]
  {
    if s != [] {
      ReverseAt(s[1..], k);
    }
  }

  /** How many ranks there are from one to another. */
  function RangeLength(r1: nat, r2: nat): (n: nat)
    ensures n > 0
  {
    if r1 <= r2 then r2 - r1 + 1 else r1 - r2 + 1
  }

  lemma NoObjs()
    ensures ReverseObjs([]) == []
  {
  }

  lemma ObjsGrow(s: seq<Entry>, from: nat, to: nat)
    requires from <= to <= |s|
    ensures to < |s| ==> Objs(s, from, to + 1) == Objs(s, from, to) + [s[to].obj]
    ensures from > 0 ==> ReverseObjs(Objs(s, from - 1, to)) == ReverseObjs(Objs(s, from, to)) + [s[from - 1].obj]
    ensures from == to ==> Objs(s, from, to) == []
  {
    if from > 0 { assert Objs(s, from - 1, to)[1..] == Objs(s, from, to); }
  }
}
