/** The set operations of redislib-src/facade/set.c over abstract set payloads:
    SINTER, SUNION and SDIFF with their CARD forms. Whatever order a payload is
    iterated in, and whichever algorithm the cost estimate picks, the answer is the
    mathematical one. */
module SetAlgebra {

  type Elem = string

  /** A set payload; operands are compared by identity, as pointers are. */
  class Payload {
    var elems: set<Elem>

    constructor (elems: set<Elem>)
      ensures this.elems == elems
    {
      this.elems := elems;
    }
  }

  /** The members of an operand; a missing key is an empty set. */
  ghost function Members(o: Payload?): set<Elem>
    reads o
  {
    if o == null then {} else o.elems
  }

  ghost function Inter(sets: seq<Payload?>): set<Elem>
    requires |sets| > 0
    reads sets
  {
    set x | x in Members(sets[0]) && forall o :: o in sets ==> x in Members(o)
  }

  ghost function Union(sets: seq<Payload?>): set<Elem>
    reads sets
  {
    set o, x | o in sets && x in Members(o) :: x
  }

  ghost function Diff(sets: seq<Payload?>): set<Elem>
    requires |sets| > 0
    reads sets
  {
    set x | x in Members(sets[0]) && forall o :: o in sets[1..] ==> x !in Members(o)
  }

  /** `res` lists the members of `s`, each once. */
  ghost predicate Lists(res: seq<Elem>, s: set<Elem>) {
    && (forall x :: x in res <==> x in s)
    && |res| == |s|
  }

  lemma {:induction false} SubsetSize(a: set<Elem>, b: set<Elem>)
    requires a <= b
    ensures |a| <= |b|
    ensures |a| == |b| ==> a == b
  {
    if a != {} {
      var x :| x in a;
      SubsetSize(a - {x}, b - {x});
      if |a| == |b| {
        assert a == (a - {x}) + {x};
        assert b == (b - {x}) + {x};
      }
    } else if |b| == 0 {
      assert b == {};
    }
  }

  // ---- Sorting operands by size -------------------------------------------------------------

  function Size(o: Payload?): nat
    reads o
  {
    if o == null then 0 else |o.elems|
  }

  /** The order of the two comparators. */
  predicate InOrder(m: nat, n: nat, reverse: bool) {
    if reverse then m >= n else m <= n
  }

  ghost predicate Sorted(r: seq<Payload?>, reverse: bool)
    reads r
  {
    forall i, j :: 0 <= i < j < |r| ==> InOrder(Size(r[i]), Size(r[j]), reverse)
  }

  method InsertBySize(r: seq<Payload?>, o: Payload?, reverse: bool) returns (r': seq<Payload?>)
    requires Sorted(r, reverse)
    ensures Sorted(r', reverse) && multiset(r') == multiset(r) + multiset{o}
  {
    hide Size, Sorted, InOrder;
    var k := |r|;
    while k > 0 && !InOrder(Size(r[k - 1]), Size(o), reverse)
      invariant 0 <= k <= |r|
      invariant forall i :: k <= i < |r| ==> InOrder(Size(o), Size(r[i]), reverse)
    {
      OtherOrder(Size(r[k - 1]), Size(o), reverse);
      k := k - 1;
    }
    r' := r[..k] + [o] + r[k..];
    Inserted(r, k, o, reverse);
    assert r == r[..k] + r[k..];
  }

  lemma OtherOrder(a: nat, b: nat, reverse: bool)
    ensures InOrder(a, b, reverse) || InOrder(b, a, reverse)
  {
  }

  lemma Inserted(r: seq<Payload?>, k: nat, o: Payload?, reverse: bool)
    requires Sorted(r, reverse) && k <= |r|
    requires k > 0 ==> InOrder(Size(r[k - 1]), Size(o), reverse)
    requires forall i :: k <= i < |r| ==> InOrder(Size(o), Size(r[i]), reverse)
    ensures Sorted(r[..k] + [o] + r[k..], reverse)
  {
    hide Size;
    var r' := r[..k] + [o] + r[k..];
    forall i, j | 0 <= i < j < |r'| ensures InOrder(Size(r'[i]), Size(r'[j]), reverse) {
      if i < k && j == k {
        assert i < k - 1 ==> InOrder(Size(r[i]), Size(r[k - 1]), reverse);
      } else if i < k && k < j {
        assert InOrder(Size(r[i]), Size(r[j - 1]), reverse);
      } else if k < i {
        assert InOrder(Size(r[i - 1]), Size(r[j - 1]), reverse);
      }
    }
  }

  /** qsort with the two comparators on the payloads' sizes. */
  method SortBySize(sets: seq<Payload?>, reverse: bool) returns (r: seq<Payload?>)
    ensures multiset(r) == multiset(sets) && Sorted(r, reverse)
  {
    r := [];
    for n := 0 to |sets|
      invariant multiset(r) == multiset(sets[..n]) && Sorted(r, reverse)
    {
      r := InsertBySize(r, sets[n], reverse);
      assert sets[..n + 1] == sets[..n] + [sets[n]];
    }
    assert sets[..|sets|] == sets;
  }

  lemma SameOperands(r: seq<Payload?>, sets: seq<Payload?>)
    requires multiset(r) == multiset(sets)
    ensures forall o: Payload? :: o in r <==> o in sets
    ensures |r| == |sets|
  {
    assert forall o: Payload? :: o in r <==> o in multiset(r);
    assert forall o: Payload? :: o in sets <==> o in multiset(sets);
    assert |multiset(r)| == |r| && |multiset(sets)| == |sets|;
  }

  // ---- SINTER and SINTERCARD ------------------------------------------------------------------

  /** Is `x` in every operand after the first, not asking the first again. */
  method InAllOthers(sets: seq<Payload?>, x: Elem) returns (r: bool)
    requires |sets| > 0 && null !in sets && x in Members(sets[0])
    ensures r == forall o :: o in sets ==> x in Members(o)
  {
    var j := 1;
    while j < |sets|
      invariant 1 <= j <= |sets| && forall i :: 0 <= i < j ==> x in Members(sets[i])
    {
      if sets[j] != sets[0] {
        if x !in sets[j].elems {
          assert sets[j] in sets && x !in Members(sets[j]);
          return false;
        }
      }
      j := j + 1;
    }
    return true;
  }

  /** sinterGenericCommand. */
  method InterGeneric(sets0: seq<Payload?>, cardinalityOnly: bool, limit: nat) returns (res: seq<Elem>, cardinality: nat)
    requires |sets0| > 0
    ensures cardinalityOnly && limit == 0 ==> cardinality == |Inter(sets0)|
    ensures cardinalityOnly && limit > 0 ==> cardinality <= limit && cardinality <= |Inter(sets0)| && (cardinality == limit || cardinality == |Inter(sets0)|)
    ensures !cardinalityOnly ==> Lists(res, Inter(sets0))
  {
    res, cardinality := [], 0;
    if null in sets0 {
      NullMember(sets0);
      return;
    }
    var sets := SortBySize(sets0, false);
    SameOperands(sets, sets0);
    SameInter(sets, sets0);
    res, cardinality := InterSorted(sets, cardinalityOnly, limit);
  }

  lemma NullMember(sets: seq<Payload?>)
    requires |sets| > 0 && null in sets
    ensures Inter(sets) == {}
  {
    assert Members(null) == {};
  }

  lemma SameInter(a: seq<Payload?>, b: seq<Payload?>)
    requires |a| > 0 && |b| > 0 && forall o: Payload? :: o in a <==> o in b
    ensures Inter(a) == Inter(b)
  {
    assert a[0] in b && b[0] in a;
  }

  /** Its loop over the smallest operand. */
  method InterSorted(sets: seq<Payload?>, cardinalityOnly: bool, limit: nat) returns (res: seq<Elem>, cardinality: nat)
    requires |sets| > 0 && null !in sets
    ensures cardinalityOnly && limit == 0 ==> cardinality == |Inter(sets)|
    ensures cardinalityOnly && limit > 0 ==> cardinality <= limit && cardinality <= |Inter(sets)| && (cardinality == limit || cardinality == |Inter(sets)|)
    ensures !cardinalityOnly ==> Lists(res, Inter(sets))
  {
    res, cardinality := [], 0;
    ghost var all := Inter(sets);
    assert sets[0] in sets;
    var todo := sets[0].elems;
    ghost var found := {};
    while todo != {}
      invariant todo <= sets[0].elems
      invariant found == set x | x in all && x !in todo
      invariant cardinality == |found| && (limit > 0 && cardinalityOnly ==> cardinality < limit)
      invariant !cardinalityOnly ==> Lists(res, found)
      decreases |todo|
    {
      var x :| x in todo;
      todo := todo - {x};
      var common := InAllOthers(sets, x);
      assert common == (x in all);
      if common {
        found := found + {x};
        cardinality := cardinality + 1;
        if !cardinalityOnly {
          res := res + [x];
        } else if limit > 0 && cardinality >= limit {
          SubsetSize(found, all);
          return;
        }
      }
    }
    assert found == all;
  }

  // ---- SUNION, SDIFF and their CARD forms -----------------------------------------------------

  lemma UnionNone(sets: seq<Payload?>)
    ensures Union(sets[..0]) == {}
  {
  }

  /** What the last element of `sets[..j + 1]` adds to the union of those before. */
  lemma UnionNext(sets: seq<Payload?>, j: nat)
    requires j < |sets|
    ensures Union(sets[..j + 1]) == Union(sets[..j]) + Members(sets[j])
  {
    var a, b := sets[..j + 1], sets[..j];
    forall x | x in Union(b) + Members(sets[j]) ensures x in Union(a) {
      if x in Members(sets[j]) {
        assert a[j] in a;
      } else {
        var o :| o in b && x in Members(o);
        assert o in a;
      }
    }
    forall x | x in Union(a) ensures x in Union(b) + Members(sets[j]) {
      var o :| o in a && x in Members(o);
      var i :| 0 <= i < |a| && a[i] == o;
      assert i < j ==> b[i] in b;
    }
  }

  /** Adds the elements of one operand; tells whether the limit was reached. */
  method AddAll(dst0: set<Elem>, elems: set<Elem>, limit: nat) returns (dst: set<Elem>, reached: bool)
    requires limit > 0 ==> |dst0| < limit
    ensures reached ==> limit > 0 && |dst| == limit && dst <= dst0 + elems
    ensures !reached ==> dst == dst0 + elems && (limit > 0 ==> |dst| < limit)
  {
    dst := dst0;
    var todo, cardinality := elems, |dst|;
    while todo != {}
      invariant todo <= elems && cardinality == |dst| && (limit > 0 ==> |dst| < limit)
      invariant dst == dst0 + (elems - todo)
      decreases |todo|
    {
      var x :| x in todo;
      AddOne(dst0, elems, todo, x);
      todo := todo - {x};
      if x !in dst {
        cardinality := cardinality + 1;
      }
      GrowsByOne(dst, x);
      dst := dst + {x};
      if limit > 0 && cardinality >= limit {
        return dst, true;
      }
    }
    return dst, false;
  }

  lemma AddOne(dst: set<Elem>, elems: set<Elem>, todo: set<Elem>, x: Elem)
    requires x in todo && todo <= elems
    ensures dst + (elems - (todo - {x})) == dst + (elems - todo) + {x}
  {
  }

  lemma GrowsByOne(s: set<Elem>, x: Elem)
    ensures |s + {x}| == if x in s then |s| else |s| + 1
  {
    if x in s {
      assert s + {x} == s;
    }
  }

  /** Union: every element of every operand is added, up to the limit. */
  method UnionInto(sets: seq<Payload?>, limit: nat) returns (dst: set<Elem>)
    ensures dst <= Union(sets)
    ensures if limit > 0 && |dst| >= limit then |dst| == limit else dst == Union(sets)
  {
    dst := {};
    UnionNone(sets);
    hide Union;
    var j := 0;
    while j < |sets|
      invariant 0 <= j <= |sets| && dst == Union(sets[..j])
      invariant limit > 0 ==> |dst| < limit
    {
      UnionNext(sets, j);
      UnionPrefix(sets, j + 1);
      if sets[j] != null {
        var reached;
        dst, reached := AddAll(dst, sets[j].elems, limit);
        if reached {
          return;
        }
      }
      j := j + 1;
    }
    assert sets[..j] == sets;
  }

  lemma UnionPrefix(sets: seq<Payload?>, j: nat)
    requires j <= |sets|
    ensures Union(sets[..j]) <= Union(sets)
  {
    forall x | x in Union(sets[..j]) ensures x in Union(sets) {
      var o :| o in sets[..j] && x in Members(o);
      assert o in sets;
    }
  }

  lemma DiffOf(sets: seq<Payload?>, rest: seq<Payload?>, x: Elem)
    requires |sets| > 0 && (forall o: Payload? :: o in rest <==> o in sets[1..])
    ensures x in Diff(sets) <==> x in Members(sets[0]) && x !in Union(rest)
  {
    assert x in Union(rest) <==> exists o :: o in rest && x in Members(o);
  }

  /** Whether none of the operands has `x`, a member of the first one. */
  method InNone(first: Payload, rest: seq<Payload?>, x: Elem) returns (r: bool)
    requires x in first.elems
    ensures r == (x !in Union(rest))
  {
    var j := 0;
    while j < |rest|
      invariant 0 <= j <= |rest| && forall i :: 0 <= i < j ==> x !in Members(rest[i])
    {
      if rest[j] != null {
        if rest[j] == first || x in rest[j].elems {
          assert rest[j] in rest && x in Members(rest[j]);
          return false;
        }
      }
      j := j + 1;
    }
    return true;
  }

  function Minus(a: set<Elem>, b: set<Elem>): set<Elem> {
    a - b
  }

  /** The elements of `all` among those iterated so far, `todo` being still to come. */
  ghost predicate Seen(found: set<Elem>, all: set<Elem>, todo: set<Elem>) {
    found == Minus(all, todo)
  }

  lemma SeenNone(first: set<Elem>, sub: set<Elem>)
    ensures Seen({}, Minus(first, sub), first)
  {
  }

  lemma SeenNext(found: set<Elem>, all: set<Elem>, todo: set<Elem>, x: Elem)
    requires Seen(found, all, todo) && x in todo
    ensures if x in all then Seen(found + {x}, all, todo - {x}) && |found + {x}| == |found| + 1
            else Seen(found, all, todo - {x})
  {
    GrowsByOne(found, x);
  }

  lemma SeenSize(found: set<Elem>, all: set<Elem>, todo: set<Elem>)
    requires Seen(found, all, todo)
    ensures |found| <= |all| && (todo == {} ==> found == all)
  {
    SubsetSize(found, all);
  }

  lemma InMinus(first: set<Elem>, sub: set<Elem>, x: Elem)
    ensures x in Minus(first, sub) <==> x in first && x !in sub
  {
  }

  /** Algorithm 1: the elements of the first operand that no other has. */
  method DiffByLookup(first: Payload, rest: seq<Payload?>, cardinalityOnly: bool, limit: nat)
    returns (dst: set<Elem>, cardinality: nat)
    ensures cardinalityOnly && limit == 0 ==> cardinality == |Minus(first.elems, Union(rest))|
    ensures cardinalityOnly && limit > 0 ==> cardinality <= limit && cardinality <= |Minus(first.elems, Union(rest))| && (cardinality == limit || cardinality == |Minus(first.elems, Union(rest))|)
    ensures !cardinalityOnly ==> dst == Minus(first.elems, Union(rest))
  {
    hide Union, Minus, Seen;
    dst, cardinality := {}, 0;
    var todo := first.elems;
    ghost var all, found: set<Elem> := Minus(first.elems, Union(rest)), {};
    SeenNone(first.elems, Union(rest));
    while todo != {}
      invariant todo <= first.elems && Seen(found, all, todo)
      invariant cardinality == |found| && (limit > 0 && cardinalityOnly ==> cardinality < limit)
      invariant !cardinalityOnly ==> dst == found
      decreases |todo|
    {
      var x :| x in todo;
      SeenNext(found, all, todo, x);
      InMinus(first.elems, Union(rest), x);
      todo := todo - {x};
      var keep := InNone(first, rest, x);
      if keep {
        found := found + {x};
        cardinality := cardinality + 1;
        if !cardinalityOnly {
          dst := dst + {x};
        } else if limit > 0 && cardinality >= limit {
          SeenSize(found, all, todo);
          return;
        }
      }
    }
    SeenSize(found, all, todo);
  }

  /** Algorithm 2b: what is to be subtracted is collected first, so that the search
      can stop at the limit. */
  method DiffByCollecting(first: Payload, rest: seq<Payload?>, limit: nat) returns (cardinality: nat)
    requires limit > 0
    ensures cardinality <= limit && cardinality <= |Minus(first.elems, Union(rest))|
    ensures cardinality == limit || cardinality == |Minus(first.elems, Union(rest))|
  {
    hide Union, Minus, Seen;
    var collected := UnionInto(rest, 0);
    cardinality := 0;
    var todo := first.elems;
    ghost var all, found: set<Elem> := Minus(first.elems, Union(rest)), {};
    SeenNone(first.elems, Union(rest));
    while todo != {}
      invariant todo <= first.elems && Seen(found, all, todo) && cardinality == |found| < limit
      decreases |todo|
    {
      var x :| x in todo;
      SeenNext(found, all, todo, x);
      InMinus(first.elems, Union(rest), x);
      todo := todo - {x};
      if x !in collected {
        found := found + {x};
        cardinality := cardinality + 1;
        if cardinality >= limit {
          SeenSize(found, all, todo);
          return;
        }
      }
    }
    SeenSize(found, all, todo);
  }

  /** Algorithm 2: the first operand, minus the elements of each other in turn. */
  method DiffByRemoval(first: Payload, rest: seq<Payload?>) returns (dst: set<Elem>, cardinality: nat)
    ensures dst == Minus(first.elems, Union(rest)) && cardinality == |dst|
  {
    hide Union, Minus, Left, Members;
    dst, cardinality := first.elems, |first.elems|;
    LeftNone(first.elems, rest);
    var j := 0;
    while j < |rest| && cardinality > 0
      invariant 0 <= j <= |rest| && dst == Left(first.elems, rest, j) && cardinality == |dst|
    {
      LeftNext(first.elems, rest, j);
      if rest[j] != null {
        dst, cardinality := RemoveAll(dst, rest[j].elems);
      }
      j := j + 1;
    }
    LeftEnd(first.elems, rest, j);
  }

  /** What is left of `f` once the first `j` operands have been taken away. */
  ghost function Left(f: set<Elem>, rest: seq<Payload?>, j: nat): set<Elem>
    requires j <= |rest|
    reads rest
  {
    Minus(f, Union(rest[..j]))
  }

  lemma LeftNone(f: set<Elem>, rest: seq<Payload?>)
    ensures Left(f, rest, 0) == f
  {
    UnionNone(rest);
    hide Union;
  }

  lemma LeftNext(f: set<Elem>, rest: seq<Payload?>, j: nat)
    requires j < |rest|
    ensures rest[j] == null ==> Left(f, rest, j + 1) == Left(f, rest, j)
    ensures rest[j] != null ==> Left(f, rest, j + 1) == Minus(Left(f, rest, j), rest[j].elems)
  {
    hide Union;
    UnionNext(rest, j);
    MinusUnion(f, Union(rest[..j]), Members(rest[j]));
  }

  lemma LeftEnd(f: set<Elem>, rest: seq<Payload?>, j: nat)
    requires j <= |rest| && (j == |rest| || |Left(f, rest, j)| == 0)
    ensures Left(f, rest, j) == Minus(f, Union(rest))
  {
    hide Union;
    UnionPrefix(rest, j);
    if j == |rest| {
      assert rest[..j] == rest;
    } else {
      NothingLeft(f, Union(rest[..j]), Union(rest));
    }
  }

  lemma MinusUnion(f: set<Elem>, u: set<Elem>, e: set<Elem>)
    ensures Minus(f, u + e) == Minus(Minus(f, u), e)
    ensures e == {} ==> Minus(f, u + e) == Minus(f, u)
  {
  }

  lemma NothingLeft(f: set<Elem>, u: set<Elem>, v: set<Elem>)
    requires u <= v
    ensures |Minus(f, u)| == 0 ==> Minus(f, v) == Minus(f, u)
  {
    if |Minus(f, u)| == 0 {
      assert Minus(f, u) == {};
    }
  }

  lemma RemoveOne(from: set<Elem>, elems: set<Elem>, todo: set<Elem>, x: Elem)
    requires x in todo && todo <= elems
    ensures from - (elems - (todo - {x})) == from - (elems - todo) - {x}
  {
  }

  lemma ShrinksByOne(s: set<Elem>, x: Elem)
    ensures |s - {x}| == if x in s then |s| - 1 else |s|
  {
    if x !in s {
      assert s - {x} == s;
    }
  }

  method RemoveAll(from: set<Elem>, elems: set<Elem>) returns (dst: set<Elem>, cardinality: nat)
    ensures dst == Minus(from, elems) && cardinality == |dst|
  {
    dst, cardinality := from, |from|;
    var todo := elems;
    while todo != {}
      invariant todo <= elems && dst == from - (elems - todo) && cardinality == |dst|
      decreases |todo|
    {
      var x :| x in todo;
      RemoveOne(from, elems, todo, x);
      ShrinksByOne(dst, x);
      todo := todo - {x};
      if x in dst {
        cardinality := cardinality - 1;
      }
      dst := dst - {x};
    }
  }

  method ToList(s: set<Elem>) returns (res: seq<Elem>)
    ensures Lists(res, s)
  {
    res := [];
    var todo := s;
    while todo != {}
      invariant todo <= s && Lists(res, s - todo)
      decreases |todo|
    {
      var x :| x in todo;
      assert s - (todo - {x}) == (s - todo) + {x};
      res := res + [x];
      todo := todo - {x};
    }
    assert s - todo == s;
  }

  /** The cost estimate that picks the algorithm of SDIFF. */
  method PickDiffAlgorithm(sets: seq<Payload?>) returns (algo: nat)
    requires |sets| > 0 && sets[0] != null
    ensures algo == 1 || algo == 2
  {
    var one, two := 0, 0;
    for j := 0 to |sets| {
      if sets[j] != null {
        one := one + |sets[0].elems|;
        two := two + |sets[j].elems|;
      }
    }
    algo := if one / 2 <= two then 1 else 2;
  }

  /** The difference half of sunionDiffGenericCommand. */
  method DiffGeneric(sets: seq<Payload?>, cardinalityOnly: bool, limit: nat) returns (dst: set<Elem>, cardinality: nat)
    requires |sets| > 0
    ensures cardinalityOnly && limit == 0 ==> cardinality == |Diff(sets)|
    ensures cardinalityOnly && limit > 0 ==> cardinality <= limit && cardinality <= |Diff(sets)| && (cardinality == limit || cardinality == |Diff(sets)|)
    ensures !cardinalityOnly ==> dst == Diff(sets)
  {
    dst, cardinality := {}, 0;
    var sameset := exists j :: 1 <= j < |sets| && sets[j] != null && sets[j] == sets[0];
    if sets[0] == null {
      assert Diff(sets) == {};
      return;
    }
    if sameset {
      assert sets[0] in sets[1..];
      assert Diff(sets) == {};
      return;
    }
    var first, rest := sets[0], sets[1..];
    assert first !in rest;
    var algo := PickDiffAlgorithm(sets);
    if algo == 1 {
      rest := SortBySize(rest, true);
      SameOperands(rest, sets[1..]);
      forall x ensures x in Diff(sets) <==> x in Minus(first.elems, Union(rest)) { DiffOf(sets, rest, x); }
      assert Diff(sets) == Minus(first.elems, Union(rest));
      dst, cardinality := DiffByLookup(first, rest, cardinalityOnly, limit);
    } else {
      forall x ensures x in Diff(sets) <==> x in Minus(first.elems, Union(rest)) { DiffOf(sets, rest, x); }
      assert Diff(sets) == Minus(first.elems, Union(rest));
      if cardinalityOnly && limit > 0 {
        cardinality := DiffByCollecting(first, rest, limit);
      } else {
        dst, cardinality := DiffByRemoval(first, rest);
      }
    }
  }

  /** sunionDiffGenericCommand: SUNION and SDIFF list the union and the difference,
      each member once; the CARD forms answer its size up to the limit. */
  method UnionDiffGeneric(sets: seq<Payload?>, union: bool, cardinalityOnly: bool, limit: nat)
    returns (res: seq<Elem>, cardinality: nat)
    requires |sets| > 0
    ensures cardinalityOnly && limit == 0 ==> cardinality == |if union then Union(sets) else Diff(sets)|
    ensures cardinalityOnly && limit > 0 ==> cardinality <= limit && cardinality <= |if union then Union(sets) else Diff(sets)| && (cardinality == limit || cardinality == |if union then Union(sets) else Diff(sets)|)
    ensures !cardinalityOnly ==> Lists(res, if union then Union(sets) else Diff(sets))
  {
    res := [];
    var dst;
    if union {
      dst := UnionInto(sets, if cardinalityOnly then limit else 0);
      cardinality := |dst|;
      SubsetSize(dst, Union(sets));
    } else {
      dst, cardinality := DiffGeneric(sets, cardinalityOnly, limit);
    }
    if !cardinalityOnly {
      res := ToList(dst);
    }
  }
}
