/** The set commands of redislib-src/facade/set.c that change a set: SADD, SREM,
    SMOVE and SPOP on handles whose payload exists only while the set is not empty. */
module SetCommands {
  import opened SetAlgebra

  const SPOP_MOVE_STRATEGY_MUL: nat := 5

  function SetOf(s: seq<Elem>): set<Elem> {
    set x | x in s
  }

  lemma SetOfNext(s: seq<Elem>, j: nat)
    requires j < |s|
    ensures SetOf(s[..j + 1]) == SetOf(s[..j]) + {s[j]}
    ensures SetOf(s[..0]) == {} && s[..|s|] == s
  {
    assert s[..j + 1] == s[..j] + [s[j]];
  }

  lemma Regroup(a: set<Elem>, b: set<Elem>, c: set<Elem>)
    ensures a + (b + c) == a + b + c
    ensures a + {} == a
  {
  }

  lemma PrefixOf(s: seq<Elem>, j: nat)
    requires j <= |s|
    ensures SetOf(s[..j]) <= SetOf(s)
  {
  }

  /** rl_object: no payload stands for the empty set, as a missing key does. */
  class Handle {
    var sobj: Payload?

    constructor ()
      ensures sobj == null
    {
      sobj := null;
    }

    ghost predicate Valid()
      reads this, sobj
    {
      sobj != null ==> sobj.elems != {}
    }

    ghost function Contents(): set<Elem>
      reads this, sobj
    {
      Members(sobj)
    }

    /** SADD. */
    method Add(members: seq<Elem>) returns (added: nat)
      requires Valid() && |members| > 0
      modifies this, sobj
      ensures Valid() && (sobj == old(sobj) || fresh(sobj))
      ensures Contents() == old(Contents()) + SetOf(members)
      ensures added == |Contents()| - |old(Contents())|
    {
      hide SetOf, Members;
      added := 0;
      ghost var was := Contents();
      SetOfNext(members, 0);
      var j := 0;
      while j < |members|
        invariant 0 <= j <= |members| && (sobj == old(sobj) || fresh(sobj))
        invariant Valid()
        invariant Contents() == was + SetOf(members[..j])
        invariant added == |Contents()| - |was|
      {
        SetOfNext(members, j);
        Regroup(was, SetOf(members[..j]), {members[j]});
        var isNew := AddOne(members[j]);
        if isNew {
          added := added + 1;
        }
        j := j + 1;
      }
    }

    /** setTypeAdd, after setTypeCreate when there is no set yet. */
    method AddOne(ele: Elem) returns (isNew: bool)
      modifies this, sobj
      ensures Valid() && sobj != null && (sobj == old(sobj) || fresh(sobj))
      ensures Contents() == old(Contents()) + {ele}
      ensures |Contents()| == |old(Contents())| + if isNew then 1 else 0
    {
      if sobj == null {
        sobj := new Payload({});
      }
      GrowsByOne(sobj.elems, ele);
      isNew := ele !in sobj.elems;
      sobj.elems := sobj.elems + {ele};
    }

    /** SREM, which stops as soon as the set is empty. */
    method Remove(members: seq<Elem>) returns (deleted: nat)
      requires Valid() && |members| > 0
      modifies this, sobj
      ensures Valid() && (sobj == old(sobj) || sobj == null)
      ensures Contents() == old(Contents()) - SetOf(members)
      ensures deleted == |old(Contents())| - |Contents()|
    {
      deleted := 0;
      if sobj == null {
        return;
      }
      hide SetOf;
      ghost var was := sobj.elems;
      SetOfNext(members, 0);
      var emptied, j := false, 0;
      while j < |members| && !emptied
        invariant 0 <= j <= |members| && sobj == old(sobj)
        invariant sobj.elems == was - SetOf(members[..j])
        invariant deleted == |was| - |sobj.elems| && emptied == (sobj.elems == {})
      {
        var ele := members[j];
        SetOfNext(members, j);
        ShrinksByOne(sobj.elems, ele);
        if ele in sobj.elems {
          deleted := deleted + 1;
        }
        sobj.elems := sobj.elems - {ele};
        emptied := sobj.elems == {};
        j := j + 1;
      }
      if j < |members| {
        PrefixOf(members, j);
      }
      assert sobj.elems == was - SetOf(members);
      if emptied {
        sobj := null;
      }
    }

    /** SPOP without a count: a random member, or nothing. */
    method PopOne() returns (found: bool, x: Elem)
      requires Valid()
      modifies this, sobj
      ensures Valid() && (sobj == old(sobj) || sobj == null)
      ensures found == (old(Contents()) != {})
      ensures found ==> x in old(Contents()) && Contents() == old(Contents()) - {x}
      ensures !found ==> Contents() == {}
    {
      x := "";
      if sobj == null {
        return false, x;
      }
      x :| x in sobj.elems;
      sobj.elems := sobj.elems - {x};
      if sobj.elems == {} {
        sobj := null;
      }
      found := true;
    }

    /** SPOP with a count: whichever strategy is picked, reply and remainder part the
        set between them. */
    method Pop(count: nat) returns (reply: seq<Elem>)
      requires Valid()
      modifies this, sobj
      ensures Valid() && (sobj == old(sobj) || sobj == null || fresh(sobj))
      ensures |reply| == (if count < |old(Contents())| then count else |old(Contents())|)
      ensures forall x :: x in old(Contents()) <==> x in reply || x in Contents()
      ensures forall x :: x in reply ==> x !in Contents()
      ensures |Contents()| == |old(Contents())| - |reply|
    {
      reply := [];
      if sobj == null || count == 0 {
        return;
      }
      var size := |sobj.elems|;
      if count >= size {
        reply := ToList(sobj.elems);
        sobj := null;
        return;
      }
      if (size - count) * SPOP_MOVE_STRATEGY_MUL > count {
        reply := TakeOut(count);
      } else {
        reply := KeepBack(count);
      }
    }

    /** Takes the members to pop out one at a time. */
    method TakeOut(count: nat) returns (reply: seq<Elem>)
      requires sobj != null && count < |sobj.elems|
      modifies sobj
      ensures |reply| == count && |sobj.elems| == |old(sobj.elems)| - count
      ensures forall x :: x in old(sobj.elems) <==> x in reply || x in sobj.elems
      ensures forall x :: x in reply ==> x !in sobj.elems
    {
      reply := [];
      for i := 0 to count
        invariant |reply| == i && |sobj.elems| == |old(sobj.elems)| - i
        invariant forall x :: x in old(sobj.elems) <==> x in reply || x in sobj.elems
        invariant forall x :: x in reply ==> x !in sobj.elems
      {
        assert sobj.elems != {};
        var x :| x in sobj.elems;
        ShrinksByOne(sobj.elems, x);
        reply := reply + [x];
        sobj.elems := sobj.elems - {x};
      }
    }

    /** Draws the members that stay into a new payload, and gives out the rest. */
    method KeepBack(count: nat) returns (reply: seq<Elem>)
      requires sobj != null && count < |sobj.elems|
      modifies this, sobj
      ensures sobj != null && fresh(sobj) && |reply| == count && |sobj.elems| == |old(sobj.elems)| - count
      ensures forall x :: x in old(sobj.elems) <==> x in reply || x in sobj.elems
      ensures forall x :: x in reply ==> x !in sobj.elems
    {
      var newset := new Payload({});
      var left := |sobj.elems| - count;
      while left > 0
        invariant 0 <= left && fresh(newset) && sobj == old(sobj) && |sobj.elems| == count + left
        invariant |newset.elems| == |old(sobj.elems)| - |sobj.elems|
        invariant forall x :: x in old(sobj.elems) <==> x in newset.elems || x in sobj.elems
        invariant forall x :: x in newset.elems ==> x !in sobj.elems
      {
        assert sobj.elems != {};
        var x :| x in sobj.elems;
        GrowsByOne(newset.elems, x);
        ShrinksByOne(sobj.elems, x);
        newset.elems := newset.elems + {x};
        sobj.elems := sobj.elems - {x};
        left := left - 1;
      }
      reply := ToList(sobj.elems);
      sobj := newset;
    }
  }

  /** SMOVE. A move between two sets takes the member from one and gives it to the
      other, so that their union stays; anything else changes nothing. */
  method Move(src: Handle, dst: Handle, ele: Elem) returns (moved: bool)
    requires src.Valid()
    requires dst.Valid()
    requires (src != dst && src.sobj != null ==> src.sobj != dst.sobj)
    modifies src, dst, src.sobj, dst.sobj
    ensures src.Valid() && dst.Valid()
    ensures src.sobj == old(src.sobj) || src.sobj == null
    ensures dst.sobj == old(dst.sobj) || (old(dst.sobj) == null && fresh(dst.sobj))
    ensures moved == (ele in old(src.Contents()))
    ensures src != dst && moved ==>
      && src.Contents() == old(src.Contents()) - {ele}
      && dst.Contents() == old(dst.Contents()) + {ele}
    ensures src == dst || !moved ==> src.Contents() == old(src.Contents()) && dst.Contents() == old(dst.Contents())
    ensures src.Contents() + dst.Contents() == old(src.Contents() + dst.Contents())
  {
    if src.sobj == null {
      return false;
    }
    if src.sobj == dst.sobj {
      return ele in src.sobj.elems;
    }
    if ele !in src.sobj.elems {
      return false;
    }
    src.sobj.elems := src.sobj.elems - {ele};
    if src.sobj.elems == {} {
      src.sobj := null;
    }
    if dst.sobj == null {
      dst.sobj := new Payload({});
    }
    dst.sobj.elems := dst.sobj.elems + {ele};
    return true;
  }
}
