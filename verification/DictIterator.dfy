/** The safe iterator of dict.c. */
module DictIterator {
  import opened Words
  import opened DictTable
  import DT = DictTable
  import opened RehashingDict

  /** What a caller may do between two calls of dictNext: any operation on the map but
      removing an entry other than the one it was just given; resizing either way; and
      changing the resizing policy. */
  datatype Meantime =
    | Expanding(size: nat)
    | Shrinking(size: nat)
    | Finding(k: Key)
    | Policy(mode: ResizeMode, allowed: bool)
    | Adding(k: Key, v: Val)
    | Replacing(k: Key, v: Val)
    | Removing

  /** What such a step does to the map, `given` being the key of the entry just returned. */
  function Stepped(m: map<Key, Val>, given: Key, op: Meantime): map<Key, Val> {
    match op
    case Adding(k, v) => if k in m then m else m[k := v]
    case Replacing(k, v) => m[k := v]
    case Removing => m - {given}
    case _ => m
  }

  /** The step may bring a key into the map. */
  predicate Brings(op: Meantime, k: Key) {
    (op.Adding? || op.Replacing?) && op.k == k
  }

  /** Keys have hashes of the dict's width, a no-value dict stores no values, and a dict
      that entries are added to may be given a table. */
  predicate StepOk(op: Meantime, width: nat, noValue: bool, mayExpand: bool) {
    match op
    case Finding(k) => |k.hash| == width
    case Adding(k, v) => |k.hash| == width && (noValue ==> v == NO_VALUE) && mayExpand
    case Replacing(k, v) => |k.hash| == width && !noValue && mayExpand
    case _ => true
  }

  predicate StepsOk(steps: seq<Meantime>, width: nat, noValue: bool, mayExpand: bool) {
    forall i :: 0 <= i < |steps| ==> StepOk(steps[i], width, noValue, mayExpand)
  }

  class Iterator {
    const d: Dict
    var table: int
    var index: int
    var entry: Link
    var nextEntry: Link

    /** dictInitSafeIterator */
    constructor (d: Dict)
      requires d.Valid()
      ensures this.d == d && Fresh() && Valid()
      ensures forall k :: k in d.contents ==> IsPending(k)
    {
      this.d := d;
      table, index, entry, nextEntry := 0, -1, Null, Null;
      new;
      d.Layout();
    }

    /** dictNext has not been called yet. */
    predicate Fresh()
      reads this
    {
      table == 0 && index == -1 && entry == Null
    }

    /** Still to be visited: the rest of the current chain, the later buckets of
        the current table and, in table 0, all of table 1. */
    ghost predicate Pending(rest: Link, k: Key)
      reads this`table, this`index, d
    {
      || k in KeysOf(rest)
      || (k in d.Part(table) && d.Slot(table, k) > index)
      || (table == 0 && k in d.m1)
    }

    ghost predicate IsPending(k: Key)
      reads this, d
    {
      Pending(Rest(), k)
    }

    /** An entry has been returned, and the rest of its chain saved. */
    ghost predicate Given()
      reads this
    {
      entry != Null && entry.key !in KeysOf(nextEntry) && |entry.key.hash| == d.width
    }

    ghost function PendingKeys(): set<Key>
      reads this, d
    {
      set k | k in d.contents && IsPending(k)
    }

    /** A walk with `rest` left of the current chain: rehashing is paused, so that each
        entry stays where it is. */
    ghost predicate Walking(rest: Link)
      reads this`table, this`index, d
    {
      && d.pauserehash > 0
      && (table == 0 || table == 1) && index >= 0
      && Distinct(rest)
      && (forall k :: k in KeysOf(rest) ==> k in d.Part(table) && d.Slot(table, k) == index)
    }

    ghost function Rest(): Link
      reads this
    {
      if entry == Null then Null else nextEntry
    }

    ghost predicate Valid()
      reads this, d, d.table0, d.table1
    {
      d.Valid() && (Fresh() || (index >= 0 && Walking(Rest())))
    }

    /** The part of dictNext that leaves a finished chain for the next bucket. */
    method NextBucket() returns (more: bool, chain: Link)
      requires Valid() && entry == Null
      modifies this`table, this`index, d`pauserehash
      ensures d.Valid() && index >= 0 && Walking(chain)
      ensures d.pauserehash == old(d.pauserehash) + if old(Fresh()) then 1 else 0
      ensures forall k :: k in d.contents ==> (Pending(chain, k) <==> old(Pending(Null, k)))
      ensures !more ==> chain == Null && forall k :: k in d.contents ==> !Pending(Null, k)
      ensures more ==>
        (if table == old(table) then index > old(index) && index < d.BucketCount(table) else table == 1 && old(table) == 0)
    {
      hide Dict.Valid, SlotIn;
      d.Layout();
      if index == -1 && table == 0 {
        d.PauseRehashing();
        d.Layout();
        if d.IsRehashing() {
          index := d.rehashidx - 1;
        }
      }
      index := index + 1;
      if index >= d.BucketCount(table) {
        if d.IsRehashing() && table == 0 {
          table, index := 1, 0;
        } else {
          return false, Null;
        }
      }
      d.BucketMembers(table, index);
      more, chain := true, d.ChainAt(table, index);
    }

    /** Saving the next link before the caller may delete the entry. */
    method Yield()
      requires d.Valid() && entry != Null && Walking(entry)
      modifies this`nextEntry
      ensures Walking(nextEntry)
      ensures entry.key in d.contents && Pending(entry, entry.key) && !Pending(nextEntry, entry.key)
      ensures entry.key !in KeysOf(nextEntry)
      ensures forall k :: k in d.contents && k != entry.key ==> (Pending(nextEntry, k) <==> Pending(entry, k))
    {
      hide Dict.Valid, SlotIn;
      d.Layout();
      FirstOf(entry);
      nextEntry := DT.Next(entry);
    }

    /** dictNext: yields an entry that was pending and no longer is; the end is reported
        only when none is. */
    method Next() returns (r: Link)
      requires Valid()
      modifies this, d`pauserehash
      ensures Valid() && !Fresh()
      ensures d.pauserehash == old(d.pauserehash) + if old(Fresh()) then 1 else 0
      ensures r != Null ==> r == entry && Given() && r.key in d.contents && old(IsPending(r.key)) && !IsPending(r.key)
      ensures r == Null ==> forall k :: k in d.contents ==> !old(IsPending(k))
      ensures forall k :: k in d.contents && (r == Null || k != r.key) ==> (IsPending(k) <==> old(IsPending(k)))
    {
      hide Dict.Valid, SlotIn, Walking;
      while true
        invariant Valid() && (old(Fresh()) || !Fresh())
        invariant forall k :: k in d.contents ==> (IsPending(k) <==> old(IsPending(k)))
        invariant d.pauserehash == old(d.pauserehash) + if old(Fresh()) && !Fresh() then 1 else 0
        decreases 1 - table, d.BucketCount(table) - index, if entry == Null then 0 else 1
      {
        if entry == Null {
          var more, chain := NextBucket();
          if !more {
            return Null;
          }
          entry := chain;
        } else {
          entry := nextEntry;
        }
        if entry != Null {
          Yield();
          d.KeyWidth(entry.key);
          return entry;
        }
      }
    }

    /** Growth: table 1 will be visited after table 0. */
    method ExpandMeanwhile(size: nat)
      requires Valid() && entry != Null
      modifies d, d.table0, d.table1
      ensures Valid() && Calm(old(d.pauserehash), old(d.pauseAutoResize)) && d.contents == old(d.contents)
      ensures forall q :: q in d.contents && q in old(d.contents) ==> (IsPending(q) <==> old(IsPending(q)))
      ensures fresh({d.table0, d.table1} - old({d.table0, d.table1}))
    {
      hide Dict.Valid, SlotIn, Dict.Progressed, Dict.Steps, Dict.Filled0, Dict.BucketOf, Dict.NotSparse, Dict.WithinLoad;
      d.Layout();
      var _ := d.Expand(size);
      d.Layout();
    }

    /** Shrinking, likewise. */
    method ShrinkMeanwhile(size: nat)
      requires Valid() && entry != Null
      modifies d, d.table0, d.table1
      ensures Valid() && Calm(old(d.pauserehash), old(d.pauseAutoResize)) && d.contents == old(d.contents)
      ensures forall q :: q in d.contents && q in old(d.contents) ==> (IsPending(q) <==> old(IsPending(q)))
      ensures fresh({d.table0, d.table1} - old({d.table0, d.table1}))
    {
      hide Dict.Valid, SlotIn, Dict.Progressed, Dict.Steps, Dict.Filled0, Dict.BucketOf, Dict.NotSparse, Dict.WithinLoad;
      d.Layout();
      var _ := d.Shrink(size);
      d.Layout();
    }

    /** A lookup moves nothing while rehashing is paused. */
    method FindMeanwhile(k: Key)
      requires Valid() && entry != Null && |k.hash| == d.width
      modifies d, d.table0, d.table1
      ensures Valid() && Calm(old(d.pauserehash), old(d.pauseAutoResize)) && d.contents == old(d.contents)
      ensures forall q :: q in d.contents && q in old(d.contents) ==> (IsPending(q) <==> old(IsPending(q)))
      ensures fresh({d.table0, d.table1} - old({d.table0, d.table1}))
    {
      hide Dict.Valid, SlotIn, Dict.Progressed, Dict.Steps, Dict.Filled0, Dict.BucketOf, Dict.NotSparse, Dict.WithinLoad;
      d.Layout();
      var _ := d.Find(k);
      d.Layout();
    }

    /** The policy does not matter to the walk. */
    method SetPolicyMeanwhile(mode: ResizeMode, allowed: bool)
      requires Valid() && entry != Null
      modifies d, d.table0, d.table1
      ensures Valid() && Calm(old(d.pauserehash), old(d.pauseAutoResize)) && d.contents == old(d.contents)
      ensures forall q :: q in d.contents && q in old(d.contents) ==> (IsPending(q) <==> old(IsPending(q)))
      ensures fresh({d.table0, d.table1} - old({d.table0, d.table1}))
    {
      hide Dict.Valid, SlotIn;
      d.Layout();
      d.SetPolicy(mode, allowed);
      d.Layout();
    }

    /** A new entry goes to the head of a chain, behind or before the walk; it may start an
        expansion. All others stay where they are. */
    method AddMeanwhile(k: Key, v: Val)
      requires Valid() && entry != Null && StepOk(Adding(k, v), d.width, d.noValue, d.pauseAutoResize <= 0)
      modifies d, d.table0, d.table1
      ensures Valid() && Calm(old(d.pauserehash), old(d.pauseAutoResize)) && d.contents == Stepped(old(d.contents), entry.key, Adding(k, v))
      ensures forall q :: q in d.contents && q in old(d.contents) ==> (IsPending(q) <==> old(IsPending(q)))
      ensures fresh({d.table0, d.table1} - old({d.table0, d.table1}))
    {
      hide Dict.Valid, SlotIn, Dict.Progressed, Dict.Steps, Dict.Filled0, Dict.BucketOf, Dict.NotSparse, Dict.WithinLoad;
      d.Layout();
      var _ := d.Add(k, v);
      d.Layout();
    }

    /** The same for a replacement, which moves nothing when the key is there. */
    method ReplaceMeanwhile(k: Key, v: Val)
      requires Valid() && entry != Null && StepOk(Replacing(k, v), d.width, d.noValue, d.pauseAutoResize <= 0)
      modifies d, d.table0, d.table1
      ensures Valid() && Calm(old(d.pauserehash), old(d.pauseAutoResize)) && d.contents == Stepped(old(d.contents), entry.key, Replacing(k, v))
      ensures forall q :: q in d.contents && q in old(d.contents) ==> (IsPending(q) <==> old(IsPending(q)))
      ensures fresh({d.table0, d.table1} - old({d.table0, d.table1}))
    {
      hide Dict.Valid, SlotIn, Dict.Progressed, Dict.Steps, Dict.Filled0, Dict.BucketOf, Dict.NotSparse, Dict.WithinLoad;
      d.Layout();
      var _ := d.Replace(k, v);
      d.Layout();
    }

    /** The caller deletes the entry it was just given. The deletion may start a resize, or
        leave the dict empty; the walk stays in order. */
    method DeleteYielded()
      requires Valid() && Given()
      modifies d, d.table0, d.table1
      ensures Valid() && Calm(old(d.pauserehash), old(d.pauseAutoResize)) && d.contents == old(d.contents) - {entry.key}
      ensures forall q :: q in d.contents && q in old(d.contents) ==> (IsPending(q) <==> old(IsPending(q)))
      ensures fresh({d.table0, d.table1} - old({d.table0, d.table1}))
    {
      hide Dict.Valid, SlotIn, Dict.Progressed, Dict.Steps, Dict.Filled0, Dict.BucketOf, Dict.NotSparse, Dict.WithinLoad;
      d.Layout();
      var _ := d.Delete(entry.key);
      d.Layout();
    }

    /** Whatever the caller does between two calls. */
    method Meanwhile(op: Meantime)
      requires Valid() && Given()
      requires StepOk(op, d.width, d.noValue, d.pauseAutoResize <= 0)
      modifies d, d.table0, d.table1
      ensures Valid() && Calm(old(d.pauserehash), old(d.pauseAutoResize))
      ensures d.contents == Stepped(old(d.contents), entry.key, op)
      ensures forall k :: k in d.contents && k in old(d.contents) ==> (IsPending(k) <==> old(IsPending(k)))
      ensures fresh({d.table0, d.table1} - old({d.table0, d.table1}))
    {
      hide Dict.Valid, Walking, Pending;
      match op
      case Expanding(size) => ExpandMeanwhile(size);
      case Shrinking(size) => ShrinkMeanwhile(size);
      case Finding(k) => FindMeanwhile(k);
      case Policy(mode, allowed) => SetPolicyMeanwhile(mode, allowed);
      case Adding(k, v) => AddMeanwhile(k, v);
      case Replacing(k, v) => ReplaceMeanwhile(k, v);
      case Removing => DeleteYielded();
    }

    ghost predicate Calm(pause: int, autoPause: int)
      reads d
    {
      d.pauserehash == pause && d.pauseAutoResize == autoPause
    }

    lemma FirstOf(l: Link)
      requires l != Null && Distinct(l)
      ensures l.key in KeysOf(l) && l.key !in KeysOf(DT.Next(l)) && KeysOf(l) == {l.key} + KeysOf(DT.Next(l))
      ensures Distinct(DT.Next(l))
    {
    }
  }

  // ---- A whole iteration ----------------------------------------------------------------------

  function AllStepped(m: map<Key, Val>, given: Key, steps: seq<Meantime>): map<Key, Val> {
    if steps == [] then m
    else Stepped(AllStepped(m, given, steps[..|steps| - 1]), given, steps[|steps| - 1])
  }

  function StepsAt(between: seq<seq<Meantime>>, i: nat): seq<Meantime> {
    if i < |between| then between[i] else []
  }

  /** The map after the steps that follow each of the calls that returned `out`. */
  function After(m: map<Key, Val>, out: seq<Key>, between: seq<seq<Meantime>>): map<Key, Val> {
    if out == [] then m
    else
      var n := |out| - 1;
      AllStepped(After(m, out[..n], between), out[n], StepsAt(between, n))
  }

  /** The caller removed `k` when it was given it; or a step may have brought it in. */
  ghost predicate Removed(k: Key, out: seq<Key>, between: seq<seq<Meantime>>) {
    exists j :: 0 <= j < |out| && out[j] == k && Removing in StepsAt(between, j)
  }

  ghost predicate Brought(k: Key, between: seq<seq<Meantime>>, n: nat) {
    exists j, op :: 0 <= j < n && op in StepsAt(between, j) && Brings(op, k)
  }

  /** Keys that came into the map on the way: they were not in it at first, or had been
      removed. */
  ghost predicate Newcomers(born: set<Key>, first: map<Key, Val>, out: seq<Key>, between: seq<seq<Meantime>>) {
    forall k :: k in born ==> Brought(k, between, |out|) && (k !in first || Removed(k, out, between))
  }

  /** An iteration has returned `out` and has `pend` before it, the map being `now`. */
  ghost predicate Underway(now: map<Key, Val>, pend: set<Key>, first: map<Key, Val>, out: seq<Key>,
                           between: seq<seq<Meantime>>, born: set<Key>) {
    && (forall k :: k in now && k !in born ==> k in first && (k in out <==> k !in pend))
    && (forall k :: k in first ==> k in now || Removed(k, out, between))
    && (forall k :: k in out ==> k in first || k in born)
    && (forall i, j :: 0 <= i < j < |out| && out[i] == out[j] ==> out[i] in born)
    && Newcomers(born, first, out, between)
  }

  lemma StartsOut(first: map<Key, Val>, between: seq<seq<Meantime>>)
    ensures Underway(first, first.Keys, first, [], between, {})
  {
  }

  lemma MoreOut(k: Key, out: seq<Key>, between: seq<seq<Meantime>>, q: Key)
    ensures Removed(k, out, between) ==> Removed(k, out + [q], between)
    ensures Brought(k, between, |out|) ==> Brought(k, between, |out| + 1)
  {
    if Removed(k, out, between) {
      var j :| 0 <= j < |out| && out[j] == k && Removing in StepsAt(between, j);
      assert (out + [q])[j] == k;
    }
  }

  lemma NextUnderway(now: map<Key, Val>, pend: set<Key>, first: map<Key, Val>, out: seq<Key>,
                     between: seq<seq<Meantime>>, born: set<Key>, q: Key)
    requires Underway(now, pend, first, out, between, born) && q in pend && q in now
    ensures Underway(now, pend - {q}, first, out + [q], between, born)
  {
    hide Removed, Brought;
    forall k ensures Removed(k, out, between) ==> Removed(k, out + [q], between)
             ensures Brought(k, between, |out|) ==> Brought(k, between, |out| + 1) {
      MoreOut(k, out, between, q);
    }
    assert forall k :: k in out + [q] <==> k in out || k == q;
  }

  lemma StepUnderway(now: map<Key, Val>, pend: set<Key>, first: map<Key, Val>, out: seq<Key>,
                     between: seq<seq<Meantime>>, born: set<Key>, op: Meantime, now': map<Key, Val>, pend': set<Key>)
    requires Underway(now, pend, first, out, between, born) && out != [] && op in StepsAt(between, |out| - 1)
    requires now' == Stepped(now, out[|out| - 1], op)
    requires forall k :: k in now && k in now' ==> (k in pend' <==> k in pend)
    ensures Underway(now', pend', first, out, between, born + (now'.Keys - now.Keys))
  {
    hide Removed, Brought, Stepped, Newcomers;
    StepFacts(now, out, between, op);
    var born' := born + (now'.Keys - now.Keys);
    forall k | k in born' ensures Brought(k, between, |out|) && (k !in first || Removed(k, out, between)) {
      if k in born {
        NewcomerFacts(born, first, out, between, k);
      }
    }
    SomeNewcomers(born', first, out, between);
  }

  lemma StepFacts(now: map<Key, Val>, out: seq<Key>, between: seq<seq<Meantime>>, op: Meantime)
    requires out != [] && op in StepsAt(between, |out| - 1)
    ensures var now' := Stepped(now, out[|out| - 1], op);
      && (forall k :: k in now && k !in now' ==> Removed(k, out, between))
      && (forall k :: k in now' && k !in now ==> Brought(k, between, |out|))
  {
    var now' := Stepped(now, out[|out| - 1], op);
    forall k | k in now && k !in now' ensures Removed(k, out, between) {
      assert op.Removing? && k == out[|out| - 1];
    }
    forall k | k in now' && k !in now ensures Brought(k, between, |out|) {
      assert Brings(op, k);
    }
  }

  lemma NewcomerFacts(born: set<Key>, first: map<Key, Val>, out: seq<Key>, between: seq<seq<Meantime>>, k: Key)
    requires Newcomers(born, first, out, between) && k in born
    ensures Brought(k, between, |out|) && (k !in first || Removed(k, out, between))
  {
  }

  lemma SomeNewcomers(born: set<Key>, first: map<Key, Val>, out: seq<Key>, between: seq<seq<Meantime>>)
    requires forall k :: k in born ==> Brought(k, between, |out|) && (k !in first || Removed(k, out, between))
    ensures Newcomers(born, first, out, between)
  {
  }

  /** The steps after one call. */
  method Between(iter: Iterator, steps: seq<Meantime>, ghost first: map<Key, Val>, ghost out: seq<Key>,
                 ghost between: seq<seq<Meantime>>, ghost born: set<Key>) returns (ghost born': set<Key>)
    requires iter.Valid() && iter.Given() && out != [] && out[|out| - 1] == iter.entry.key
    requires steps == StepsAt(between, |out| - 1)
    requires StepsOk(steps, iter.d.width, iter.d.noValue, iter.d.pauseAutoResize <= 0)
    requires Underway(iter.d.contents, iter.PendingKeys(), first, out, between, born)
    modifies iter.d, iter.d.table0, iter.d.table1
    ensures iter.Valid() && iter.Calm(old(iter.d.pauserehash), old(iter.d.pauseAutoResize))
    ensures iter.d.contents == AllStepped(old(iter.d.contents), iter.entry.key, steps)
    ensures Underway(iter.d.contents, iter.PendingKeys(), first, out, between, born')
    ensures steps == [] ==> iter.PendingKeys() == old(iter.PendingKeys())
    ensures fresh({iter.d.table0, iter.d.table1} - old({iter.d.table0, iter.d.table1}))
  {
    hide Dict.Valid, Iterator.Walking, Iterator.Pending, Underway, Stepped, StepsAt;
    born' := born;
    var i := 0;
    while i < |steps|
      invariant 0 <= i <= |steps|
      invariant iter.Valid() && iter.Calm(old(iter.d.pauserehash), old(iter.d.pauseAutoResize))
      invariant iter.d.contents == AllStepped(old(iter.d.contents), iter.entry.key, steps[..i])
      invariant Underway(iter.d.contents, iter.PendingKeys(), first, out, between, born')
      invariant fresh({iter.d.table0, iter.d.table1} - old({iter.d.table0, iter.d.table1}))
      invariant i == 0 ==> iter.PendingKeys() == old(iter.PendingKeys())
    {
      ghost var now, pend := iter.d.contents, iter.PendingKeys();
      assert steps[..i + 1][..i] == steps[..i] && steps[i] in StepsAt(between, |out| - 1);
      iter.Meanwhile(steps[i]);
      StepUnderway(now, pend, first, out, between, born', steps[i], iter.d.contents, iter.PendingKeys());
      born' := born' + (iter.d.contents.Keys - now.Keys);
      i := i + 1;
    }
    assert steps[..i] == steps;
  }

  /** A full safe iteration, with any such steps after each of its calls, from whatever
      state the dict was in and however it is resized meanwhile. Every entry there at
      first comes out. None comes out twice, except that a key which is removed and brought
      in again may; and nothing comes out that was not there at first or brought in. */
  method IterateAll(d: Dict, between: seq<seq<Meantime>>) returns (out: seq<Key>)
    requires d.Valid()
    requires forall b :: 0 <= b < |between| ==> StepsOk(between[b], d.width, d.noValue, d.pauseAutoResize <= 0)
    modifies d, d.table0, d.table1
    ensures d.Valid() && d.pauserehash == old(d.pauserehash)
    ensures d.contents == After(old(d.contents), out, between)
    ensures Complete(old(d.contents), out, between)
  {
    hide Dict.Valid, Iterator.Walking, Iterator.Pending, Underway, After, StepsAt, StepsOk, AllStepped, Complete;
    d.Layout();
    var iter := new Iterator(d);
    out := [];
    ghost var born: set<Key> := {};
    ghost var first := d.contents;
    StartsOut(first, between);
    assert iter.PendingKeys() == first.Keys;
    NothingOut(first, between);
    while true
      invariant iter.Valid() && fresh(iter) && iter.d == d
      invariant fresh({d.table0, d.table1} - old({d.table0, d.table1}))
      invariant d.pauserehash == old(d.pauserehash) + if iter.Fresh() then 0 else 1
      invariant d.pauseAutoResize == old(d.pauseAutoResize)
      invariant d.contents == After(first, out, between)
      invariant Underway(d.contents, iter.PendingKeys(), first, out, between, born)
      decreases if |out| < |between| then |between| - |out| else 0, |iter.PendingKeys()|
    {
      StepsAreOk(between, |out|, d.width, d.noValue, d.pauseAutoResize <= 0);
      var e;
      e, born := Turn(iter, first, out, between, born);
      if e == Null {
        break;
      }
      OneMoreOut(first, out, between, e.key);
      out := out + [e.key];
    }
    d.ResumeRehashing();
  }

  /** One call of dictNext and the steps after it. */
  method Turn(iter: Iterator, ghost first: map<Key, Val>, out: seq<Key>, between: seq<seq<Meantime>>, ghost born: set<Key>)
    returns (e: Link, ghost born': set<Key>)
    requires iter.Valid() && Underway(iter.d.contents, iter.PendingKeys(), first, out, between, born)
    requires StepsOk(StepsAt(between, |out|), iter.d.width, iter.d.noValue, iter.d.pauseAutoResize <= 0)
    modifies iter, iter.d, iter.d.table0, iter.d.table1
    ensures iter.Valid() && !iter.Fresh()
    ensures iter.d.pauserehash == old(iter.d.pauserehash) + if old(iter.Fresh()) then 1 else 0
    ensures iter.d.pauseAutoResize == old(iter.d.pauseAutoResize)
    ensures fresh({iter.d.table0, iter.d.table1} - old({iter.d.table0, iter.d.table1}))
    ensures e == Null ==> iter.d.contents == old(iter.d.contents) && Complete(first, out, between)
    ensures e != Null ==>
      && iter.d.contents == AllStepped(old(iter.d.contents), e.key, StepsAt(between, |out|))
      && Underway(iter.d.contents, iter.PendingKeys(), first, out + [e.key], between, born')
      && (StepsAt(between, |out|) == [] ==> |iter.PendingKeys()| < |old(iter.PendingKeys())|)
  {
    hide Dict.Valid, Iterator.Walking, Iterator.Pending, Underway, AllStepped, Complete, StepsOk, StepsAt;
    ghost var pend := iter.PendingKeys();
    born' := born;
    e := iter.Next();
    if e == Null {
      Finished(iter.d.contents, pend, first, out, between, born);
      return;
    }
    assert iter.PendingKeys() == pend - {e.key};
    NextUnderway(iter.d.contents, pend, first, out, between, born, e.key);
    ghost var out' := out + [e.key];
    born' := Between(iter, StepsAt(between, |out|), first, out', between, born);
  }

  /** What an iteration that has ended has returned. */
  ghost predicate Complete(first: map<Key, Val>, out: seq<Key>, between: seq<seq<Meantime>>) {
    && (forall k :: k in first ==> k in out)
    && (forall k :: k in out ==> k in first || Brought(k, between, |out|))
    && (forall i, j :: 0 <= i < j < |out| && out[i] == out[j] ==>
          Brought(out[i], between, |out|) && (out[i] !in first || Removed(out[i], out, between)))
  }

  lemma NothingOut(first: map<Key, Val>, between: seq<seq<Meantime>>)
    ensures After(first, [], between) == first
  {
  }

  lemma OneMoreOut(first: map<Key, Val>, out: seq<Key>, between: seq<seq<Meantime>>, q: Key)
    ensures After(first, out + [q], between) == AllStepped(After(first, out, between), q, StepsAt(between, |out|))
    ensures |out| >= |between| ==> StepsAt(between, |out|) == []
  {
    assert (out + [q])[..|out|] == out;
  }

  lemma StepsAreOk(between: seq<seq<Meantime>>, n: nat, width: nat, noValue: bool, mayExpand: bool)
    requires forall b :: 0 <= b < |between| ==> StepsOk(between[b], width, noValue, mayExpand)
    ensures StepsOk(StepsAt(between, n), width, noValue, mayExpand)
  {
  }

  lemma Finished(now: map<Key, Val>, pend: set<Key>, first: map<Key, Val>, out: seq<Key>,
                 between: seq<seq<Meantime>>, born: set<Key>)
    requires Underway(now, pend, first, out, between, born) && forall k :: k in now ==> k !in pend
    ensures Complete(first, out, between)
  {
    hide Brought;
    forall k | k in first ensures k in out {
      if k in born || k !in now {
        assert Removed(k, out, between);
      }
    }
  }
}
