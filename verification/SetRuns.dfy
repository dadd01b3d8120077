/** Runs of SADD, SREM, SMOVE and SPOP over any number of set handles
    (redislib-src/facade/set.c): what the replies say, and that no element is lost or
    made up on the way. */
module SetRuns {
  import opened SetAlgebra
  import opened SetCommands

  datatype Op =
    | SAdd(at: nat, members: seq<Elem>)
    | SRem(at: nat, members: seq<Elem>)
    | SMove(at: nat, to: nat, member: Elem)
    | SPopOne(at: nat)
    | SPop(at: nat, count: nat)

  datatype Reply = Count(n: nat) | Popped(elems: seq<Elem>)

  /** The sets behind the handles. */
  type State = seq<set<Elem>>

  predicate OpOk(op: Op, n: nat) {
    && op.at < n
    && (op.SMove? ==> op.to < n)
    && (op.SAdd? || op.SRem? ==> |op.members| > 0)
  }

  /** The members a pop takes and those it leaves part the set. */
  predicate Parted(was: set<Elem>, count: nat, reply: seq<Elem>, left: set<Elem>) {
    && |reply| == (if count < |was| then count else |was|)
    && was == SetOf(reply) + left
    && SetOf(reply) !! left
    && |was| == |reply| + |left|
  }

  function Moved(b: State, i: nat, j: nat, x: Elem): State
    requires i < |b| && j < |b|
  {
    if x in b[i] && i != j then b[i := b[i] - {x}][j := b[j] + {x}] else b
  }

  /** What one command may answer and do. Only SPOP leaves a choice. */
  predicate StepOk(b: State, op: Op, reply: Reply, a: State) {
    && |a| == |b|
    && OpOk(op, |b|)
    && match op
       case SAdd(i, ms) => a == b[i := b[i] + SetOf(ms)] && reply.Count? && |a[i]| == |b[i]| + reply.n
       case SRem(i, ms) => a == b[i := b[i] - SetOf(ms)] && reply.Count? && |b[i]| == |a[i]| + reply.n
       case SMove(i, j, x) =>
         && reply == Count(if x in b[i] then 1 else 0)
         && a == Moved(b, i, j, x)
       case SPopOne(i) => a == b[i := a[i]] && reply.Popped? && Parted(b[i], 1, reply.elems, a[i])
       case SPop(i, c) => a == b[i := a[i]] && reply.Popped? && Parted(b[i], c, reply.elems, a[i])
  }

  predicate RunOk(trace: seq<State>, ops: seq<Op>, replies: seq<Reply>) {
    && |trace| == |ops| + 1
    && |replies| == |ops|
    && forall k :: 0 <= k < |ops| ==> StepOk(trace[k], ops[k], replies[k], trace[k + 1])
  }

  // Conservation, over the first n commands of a run.

  function Union(s: State): set<Elem> {
    set i, x | 0 <= i < |s| && x in s[i] :: x
  }

  function Added(ops: seq<Op>, n: nat): set<Elem>
    requires n <= |ops|
  {
    set k, x | 0 <= k < n && ops[k].SAdd? && x in ops[k].members :: x
  }

  function Removed(ops: seq<Op>, n: nat): set<Elem>
    requires n <= |ops|
  {
    set k, x | 0 <= k < n && ops[k].SRem? && x in ops[k].members :: x
  }

  function PoppedElems(replies: seq<Reply>, n: nat): set<Elem>
    requires n <= |replies|
  {
    set k, x | 0 <= k < n && replies[k].Popped? && x in replies[k].elems :: x
  }

  /** What one command gives to the sets, takes out of them, and hands out. */
  function Given(op: Op): set<Elem> {
    if op.SAdd? then SetOf(op.members) else {}
  }

  function Taken(op: Op): set<Elem> {
    if op.SRem? then SetOf(op.members) else {}
  }

  function Handed(reply: Reply): set<Elem> {
    if reply.Popped? then SetOf(reply.elems) else {}
  }

  lemma UnionUpdate(s: State, i: nat, v: set<Elem>)
    requires i < |s|
    ensures Union(s[i := v]) == Union(s[i := {}]) + v
    ensures Union(s) == Union(s[i := {}]) + s[i]
  {
    var t, z := s[i := v], s[i := {}];
    forall x | x in Union(t) ensures x in Union(z) + v {
      var k :| 0 <= k < |t| && x in t[k];
      assert k != i ==> x in z[k];
    }
    forall x | x in Union(z) + v ensures x in Union(t) {
      if x in v {
        assert x in t[i];
      } else {
        var k :| 0 <= k < |z| && x in z[k];
        assert x in t[k];
      }
    }
    forall x | x in Union(s) ensures x in Union(z) + s[i] {
      var k :| 0 <= k < |s| && x in s[k];
      assert k != i ==> x in z[k];
    }
    forall x | x in Union(z) ensures x in Union(s) {
      var k :| 0 <= k < |z| && x in z[k];
      assert x in s[k];
    }
  }

  lemma MoveConserves(b: State, i: nat, j: nat, x: Elem)
    requires i < |b| && j < |b|
    ensures Union(Moved(b, i, j, x)) == Union(b)
  {
    hide Union;
    if x in b[i] && i != j {
      var mid := b[i := b[i] - {x}];
      UnionUpdate(b, i, b[i] - {x});
      UnionUpdate(mid, j, b[j] + {x});
      Passed(Union(b[i := {}]), b[i], Union(mid[j := {}]), b[j], x);
    }
  }

  /** What one set passes to another stays in the union of all. */
  lemma Passed(r: set<Elem>, s: set<Elem>, q: set<Elem>, t: set<Elem>, x: Elem)
    requires x in s && r + (s - {x}) == q + t
    ensures q + (t + {x}) == r + s
  {
    assert q + (t + {x}) == r + (s - {x}) + {x};
  }

  lemma StepConserves(b: State, op: Op, reply: Reply, a: State)
    requires StepOk(b, op, reply, a)
    ensures Union(a) + Handed(reply) <= Union(b) + Given(op)
    ensures Union(b) + Given(op) <= Union(a) + Handed(reply) + Taken(op)
  {
    hide SetOf, Union, Moved;
    var i := op.at;
    if op.SMove? {
      MoveConserves(b, i, op.to, op.member);
    } else {
      OneConserves(b, op, reply, a);
      hide StepOk, Given, Handed, Taken;
      UnionUpdate(b, i, a[i]);
      Widen(Union(b[i := {}]), a[i] + Handed(reply), b[i] + Given(op));
      Widen(Union(b[i := {}]), b[i] + Given(op), a[i] + Handed(reply) + Taken(op));
    }
  }

  lemma OneConserves(b: State, op: Op, reply: Reply, a: State)
    requires StepOk(b, op, reply, a) && !op.SMove?
    ensures op.at < |b| == |a| && a == b[op.at := a[op.at]]
    ensures a[op.at] + Handed(reply) <= b[op.at] + Given(op) <= a[op.at] + Handed(reply) + Taken(op)
  {
    hide SetOf;
  }

  lemma Widen(r: set<Elem>, s: set<Elem>, t: set<Elem>)
    requires s <= t
    ensures r + s <= r + t
  {
  }

  lemma OneMore(ops: seq<Op>, replies: seq<Reply>, n: nat)
    requires 0 < n <= |ops| == |replies|
    ensures Added(ops, n) == Added(ops, n - 1) + Given(ops[n - 1])
    ensures Removed(ops, n) == Removed(ops, n - 1) + Taken(ops[n - 1])
    ensures PoppedElems(replies, n) == PoppedElems(replies, n - 1) + Handed(replies[n - 1])
  {
  }

  /** After any run what the sets hold and what was popped is just what they held and
      what was added, less members that were removed by name. */
  lemma {:induction false} Conserved(trace: seq<State>, ops: seq<Op>, replies: seq<Reply>, n: nat)
    requires RunOk(trace, ops, replies) && n <= |ops|
    ensures Union(trace[n]) + PoppedElems(replies, n) <= Union(trace[0]) + Added(ops, n)
    ensures Union(trace[0]) + Added(ops, n) <= Union(trace[n]) + PoppedElems(replies, n) + Removed(ops, n)
  {
    hide StepOk, Union, Added, Removed, PoppedElems, Given, Taken, Handed;
    if n == 0 {
      NothingYet(ops, replies);
    } else {
      Conserved(trace, ops, replies, n - 1);
      StepConserves(trace[n - 1], ops[n - 1], replies[n - 1], trace[n]);
      OneMore(ops, replies, n);
    }
  }

  lemma NothingYet(ops: seq<Op>, replies: seq<Reply>)
    ensures Added(ops, 0) == {} && PoppedElems(replies, 0) == {}
  {
  }

  // The same with numbers: how many members the sets have in all.

  function Total(s: State): nat {
    if s == [] then 0 else |s[0]| + Total(s[1..])
  }

  lemma {:induction false} TotalUpdate(s: State, i: nat, v: set<Elem>)
    requires i < |s|
    ensures Total(s[i := v]) + |s[i]| == Total(s) + |v|
  {
    if i == 0 {
      assert s[i := v][1..] == s[1..];
    } else {
      TotalUpdate(s[1..], i - 1, v);
      assert s[i := v][1..] == s[1..][i - 1 := v];
    }
  }

  /** The members a step adds to the total, and takes from it. A move to a set that
      has the member already makes one of two. */
  function Gained(op: Op, reply: Reply): nat {
    if op.SAdd? && reply.Count? then reply.n else 0
  }

  function Lost(b: State, op: Op, reply: Reply): nat {
    match op
    case SRem(_, _) => if reply.Count? then reply.n else 0
    case SMove(i, j, x) => if i < |b| && j < |b| && i != j && x in b[i] && x in b[j] then 1 else 0
    case SPopOne(_) => if reply.Popped? then |reply.elems| else 0
    case SPop(_, _) => if reply.Popped? then |reply.elems| else 0
    case SAdd(_, _) => 0
  }

  lemma StepTotal(b: State, op: Op, reply: Reply, a: State)
    requires StepOk(b, op, reply, a)
    ensures Total(a) + Lost(b, op, reply) == Total(b) + Gained(op, reply)
  {
    TotalUpdate(b, op.at, a[op.at]);
    if op.SMove? && op.member in b[op.at] && op.at != op.to {
      var mid := b[op.at := a[op.at]];
      TotalUpdate(mid, op.to, a[op.to]);
      ShrinksByOne(b[op.at], op.member);
      GrowsByOne(b[op.to], op.member);
    } else {
      assert a == b[op.at := a[op.at]];
    }
  }

  function AllGained(ops: seq<Op>, replies: seq<Reply>, n: nat): nat
    requires n <= |ops| == |replies|
  {
    if n == 0 then 0 else AllGained(ops, replies, n - 1) + Gained(ops[n - 1], replies[n - 1])
  }

  function AllLost(trace: seq<State>, ops: seq<Op>, replies: seq<Reply>, n: nat): nat
    requires n <= |ops| == |replies| && |trace| == |ops| + 1
  {
    if n == 0 then 0 else AllLost(trace, ops, replies, n - 1) + Lost(trace[n - 1], ops[n - 1], replies[n - 1])
  }

  /** The replies of a run account for the number of members at its end. */
  lemma {:induction false} Accounted(trace: seq<State>, ops: seq<Op>, replies: seq<Reply>, n: nat)
    requires RunOk(trace, ops, replies) && n <= |ops|
    ensures Total(trace[n]) + AllLost(trace, ops, replies, n) == Total(trace[0]) + AllGained(ops, replies, n)
  {
    hide StepOk, Total, Lost, Gained;
    if n > 0 {
      Accounted(trace, ops, replies, n - 1);
      StepTotal(trace[n - 1], ops[n - 1], replies[n - 1], trace[n]);
    }
  }

  // The handles.

  /** Distinct handles that share no payload, each empty-null or non-empty. */
  ghost predicate Apart(hs: seq<Handle>)
    reads hs, set h | h in hs :: h.sobj
  {
    && (forall i :: 0 <= i < |hs| ==> hs[i].Valid())
    && (forall i, j :: 0 <= i < |hs| && 0 <= j < |hs| && i != j ==> hs[i] != hs[j])
    && (forall i, j :: 0 <= i < |hs| && 0 <= j < |hs| && i != j && hs[i].sobj != null ==> hs[i].sobj != hs[j].sobj)
  }

  ghost function Payloads(hs: seq<Handle>): set<Payload?>
    reads hs
  {
    set h | h in hs :: h.sobj
  }

  ghost function PayloadList(hs: seq<Handle>): (ps: seq<Payload?>)
    reads hs
    ensures |ps| == |hs| && forall i :: 0 <= i < |hs| ==> ps[i] == hs[i].sobj
  {
    seq(|hs|, i requires 0 <= i < |hs| reads hs => hs[i].sobj)
  }

  ghost function Sets(hs: seq<Handle>): (s: State)
    reads hs, set h | h in hs :: h.sobj
    ensures |s| == |hs|
  {
    seq(|hs|, i requires 0 <= i < |hs| reads hs, set h | h in hs :: h.sobj => hs[i].Contents())
  }

  /** A command that changes the sets of at most two handles leaves the others;
      `ps` and `b` are the payloads and sets there were before. */
  lemma Changed(hs: seq<Handle>, i: nat, j: nat, ps: seq<Payload?>, b: State)
    requires i < |hs| == |ps| == |b| && j < |hs| && hs[i].Valid()
    requires hs[j].Valid()
    requires forall k, l :: 0 <= k < |hs| && 0 <= l < |hs| && k != l ==> hs[k] != hs[l] && (ps[k] != null ==> ps[k] != ps[l])
    requires forall k :: 0 <= k < |hs| && k != i && k != j ==> hs[k].sobj == ps[k] && hs[k].Valid() && hs[k].Contents() == b[k]
    requires hs[i].sobj == null || hs[i].sobj == ps[i] || hs[i].sobj !in ps
    requires hs[j].sobj == null || hs[j].sobj == ps[j] || hs[j].sobj !in ps
    requires i != j && hs[i].sobj != null ==> hs[i].sobj != hs[j].sobj
    ensures Apart(hs) && Sets(hs) == b[i := hs[i].Contents()][j := hs[j].Contents()]
  {
    hide Handle.Valid, Handle.Contents;
    forall k | 0 <= k < |hs| ensures hs[k].Valid() {
    }
  }

  /** SPOP with and without a count, as a parting of the set. */
  method PopParting(h: Handle, c: nat) returns (reply: seq<Elem>)
    requires h.Valid()
    modifies h, h.sobj
    ensures h.Valid() && (h.sobj == old(h.sobj) || h.sobj == null || fresh(h.sobj))
    ensures Parted(old(h.Contents()), c, reply, h.Contents())
  {
    reply := h.Pop(c);
  }

  method PopOneParting(h: Handle) returns (reply: seq<Elem>)
    requires h.Valid()
    modifies h, h.sobj
    ensures h.Valid() && (h.sobj == old(h.sobj) || h.sobj == null)
    ensures Parted(old(h.Contents()), 1, reply, h.Contents())
  {
    ghost var was := h.Contents();
    var found, x := h.PopOne();
    reply := if found then [x] else [];
    if found {
      ShrinksByOne(was, x);
    }
  }

  method ExecAdd(hs: seq<Handle>, i: nat, ms: seq<Elem>) returns (reply: Reply)
    requires Apart(hs) && i < |hs| && |ms| > 0
    modifies hs, Payloads(hs)
    ensures Apart(hs)
    ensures forall p :: p in Payloads(hs) ==> p == null || p in old(Payloads(hs)) || fresh(p)
    ensures StepOk(old(Sets(hs)), SAdd(i, ms), reply, Sets(hs))
  {
    hide SetOf, Parted;
    ghost var ps, b := PayloadList(hs), Sets(hs);
    var n := hs[i].Add(ms);
    reply := Count(n);
    Changed(hs, i, i, ps, b);
  }

  method ExecRem(hs: seq<Handle>, i: nat, ms: seq<Elem>) returns (reply: Reply)
    requires Apart(hs) && i < |hs| && |ms| > 0
    modifies hs, Payloads(hs)
    ensures Apart(hs)
    ensures forall p :: p in Payloads(hs) ==> p == null || p in old(Payloads(hs)) || fresh(p)
    ensures StepOk(old(Sets(hs)), SRem(i, ms), reply, Sets(hs))
  {
    hide SetOf, Parted;
    ghost var ps, b := PayloadList(hs), Sets(hs);
    var n := hs[i].Remove(ms);
    reply := Count(n);
    Changed(hs, i, i, ps, b);
  }

  lemma MovedSets(b: State, i: nat, j: nat, x: Elem, s: set<Elem>, t: set<Elem>)
    requires i < |b| && j < |b|
    requires if i != j && x in b[i] then s == b[i] - {x} && t == b[j] + {x} else s == b[i] && t == b[j]
    ensures Moved(b, i, j, x) == b[i := s][j := t]
  {
  }

  method MoveBetween(hs: seq<Handle>, i: nat, j: nat, x: Elem) returns (moved: bool)
    requires Apart(hs) && i < |hs| && j < |hs|
    modifies hs, Payloads(hs)
    ensures Apart(hs)
    ensures forall p :: p in Payloads(hs) ==> p == null || p in old(Payloads(hs)) || fresh(p)
    ensures moved == (x in old(Sets(hs))[i])
    ensures Sets(hs) == Moved(old(Sets(hs)), i, j, x)
  {
    hide Moved;
    ghost var ps, b := PayloadList(hs), Sets(hs);
    moved := Move(hs[i], hs[j], x);
    Changed(hs, i, j, ps, b);
    MovedSets(b, i, j, x, hs[i].Contents(), hs[j].Contents());
  }

  method ExecMove(hs: seq<Handle>, i: nat, j: nat, x: Elem) returns (reply: Reply)
    requires Apart(hs) && i < |hs| && j < |hs|
    modifies hs, Payloads(hs)
    ensures Apart(hs)
    ensures forall p :: p in Payloads(hs) ==> p == null || p in old(Payloads(hs)) || fresh(p)
    ensures StepOk(old(Sets(hs)), SMove(i, j, x), reply, Sets(hs))
  {
    hide Apart, Sets, Moved;
    var moved := MoveBetween(hs, i, j, x);
    reply := Count(if moved then 1 else 0);
  }

  method ExecPopOne(hs: seq<Handle>, i: nat) returns (reply: Reply)
    requires Apart(hs) && i < |hs|
    modifies hs, Payloads(hs)
    ensures Apart(hs)
    ensures forall p :: p in Payloads(hs) ==> p == null || p in old(Payloads(hs)) || fresh(p)
    ensures StepOk(old(Sets(hs)), SPopOne(i), reply, Sets(hs))
  {
    hide SetOf, Parted;
    ghost var ps, b := PayloadList(hs), Sets(hs);
    var l := PopOneParting(hs[i]);
    reply := Popped(l);
    Changed(hs, i, i, ps, b);
  }

  method ExecPop(hs: seq<Handle>, i: nat, c: nat) returns (reply: Reply)
    requires Apart(hs) && i < |hs|
    modifies hs, Payloads(hs)
    ensures Apart(hs)
    ensures forall p :: p in Payloads(hs) ==> p == null || p in old(Payloads(hs)) || fresh(p)
    ensures StepOk(old(Sets(hs)), SPop(i, c), reply, Sets(hs))
  {
    hide SetOf, Parted;
    ghost var ps, b := PayloadList(hs), Sets(hs);
    var l := PopParting(hs[i], c);
    reply := Popped(l);
    Changed(hs, i, i, ps, b);
  }

  /** Runs one command. */
  method Exec(hs: seq<Handle>, op: Op) returns (reply: Reply)
    requires Apart(hs) && OpOk(op, |hs|)
    modifies hs, Payloads(hs)
    ensures Apart(hs)
    ensures forall p :: p in Payloads(hs) ==> p == null || p in old(Payloads(hs)) || fresh(p)
    ensures StepOk(old(Sets(hs)), op, reply, Sets(hs))
  {
    hide Apart, StepOk, Sets;
    match op
    case SAdd(i, ms) => reply := ExecAdd(hs, i, ms);
    case SRem(i, ms) => reply := ExecRem(hs, i, ms);
    case SMove(i, j, x) => reply := ExecMove(hs, i, j, x);
    case SPopOne(i) => reply := ExecPopOne(hs, i);
    case SPop(i, c) => reply := ExecPop(hs, i, c);
  }

  /** Runs commands one after the other. Every state on the way is a state of sets,
      and the replies account for it. */
  method RunSets(hs: seq<Handle>, ops: seq<Op>) returns (replies: seq<Reply>, ghost trace: seq<State>)
    requires Apart(hs) && forall k :: 0 <= k < |ops| ==> OpOk(ops[k], |hs|)
    modifies hs, Payloads(hs)
    ensures Apart(hs)
    ensures RunOk(trace, ops, replies) && trace[0] == old(Sets(hs)) && trace[|ops|] == Sets(hs)
    ensures Union(Sets(hs)) + PoppedElems(replies, |ops|) <= Union(old(Sets(hs))) + Added(ops, |ops|)
    ensures Union(old(Sets(hs))) + Added(ops, |ops|)
         <= Union(Sets(hs)) + PoppedElems(replies, |ops|) + Removed(ops, |ops|)
  {
    hide Apart, StepOk, Sets, Union, Added, Removed, PoppedElems;
    replies := [];
    trace := [Sets(hs)];
    var k := 0;
    while k < |ops|
      invariant 0 <= k <= |ops| && |replies| == k && |trace| == k + 1
      invariant Apart(hs)
      invariant forall p :: p in Payloads(hs) ==> p == null || p in old(Payloads(hs)) || fresh(p)
      invariant trace[0] == old(Sets(hs)) && trace[k] == Sets(hs)
      invariant forall m :: 0 <= m < k ==> StepOk(trace[m], ops[m], replies[m], trace[m + 1])
    {
      var reply := Exec(hs, ops[k]);
      replies := replies + [reply];
      trace := trace + [Sets(hs)];
      k := k + 1;
    }
    Conserved(trace, ops, replies, |ops|);
  }
}
