/** Whole runs of a dict: any sequence of operations against a finite map, and
    scans with any operations between their calls. */
module DictRuns {
  import opened Basics
  import opened Words
  import opened DictTable
  import opened RehashingDict
  import opened DictScan

  datatype Op =
    | AddOp(k: Key, v: Val)
    | ReplaceOp(k: Key, v: Val)
    | DeleteOp(k: Key)
    | FindOp(k: Key)
    | RehashOp(n: nat)
    | ExpandOp(size: nat)
    | ShrinkOp(size: nat)
    | PolicyOp(mode: ResizeMode, allowed: bool)

  datatype Reply = Done(ok: bool) | Got(value: Option<Val>) | Unit

  /** What an operation does to a finite map, and what it answers. */
  function Spec(m: map<Key, Val>, op: Op): (map<Key, Val>, Reply) {
    match op
    case AddOp(k, v) => if k in m then (m, Done(false)) else (m[k := v], Done(true))
    case ReplaceOp(k, v) => (m[k := v], Done(k !in m))
    case DeleteOp(k) => (m - {k}, Done(k in m))
    case FindOp(k) => (m, Got(if k in m then Some(m[k]) else None))
    case _ => (m, Unit)
  }

  function SpecRun(m: map<Key, Val>, ops: seq<Op>): (map<Key, Val>, seq<Reply>)
  {
    if ops == [] then (m, [])
    else
      var before := SpecRun(m, ops[..|ops| - 1]);
      var last := Spec(before.0, ops[|ops| - 1]);
      (last.0, before.1 + [last.1])
  }

  /** Keys have hashes of the dict's width; a no-value dict stores no values. */
  predicate Admissible(op: Op, width: nat, noValue: bool) {
    match op
    case AddOp(k, v) => |k.hash| == width && (noValue ==> v == NO_VALUE)
    case ReplaceOp(k, v) => |k.hash| == width && !noValue
    case DeleteOp(k) => |k.hash| == width
    case FindOp(k) => |k.hash| == width
    case _ => true
  }

  method Apply(d: Dict, op: Op) returns (r: Reply)
    requires d.Valid() && d.pauseAutoResize <= 0 && Admissible(op, d.width, d.noValue)
    modifies d, d.table0, d.table1
    ensures d.Valid() && d.pauseAutoResize == old(d.pauseAutoResize)
    ensures (d.contents, r) == Spec(old(d.contents), op)
    ensures fresh({d.table0, d.table1} - old({d.table0, d.table1}))
  {
    hide Dict.Valid;
    r := Unit;
    match op
    case AddOp(k, v) =>
      var ok := d.Add(k, v);
      r := Done(ok);
    case ReplaceOp(k, v) =>
      var added := d.Replace(k, v);
      r := Done(added);
    case DeleteOp(k) =>
      var ok := d.Delete(k);
      r := Done(ok);
    case FindOp(k) =>
      var found := d.Find(k);
      r := Got(found);
    case RehashOp(n) =>
      var _ := d.Rehash(n);
    case ExpandOp(size) =>
      var _ := d.Expand(size);
    case ShrinkOp(size) =>
      var _ := d.Shrink(size);
    case PolicyOp(mode, allowed) =>
      d.SetPolicy(mode, allowed);
  }

  /** Every sequence of operations answers and leaves exactly what the same
      sequence would on a finite map. */
  method RunOps(d: Dict, ops: seq<Op>) returns (replies: seq<Reply>)
    requires d.Valid() && d.pauseAutoResize <= 0
    requires forall i :: 0 <= i < |ops| ==> Admissible(ops[i], d.width, d.noValue)
    modifies d, d.table0, d.table1
    ensures d.Valid() && d.pauseAutoResize == old(d.pauseAutoResize)
    ensures (d.contents, replies) == SpecRun(old(d.contents), ops)
    ensures fresh({d.table0, d.table1} - old({d.table0, d.table1}))
  {
    hide Dict.Valid, Spec;
    replies := [];
    for i := 0 to |ops|
      invariant d.Valid() && d.pauseAutoResize == old(d.pauseAutoResize)
      invariant (d.contents, replies) == SpecRun(old(d.contents), ops[..i])
      invariant fresh({d.table0, d.table1} - old({d.table0, d.table1}))
    {
      var r := Apply(d, ops[i]);
      replies := replies + [r];
      assert ops[..i + 1][..i] == ops[..i];
    }
    assert ops[..|ops|] == ops;
  }

  /** The finite map after the first `n` batches. */
  function Through(m: map<Key, Val>, batches: seq<seq<Op>>, n: nat): map<Key, Val>
    requires n <= |batches|
  {
    if n == 0 then m else SpecRun(Through(m, batches, n - 1), batches[n - 1]).0
  }

  /** The calls of a scan found the dict as it is after each of the batches. */
  ghost predicate Interleaved(calls: seq<Call>, m: map<Key, Val>, batches: seq<seq<Op>>) {
    && |calls| <= |batches|
    && forall i, k :: 0 <= i < |calls| ==> (calls[i].tables.Has(k) <==> k in Through(m, batches, i))
  }

  /** The key is there at each of the first `n` calls, or at some of them. */
  ghost predicate Throughout(k: Key, m: map<Key, Val>, batches: seq<seq<Op>>, n: nat)
    requires n <= |batches|
  {
    forall i :: 0 <= i < n ==> k in Through(m, batches, i)
  }

  ghost predicate AtSomeCall(k: Key, m: map<Key, Val>, batches: seq<seq<Op>>, n: nat)
    requires n <= |batches|
  {
    exists i :: 0 <= i < n && k in Through(m, batches, i)
  }

  /** A scan with a batch of arbitrary operations after each of its calls, the last one
      excepted. It ends; then every key that was in the dict at each of its calls has
      come out, and nothing has come out that was not there at some call. */
  method ScanWhile(d: Dict, batches: seq<seq<Op>>) returns (done: bool, ghost calls: seq<Call>, emitted: seq<Key>)
    requires d.Valid() && d.pauseAutoResize <= 0
    requires forall b, i :: 0 <= b < |batches| && 0 <= i < |batches[b]| ==> Admissible(batches[b][i], d.width, d.noValue)
    modifies d, d.table0, d.table1
    ensures d.Valid()
    ensures IsRun(calls, d.width) && Interleaved(calls, old(d.contents), batches)
    ensures done <==> Finished(calls, d.width)
    ensures !done ==> |calls| == |batches| < Pow2(d.width)
    ensures d.contents == Through(old(d.contents), batches, if done then |calls| - 1 else |calls|)
    ensures done ==> forall k :: Throughout(k, old(d.contents), batches, |calls|) ==> k in emitted
    ensures forall k :: k in emitted ==> AtSomeCall(k, old(d.contents), batches, |calls|)
  {
    hide Dict.Valid, Scanned, Pow2, IsRun, SpecRun;
    ghost var m := d.contents;
    done, calls, emitted := false, [], [];
    var cursor := Zeros(d.width);
    NoCalls(d.width);
    var b := 0;
    while b < |batches|
      invariant 0 <= b <= |batches|
      invariant d.Valid() && d.pauseAutoResize == old(d.pauseAutoResize)
      invariant fresh({d.table0, d.table1} - old({d.table0, d.table1}))
      invariant IsRun(calls, d.width) && |calls| == b && |cursor| == d.width
      invariant if b == 0 then cursor == Zeros(d.width) else calls[b - 1].next == cursor != Zeros(d.width)
      invariant d.contents == Through(m, batches, b) && Interleaved(calls, m, batches)
      invariant forall k :: k in emitted <==> EmittedBy(calls, k)
    {
      ghost var tables := d.Snapshot();
      d.SnapshotOk();
      var next, keys := d.Scan(cursor);
      ghost var c := Call(tables, cursor, next, keys);
      OneMoreCall(calls, c, d.width);
      EmittedExtends(calls, c);
      calls := calls + [c];
      emitted := emitted + keys;
      cursor := next;
      if cursor == Zeros(d.width) {
        done := true;
        break;
      }
      var _ := RunOps(d, batches[b]);
      b := b + 1;
    }
    if done {
      FinishedScan(calls, d.width, m, batches, emitted);
    } else if calls != [] {
      RunLength(calls, d.width);
    }
    Sound(calls, d.width, m, batches, emitted);
  }

  lemma NoCalls(w: nat)
    ensures IsRun([], w) && Pow2(w) > 0
  {
  }

  lemma OneMoreCall(calls: seq<Call>, c: Call, w: nat)
    requires IsRun(calls, w) && |c.cursor| == w && c.tables.Ok(w) && Scanned(c.tables, c.cursor, c.next, c.emitted)
    requires if calls == [] then c.cursor == Zeros(w) else c.cursor == calls[|calls| - 1].next != Zeros(w)
    ensures IsRun(calls + [c], w)
  {
    hide Scanned;
  }

  lemma FinishedScan(calls: seq<Call>, w: nat, m: map<Key, Val>, batches: seq<seq<Op>>, emitted: seq<Key>)
    requires IsRun(calls, w) && Finished(calls, w) && Interleaved(calls, m, batches)
    requires forall k :: k in emitted <==> EmittedBy(calls, k)
    ensures forall k :: Throughout(k, m, batches, |calls|) ==> k in emitted
  {
    hide IsRun, Finished, EmittedBy, Through;
    forall k | Throughout(k, m, batches, |calls|) ensures k in emitted {
      forall i | 0 <= i < |calls| ensures calls[i].tables.Has(k) {
        assert k in Through(m, batches, i);
      }
      ScanGuarantee(calls, w, k);
    }
  }

  lemma Sound(calls: seq<Call>, w: nat, m: map<Key, Val>, batches: seq<seq<Op>>, emitted: seq<Key>)
    requires IsRun(calls, w) && Interleaved(calls, m, batches)
    requires forall k :: k in emitted <==> EmittedBy(calls, k)
    ensures forall k :: k in emitted ==> AtSomeCall(k, m, batches, |calls|)
  {
    hide Scanned, Through;
    forall k | k in emitted ensures AtSomeCall(k, m, batches, |calls|) {
      var i :| 0 <= i < |calls| && k in calls[i].emitted;
      ScanSound(calls, w, i, k);
      assert k in Through(m, batches, i);
    }
  }

  lemma EmittedExtends(calls: seq<Call>, c: Call)
    ensures forall k :: EmittedBy(calls + [c], k) <==> (EmittedBy(calls, k) || k in c.emitted)
  {
    forall k ensures EmittedBy(calls + [c], k) <==> (EmittedBy(calls, k) || k in c.emitted) {
      if EmittedBy(calls, k) {
        var i :| 0 <= i < |calls| && k in calls[i].emitted;
        assert k in (calls + [c])[i].emitted;
      }
      if k in c.emitted { assert k in (calls + [c])[|calls|].emitted; }
    }
  }

  /** An unfinished run is shorter than the number of cursors. */
  lemma RunLength(calls: seq<Call>, w: nat)
    requires IsRun(calls, w) && calls != [] && !Finished(calls, w)
    ensures |calls| < Pow2(w)
  {
    var c := calls[|calls| - 1];
    ScanTerminates(calls, w);
    CursorAdvances(c.tables, c.cursor, c.next, c.emitted);
  }
}
