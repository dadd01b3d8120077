/** What one call of dictScan promises, and what a whole scan promises however
    the dict is resized and rehashed between its calls. */
module DictScan {
  import opened Words
  import opened DictTable
  import opened Cursor

  /** The keys of each table and their exponents when a call is made; `exp1` is
      -1 when no rehashing is under way. */
  datatype Tables = Tables(exp0: int, exp1: int, keys0: set<Key>, keys1: set<Key>) {

    ghost predicate Ok(w: nat) {
      && -1 <= exp0 < w && -1 <= exp1 < w
      && (exp0 == -1 ==> keys0 == {}) && (exp1 == -1 ==> keys1 == {})
      && (exp1 >= 0 ==> exp0 >= 0)
      && forall k :: Has(k) ==> |k.hash| == w
    }

    ghost predicate Has(k: Key) {
      k in keys0 || k in keys1
    }

    ghost predicate Table0IsSmaller() {
      exp1 == -1 || exp0 <= exp1
    }

    ghost function SmallExp(): int {
      if Table0IsSmaller() then exp0 else exp1
    }

    ghost function LargeExp(): int {
      if exp1 == -1 || !Table0IsSmaller() then exp0 else exp1
    }

    ghost predicate InSmall(k: Key) {
      if Table0IsSmaller() then k in keys0 else k in keys1
    }
  }

  /** One call: the cursor moves on to the next bucket of the smaller table, and
      exactly the keys on the way are emitted: those in the cursor's bucket of
      the smaller table, and those in the buckets of the larger table that
      expand it, from the cursor on. An empty dict ends the scan. */
  ghost predicate Scanned(t: Tables, v: Word, n: Word, emitted: seq<Key>)
    requires t.Ok(|v|)
  {
    if forall k :: !t.Has(k) then
      n == Zeros(|v|) && emitted == []
    else
      var small, large := t.SmallExp(), t.LargeExp();
      && small >= 0
      && n == NextCursor(v, small)
      && forall k: Key :: k in emitted <==>
          && t.Has(k)
          && k.hash[..small] == v[..small]
          && (t.InSmall(k) || Position(v[..large]) <= Position(k.hash[..large]))
  }

  lemma ScannedEmpty(t: Tables, v: Word)
    requires t.Ok(|v|) && forall k :: !t.Has(k)
    ensures Scanned(t, v, Zeros(|v|), [])
  {
  }

  /** The keys a finished expansion walk has to cover. */
  lemma ExpansionDone(v: Word, cur: Word, small: nat, large: nat, h: Word)
    requires small <= large <= |v| == |h| == |cur|
    requires cur[..small] == v[..small]
    requires Aligned(NextCursor(cur, large), small, large)
    ensures h[..small] == v[..small] ==> Position(h[..large]) <= Position(cur[..large])
  {
    ExpansionStep(cur, small, large);
    NextCursorPrefix(cur, small);
    NextCursorPrefix(v, small);
    StepCovers(v, small, h);
    StepCovers(cur, large, h);
  }

  /** Still inside the walk, the next bucket of the larger table is the one right after. */
  lemma ExpansionNext(cur: Word, small: nat, large: nat)
    requires small <= large <= |cur|
    requires !Aligned(NextCursor(cur, large), small, large)
    ensures var n := NextCursor(cur, large);
      && n[..small] == cur[..small]
      && Position(n[..large]) == Position(cur[..large]) + 1
      && Position(cur) < Position(n)
  {
    var n := NextCursor(cur, large);
    ExpansionStep(cur, small, large);
    NextCursorPrefix(cur, large);
    PositionSuccessor(cur[..large]);
    assert n[..large] == Successor(cur[..large]);
    StepCovers(cur, large, cur);
    AlignedMeans(n, small, large);
    assert Zeros(|cur|)[small..large] == Zeros(large)[small..large] == Zeros(large - small);
    assert n[..large][small..large] == n[small..large];
    if Position(n[..large]) == 0 {
      PositionZeros(large);
      PositionInjective(n[..large], Zeros(large));
    }
  }

  /** The larger-table buckets walked from `v` up to, not including, `cur`. */
  ghost predicate Walked(v: Word, cur: Word, small: nat, large: nat, h: Word)
    requires small <= large <= |v| == |h| == |cur|
  {
    && h[..small] == v[..small]
    && Position(v[..large]) <= Position(h[..large]) < Position(cur[..large])
  }

  lemma WalkStep(v: Word, cur: Word, small: nat, large: nat, h: Word)
    requires small <= large <= |v| == |h| == |cur|
    requires cur[..small] == v[..small] && Position(v[..large]) <= Position(cur[..large])
    requires !Aligned(NextCursor(cur, large), small, large)
    ensures Walked(v, NextCursor(cur, large), small, large, h)
      <==> Walked(v, cur, small, large, h) || h[..large] == cur[..large]
  {
    hide Position, NextCursor, Aligned;
    ExpansionNext(cur, small, large);
    SamePrefix(h, cur, small, large);
    if Position(h[..large]) == Position(cur[..large]) { PositionInjective(h[..large], cur[..large]); }
  }

  lemma WalkEnd(v: Word, cur: Word, small: nat, large: nat, h: Word)
    requires small <= large <= |v| == |h| == |cur|
    requires cur[..small] == v[..small] && Position(v[..large]) <= Position(cur[..large])
    requires Aligned(NextCursor(cur, large), small, large)
    ensures NextCursor(cur, large) == NextCursor(v, small)
    ensures h[..small] == v[..small] && Position(v[..large]) <= Position(h[..large])
      <==> Walked(v, cur, small, large, h) || h[..large] == cur[..large]
  {
    ExpansionStep(cur, small, large);
    NextCursorPrefix(cur, small);
    NextCursorPrefix(v, small);
    hide Position, NextCursor, Aligned;
    ExpansionDone(v, cur, small, large, h);
    SamePrefix(h, cur, small, large);
    if Position(h[..large]) == Position(cur[..large]) { PositionInjective(h[..large], cur[..large]); }
  }

  lemma WalkedNone(v: Word, small: nat, large: nat)
    requires small <= large <= |v|
    ensures forall h: Word :: |h| == |v| ==> !Walked(v, v, small, large, h)
  {
  }

  lemma SamePrefix(a: Word, b: Word, small: nat, large: nat)
    requires small <= large <= |a| == |b|
    ensures a[..large] == b[..large] ==> a[..small] == b[..small]
  {
    assert a[..small] == a[..large][..small] && b[..small] == b[..large][..small];
  }

  // ---- Whole scans ----------------------------------------------------------

  datatype Call = Call(tables: Tables, cursor: Word, next: Word, emitted: seq<Key>)

  /** Calls that start at cursor 0 and hand each returned cursor to the next
      call. Nothing at all ties the tables of one call to those of the next. */
  ghost predicate IsRun(calls: seq<Call>, w: nat) {
    && (forall i :: 0 <= i < |calls| ==>
        |calls[i].cursor| == w && calls[i].tables.Ok(w)
        && Scanned(calls[i].tables, calls[i].cursor, calls[i].next, calls[i].emitted))
    && (|calls| > 0 ==> calls[0].cursor == Zeros(w))
    && (forall i :: 0 < i < |calls| ==> calls[i].cursor == calls[i - 1].next && calls[i].cursor != Zeros(w))
  }

  ghost predicate Finished(calls: seq<Call>, w: nat) {
    |calls| > 0 && calls[|calls| - 1].next == Zeros(w)
  }

  ghost predicate EmittedBy(calls: seq<Call>, k: Key) {
    exists i :: 0 <= i < |calls| && k in calls[i].emitted
  }

  /** A call emits every key it finds between its cursor and the one it returns. */
  lemma CallCovers(t: Tables, v: Word, n: Word, emitted: seq<Key>, k: Key)
    requires t.Ok(|v|) && Scanned(t, v, n, emitted) && t.Has(k)
    requires Position(v) <= Position(k.hash)
    requires n == Zeros(|v|) || Position(k.hash) < Position(n)
    ensures k in emitted
  {
    StepCovers(v, t.SmallExp(), k.hash);
    StepCovers(v, t.LargeExp(), k.hash);
  }

  /** The invariant of every scan: the keys behind the cursor have been emitted. */
  lemma {:induction false} BehindCursor(calls: seq<Call>, w: nat, k: Key)
    requires IsRun(calls, w) && calls != []
    requires forall i :: 0 <= i < |calls| ==> calls[i].tables.Has(k)
    ensures var n := calls[|calls| - 1].next;
      n == Zeros(w) || Position(k.hash) < Position(n) ==> EmittedBy(calls, k)
  {
    var last := |calls| - 1;
    var c := calls[last];
    if c.next == Zeros(w) || Position(k.hash) < Position(c.next) {
      if Position(c.cursor) <= Position(k.hash) {
        CallCovers(c.tables, c.cursor, c.next, c.emitted, k);
      } else if last == 0 {
        PositionZeros(w);
        assert false;
      } else {
        BehindCursor(calls[..last], w, k);
        var i :| 0 <= i < last && k in calls[..last][i].emitted;
        assert calls[i] == calls[..last][i];
      }
    }
  }

  /** The guarantee of dictScan: a finished scan has emitted every key that was
      in the dict at each of its calls, whatever happened between them. */
  lemma ScanGuarantee(calls: seq<Call>, w: nat, k: Key)
    requires IsRun(calls, w) && Finished(calls, w)
    requires forall i :: 0 <= i < |calls| ==> calls[i].tables.Has(k)
    ensures EmittedBy(calls, k)
  {
    BehindCursor(calls, w, k);
  }

  /** Nothing is invented: an emitted key was in the dict at that call. */
  lemma ScanSound(calls: seq<Call>, w: nat, i: nat, k: Key)
    requires IsRun(calls, w) && i < |calls| && k in calls[i].emitted
    ensures calls[i].tables.Has(k)
  {
    assert Scanned(calls[i].tables, calls[i].cursor, calls[i].next, calls[i].emitted);
  }

  /** Every call moves the reversed cursor strictly up, or ends the scan. */
  lemma CursorAdvances(t: Tables, v: Word, n: Word, emitted: seq<Key>)
    requires t.Ok(|v|) && Scanned(t, v, n, emitted)
    ensures n == Zeros(|v|) || Position(v) < Position(n)
  {
    if n != Zeros(|v|) { StepCovers(v, t.SmallExp(), v); }
  }

  /** So a scan ends, within as many calls as there are cursors. */
  lemma {:induction false} ScanTerminates(calls: seq<Call>, w: nat)
    requires IsRun(calls, w) && calls != []
    ensures |calls| <= Position(calls[|calls| - 1].cursor) + 1 <= Pow2(w)
  {
    var last := |calls| - 1;
    if last > 0 {
      ScanTerminates(calls[..last], w);
      var c := calls[last - 1];
      CursorAdvances(c.tables, c.cursor, c.next, c.emitted);
    }
  }
}
