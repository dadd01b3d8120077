/** luaclib-src/zset/skiplist.c: a ranked skip list on the heap. */
module SkipList {
  import opened SkipOrder
  import opened SkipShape
  import opened Modular

  const MAXLEVEL: nat := 32

  /** One element of a node's level array. */
  datatype Link = Link(forward: Node?, span: int)

  class Node {
    const score: real
    const obj: Bytes
    const height: nat
    var level: seq<Link>
    var backward: Node?

    /** slCreateNode; the links are set by the caller. */
    constructor (height: nat, score: real, obj: Bytes)
      ensures this.height == height && this.score == score && this.obj == obj
      ensures level == seq(height, _ => Link(null, 0)) && backward == null
    {
      this.height, this.score, this.obj := height, score, obj;
      level := seq(height, _ => Link(null, 0));
      backward := null;
    }
  }

  function EntryOf(n: Node): Entry {
    Entry(n.score, n.obj)
  }

  function Heights(nodes: seq<Node>): seq<nat> {
    seq(|nodes|, i requires 0 <= i < |nodes| => nodes[i].height)
  }

  /** The entries behind the header. */
  function Entries(nodes: seq<Node>): seq<Entry>
    requires |nodes| > 0
  {
    seq(|nodes| - 1, i requires 0 <= i < |nodes| - 1 => EntryOf(nodes[i + 1]))
  }

  function At(nodes: seq<Node>, q: nat): Node? {
    if q < |nodes| then nodes[q] else null
  }

  /** The link at level `i` of position `p`: it points to the next tower that
      reaches the level, and its span is the exact distance in rank, which for
      a null link is the distance to the end. */
  ghost predicate LinkOk(nodes: seq<Node>, p: nat, i: nat, l: Link)
    requires p < |nodes|
  {
    var q := Next(Heights(nodes), p, i);
    l.forward == At(nodes, q) && l.span == Min(q, |nodes| - 1) - p
  }

  /** All links of one node; the header's levels above the list level are empty. */
  ghost predicate RowOk(nodes: seq<Node>, p: nat, row: seq<Link>, level: nat)
    requires p < |nodes|
  {
    && |row| == nodes[p].height
    && forall i :: 0 <= i < |row| ==> if i < level then LinkOk(nodes, p, i, row[i]) else row[i].forward == null
  }

  ghost predicate Towers(nodes: seq<Node>, header: Node, level: nat) {
    && |nodes| > 0 && nodes[0] == header && header.height == MAXLEVEL
    && (forall i, j :: 0 <= i < j < |nodes| ==> nodes[i] != nodes[j])
    && 1 <= level <= MAXLEVEL
    && (forall p :: 1 <= p < |nodes| ==> 1 <= nodes[p].height <= level)
    && Sorted(Entries(nodes))
  }

  /** Backward links are the exact reverse of level 0. */
  ghost predicate BackwardOk(nodes: seq<Node>, p: nat, b: Node?)
    requires p < |nodes|
  {
    p > 0 ==> b == if p == 1 then null else nodes[p - 1]
  }

  function Last(nodes: seq<Node>): Node? {
    if |nodes| <= 1 then null else nodes[|nodes| - 1]
  }

  /** rank[0] - rank[j]: how far before the gap level `j` was left. */
  function Gap(rank: seq<nat>, j: nat): int
    requires j < |rank|
  {
    var r0: int := rank[0];
    r0 - rank[j]
  }

  /** What slInsert makes of the link at level `j` of position `p`: links over
      the gap are cut at the new node, or stretched where it does not reach. */
  function Spliced(l: Link, p: nat, j: nat, rank: seq<nat>, x: Node, level: nat): Link
    requires |rank| == MAXLEVEL >= level > 0
  {
    if j < level && rank[j] == p then
      if j < x.height then Link(x, Gap(rank, j) + 1) else Link(l.forward, l.span + 1)
    else l
  }

  /** The positions a descent towards the gap after position `P` leaves in its
      update and rank arrays. */
  ghost predicate Stops(nodes: seq<Node>, P: nat, from: nat, level: nat, update: seq<Node>, rank: seq<nat>) {
    && |update| == |rank| == MAXLEVEL
    && forall i :: from <= i < level && i < MAXLEVEL ==>
        LastAt(Heights(nodes), P, i, rank[i]) && update[i] == nodes[rank[i]]
  }

  function WithNode(nodes: seq<Node>, P: nat, x: Node): seq<Node>
    requires P < |nodes|
  {
    nodes[..P + 1] + [x] + nodes[P + 1..]
  }

  lemma HeightsWith(nodes: seq<Node>, P: nat, x: Node)
    requires P < |nodes|
    ensures Heights(WithNode(nodes, P, x)) == With(Heights(nodes), P, x.height)
  {
  }

  /** The links of an old node after a splice are right for the longer list. */
  lemma SplicedRow(nodes: seq<Node>, P: nat, x: Node, level: nat, update: seq<Node>, rank: seq<nat>,
                   p: nat, row: seq<Link>, row': seq<Link>)
    requires P < |nodes| && p < |nodes| && 0 < level <= MAXLEVEL && x.height <= level
    requires Stops(nodes, P, 0, level, update, rank) && rank[0] == P
    requires RowOk(nodes, p, row, level) && |row'| == |row|
    requires forall j :: 0 <= j < |row| ==> row'[j] == Spliced(row[j], p, j, rank, x, level)
    ensures RowOk(WithNode(nodes, P, x), if p <= P then p else p + 1, row', level)
  {
    var nodes', p' := WithNode(nodes, P, x), if p <= P then p else p + 1;
    HeightsWith(nodes, P, x);
    forall j | 0 <= j < |row|
      ensures if j < level then LinkOk(nodes', p', j, row'[j]) else row'[j].forward == null
    {
      if j < level { SplicedLink(nodes, P, x, level, update, rank, p, j, row[j]); }
    }
  }

  lemma SplicedLink(nodes: seq<Node>, P: nat, x: Node, level: nat, update: seq<Node>, rank: seq<nat>,
                    p: nat, j: nat, l: Link)
    requires P < |nodes| && p < |nodes| && 0 < level <= MAXLEVEL && x.height <= level && j < level
    requires Stops(nodes, P, 0, level, update, rank) && rank[0] == P && j < nodes[p].height
    requires LinkOk(nodes, p, j, l)
    ensures LinkOk(WithNode(nodes, P, x), if p <= P then p else p + 1, j, Spliced(l, p, j, rank, x, level))
  {
    hide Next;
    var H := Heights(nodes);
    HeightsWith(nodes, P, x);
    NextWith(H, P, x.height, p, j);
    assert LastAt(H, P, j, rank[j]);
    if p <= P && Next(H, p, j) > P { LastAtUnique(H, P, j, rank[j], p); }
    var q := Next(H, p, j);
    var nodes' := WithNode(nodes, P, x);
    assert q > P ==> At(nodes', q + 1) == At(nodes, q);
    assert q <= P ==> At(nodes', q) == At(nodes, q);
  }

  /** The link the new node takes over from its predecessor on level `j`. */
  ghost predicate NewLink(rows: seq<seq<Link>>, rank: seq<nat>, j: nat, l: Link) {
    && j < |rank| && rank[j] < |rows| && j < |rows[rank[j]]|
    && l == Link(rows[rank[j]][j].forward, rows[rank[j]][j].span - Gap(rank, j))
  }

  /** A row with its first `i` levels spliced. */
  ghost function SplicedTo(row: seq<Link>, p: nat, i: nat, rank: seq<nat>, x: Node, level: nat): seq<Link>
    requires |rank| == MAXLEVEL >= level > 0
  {
    seq(|row|, j requires 0 <= j < |row| && |rank| == MAXLEVEL >= level > 0 =>
      if j < i then Spliced(row[j], p, j, rank, x, level) else row[j])
  }

  lemma SplicedOneMore(row: seq<Link>, p: nat, i: nat, rank: seq<nat>, x: Node, level: nat)
    requires |rank| == MAXLEVEL >= level > i
    ensures SplicedTo(row, p, i + 1, rank, x, level) ==
      if rank[i] == p && i < |row| then SplicedTo(row, p, i, rank, x, level)[i := Spliced(row[i], p, i, rank, x, level)]
      else SplicedTo(row, p, i, rank, x, level)
  {
  }

  lemma SplicedNone(row: seq<Link>, p: nat, rank: seq<nat>, x: Node, level: nat)
    requires |rank| == MAXLEVEL >= level > 0
    ensures SplicedTo(row, p, 0, rank, x, level) == row
  {
  }

  lemma SplicedAll(row: seq<Link>, p: nat, rank: seq<nat>, x: Node, level: nat)
    requires |rank| == MAXLEVEL >= level > 0
    ensures var row' := SplicedTo(row, p, level, rank, x, level);
      |row'| == |row| && forall j :: 0 <= j < |row| ==> row'[j] == Spliced(row[j], p, j, rank, x, level)
  {
  }

  lemma SplicedNow(rows: seq<seq<Link>>, r: nat, i: nat, rank: seq<nat>, x: Node, level: nat)
    requires |rank| == MAXLEVEL >= level > i && r < |rows| && rank[i] == r && i < |rows[r]|
    ensures var row := SplicedTo(rows[r], r, i, rank, x, level);
      |row| == |rows[r]| && row[i] == rows[r][i]
    ensures Spliced(rows[r][i], r, i, rank, x, level) ==
      if i < x.height then Link(x, Gap(rank, i) + 1) else Link(rows[r][i].forward, rows[r][i].span + 1)
    ensures NewLink(rows, rank, i, Link(rows[r][i].forward, rows[r][i].span - Gap(rank, i)))
  {
  }

  lemma LastAtHere(nodes: seq<Node>, P: nat, i: nat, r: nat)
    requires r <= P < |nodes| && nodes[r].height > i && Next(Heights(nodes), r, i) > P
    ensures LastAt(Heights(nodes), P, i, r)
  {
  }

  lemma StopsAt(nodes: seq<Node>, P: nat, level: nat, update: seq<Node>, rank: seq<nat>, i: nat)
    requires Stops(nodes, P, 0, level, update, rank) && i < level <= MAXLEVEL
    ensures |update| == |rank| == MAXLEVEL
    ensures rank[i] <= P < |nodes| && update[i] == nodes[rank[i]] && i < nodes[rank[i]].height
  {
    assert LastAt(Heights(nodes), P, i, rank[i]);
  }

  lemma RowLength(nodes: seq<Node>, p: nat, row: seq<Link>, level: nat)
    requires p < |nodes| && RowOk(nodes, p, row, level)
    ensures |row| == nodes[p].height
  {
  }

  /** The links slInsert gives the new node. */
  lemma NewRow(nodes: seq<Node>, P: nat, x: Node, level: nat, update: seq<Node>, rank: seq<nat>,
               rows: seq<seq<Link>>, row: seq<Link>)
    requires P < |nodes| && 0 < x.height <= level <= MAXLEVEL
    requires Stops(nodes, P, 0, level, update, rank) && rank[0] == P
    requires |rows| == |nodes| && forall p :: 0 <= p < |nodes| ==> RowOk(nodes, p, rows[p], level)
    requires |row| == x.height && forall j :: 0 <= j < x.height ==> NewLink(rows, rank, j, row[j])
    ensures RowOk(WithNode(nodes, P, x), P + 1, row, level)
  {
    var nodes', H := WithNode(nodes, P, x), Heights(nodes);
    HeightsWith(nodes, P, x);
    forall j | 0 <= j < x.height ensures LinkOk(nodes', P + 1, j, row[j]) {
      hide Next;
      assert LastAt(H, P, j, rank[j]);
      assert RowOk(nodes, rank[j], rows[rank[j]], level);
      assert LinkOk(nodes, rank[j], j, rows[rank[j]][j]);
      NextOfNew(H, P, x.height, rank[j], j);
    }
  }

  /** The header's links with levels `from` to `i` spanning the whole list. */
  ghost function RaisedTo(row: seq<Link>, from: nat, i: nat, length: nat): seq<Link> {
    seq(|row|, j requires 0 <= j < |row| => if from <= j < i then Link(null, length) else row[j])
  }

  lemma RaisedOneMore(nodes: seq<Node>, row: seq<Link>, from: nat, i: nat, length: nat)
    requires |nodes| > 0 && RowOk(nodes, 0, row, from) && from <= i < |row|
    ensures RaisedTo(row, from, i, length)[i := Link(RaisedTo(row, from, i, length)[i].forward, length)]
      == RaisedTo(row, from, i + 1, length)
  {
  }

  /** A higher list level with the new header links is as good as the old one. */
  lemma RaisedRows(nodes: seq<Node>, header: Node, from: nat, lvl: nat, P: nat, row: seq<Link>)
    requires Towers(nodes, header, from) && from < lvl <= MAXLEVEL && P < |nodes|
    requires RowOk(nodes, 0, row, from)
    ensures RaisedTo(row, from, from, |nodes| - 1) == row
    ensures Towers(nodes, header, lvl)
    ensures RowOk(nodes, 0, RaisedTo(row, from, lvl, |nodes| - 1), lvl)
    ensures forall p, r :: 0 < p < |nodes| && RowOk(nodes, p, r, from) ==> RowOk(nodes, p, r, lvl)
    ensures forall j :: from <= j < lvl ==> LastAt(Heights(nodes), P, j, 0)
  {
    hide Next, Sorted;
    forall j | from <= j < lvl ensures Next(Heights(nodes), 0, j) == |nodes| && Heights(nodes)[0] > j {
      NextAboveAll(Heights(nodes), 0, j);
    }
    var row' := RaisedTo(row, from, lvl, |nodes| - 1);
    forall j | 0 <= j < |row'| ensures if j < lvl then LinkOk(nodes, 0, j, row'[j]) else row'[j].forward == null {
      if j < from { assert LinkOk(nodes, 0, j, row[j]); }
    }
  }

  lemma BottomStop(nodes: seq<Node>, header: Node, level: nat, P: nat, update: seq<Node>, rank: seq<nat>)
    requires Towers(nodes, header, level) && Stops(nodes, P, 0, level, update, rank) && P < |nodes|
    ensures |rank| == |update| == MAXLEVEL && rank[0] == P && update[0] == nodes[P]
  {
    assert LastAt(Heights(nodes), P, 0, rank[0]);
    var H := Heights(nodes);
    assert forall p :: 0 <= p < |H| ==> p == 0 || H[p] > 0;
    if rank[0] < P { NextUnique(H, rank[0], 0, rank[0] + 1); }
  }

  lemma EntriesWith(nodes: seq<Node>, P: nat, x: Node)
    requires P < |nodes|
    ensures Entries(WithNode(nodes, P, x)) == Entries(nodes)[..P] + [EntryOf(x)] + Entries(nodes)[P..]
  {
  }

  /** The new node keeps the towers in order. */
  lemma TowersWith(nodes: seq<Node>, header: Node, level: nat, x: Node)
    requires Towers(nodes, header, level) && x !in nodes && 1 <= x.height <= level
    requires EntryOf(x) !in Entries(nodes)
    ensures var P := CountBefore(Entries(nodes), EntryOf(x));
      && Towers(WithNode(nodes, P, x), header, level)
      && Entries(WithNode(nodes, P, x)) == Inserted(Entries(nodes), EntryOf(x))
  {
    hide Sorted, CountBefore;
    var P := CountBefore(Entries(nodes), EntryOf(x));
    EntriesWith(nodes, P, x);
    InsertedSorted(Entries(nodes), EntryOf(x));
  }

  lemma AttachedLink(nodes: seq<Node>, p: nat, row: seq<Link>, level: nat, header: Node)
    requires Towers(nodes, header, level) && 0 < p < |nodes| && RowOk(nodes, p, row, level)
    ensures |row| > 0 && row[0].forward == At(nodes, p + 1)
  {
    assert LinkOk(nodes, p, 0, row[0]);
    if p + 1 < |nodes| { NextUnique(Heights(nodes), p, 0, p + 1); }
  }

  lemma WithAt(nodes: seq<Node>, P: nat, x: Node)
    requires P < |nodes|
    ensures |WithNode(nodes, P, x)| == |nodes| + 1 && WithNode(nodes, P, x)[P + 1] == x
    ensures forall p :: 0 <= p <= |nodes| && p != P + 1 ==>
      WithNode(nodes, P, x)[p] == nodes[if p <= P then p else p - 1]
    ensures Last(WithNode(nodes, P, x)) == if P + 1 < |nodes| then Last(nodes) else x
  {
  }

  lemma WithoutAt(nodes: seq<Node>, t: nat)
    requires 0 < t < |nodes|
    ensures |WithoutNode(nodes, t)| == |nodes| - 1
    ensures forall p :: 0 <= p < |nodes| - 1 ==> WithoutNode(nodes, t)[p] == nodes[if p < t then p else p + 1]
    ensures Last(WithoutNode(nodes, t)) ==
      if t + 1 < |nodes| then Last(nodes) else if t == 1 then null else nodes[t - 1]
  {
  }

  lemma TowersDistinct(nodes: seq<Node>, header: Node, level: nat)
    requires Towers(nodes, header, level)
    ensures forall i, j :: 0 <= i < j < |nodes| ==> nodes[i] != nodes[j]
    ensures |nodes| > 0 && nodes[0] == header
  {
  }

  /** The backward link of position `p` once `x` stands behind position `P`. */
  ghost function AttachedBack(nodes: seq<Node>, P: nat, x: Node, backs: seq<Node?>, p: nat): Node?
    requires P < |nodes| == |backs| && p <= |nodes|
  {
    if p <= P then backs[p]
    else if p == P + 1 then (if P == 0 then null else nodes[P])
    else if p == P + 2 then x
    else backs[p - 1]
  }

  lemma AttachedBacks(nodes: seq<Node>, P: nat, x: Node, backs: seq<Node?>)
    requires P < |nodes| == |backs|
    requires forall p :: 0 <= p < |nodes| ==> BackwardOk(nodes, p, backs[p])
    ensures forall p :: 0 <= p <= |nodes| ==>
      BackwardOk(WithNode(nodes, P, x), p, AttachedBack(nodes, P, x, backs, p))
  {
    forall p | 0 <= p <= |nodes|
      ensures BackwardOk(WithNode(nodes, P, x), p, AttachedBack(nodes, P, x, backs, p))
    {
      if p <= P {
        assert BackwardOk(nodes, p, backs[p]);
      } else if p > P + 2 {
        assert BackwardOk(nodes, p - 1, backs[p - 1]);
      }
    }
  }

  /** The top level stays in use. */
  lemma TopWith(nodes: seq<Node>, P: nat, x: Node, level: nat)
    requires P < |nodes| && level > 0
    requires x.height == level || Next(Heights(nodes), 0, level - 1) < |nodes|
    ensures Next(Heights(WithNode(nodes, P, x)), 0, level - 1) < |nodes| + 1
  {
    hide Next;
    HeightsWith(nodes, P, x);
    NextWith(Heights(nodes), P, x.height, 0, level - 1);
  }

  // ---- What deletion does to the links --------------------------------------

  function WithoutNode(nodes: seq<Node>, t: nat): seq<Node>
    requires t < |nodes|
  {
    nodes[..t] + nodes[t + 1..]
  }

  lemma HeightsWithout(nodes: seq<Node>, t: nat)
    requires t < |nodes|
    ensures Heights(WithoutNode(nodes, t)) == Without(Heights(nodes), t)
  {
  }

  /** What slDeleteNode makes of the link at level `j` of a position: a link to
      the node is led past it, a link over it shrinks by one. */
  function Cut(l: Link, p: nat, j: nat, rank: seq<nat>, x: Node, xrow: seq<Link>, level: nat): Link
    requires |rank| == MAXLEVEL >= level > 0
  {
    if j < level && rank[j] == p then
      if l.forward == x && j < |xrow| then Link(xrow[j].forward, l.span + xrow[j].span - 1)
      else Link(l.forward, l.span - 1)
    else l
  }

  lemma CutLink(nodes: seq<Node>, P: nat, level: nat, update: seq<Node>, rank: seq<nat>,
                xrow: seq<Link>, p: nat, j: nat, l: Link)
    requires P + 1 < |nodes| && p < |nodes| && p != P + 1 && 0 < level <= MAXLEVEL && j < level
    requires forall a, b :: 0 <= a < b < |nodes| ==> nodes[a] != nodes[b]
    requires Stops(nodes, P, 0, level, update, rank) && j < nodes[p].height
    requires LinkOk(nodes, p, j, l) && RowOk(nodes, P + 1, xrow, level)
    ensures LinkOk(WithoutNode(nodes, P + 1), if p <= P then p else p - 1, j,
                   Cut(l, p, j, rank, nodes[P + 1], xrow, level))
  {
    hide Next, At, IsNext, WithoutNode;
    var H := Heights(nodes);
    HeightsWithout(nodes, P + 1);
    NextWithout(H, P + 1, p, j);
    assert LastAt(H, P, j, rank[j]);
    var q := Next(H, p, j);
    AfterPosition(H, p, j);
    AtWithout(nodes, P + 1, q);
    if p <= P && q > P {
      LastAtUnique(H, P, j, rank[j], p);
      if q == P + 1 {
        assert LinkOk(nodes, P + 1, j, xrow[j]);
        AfterPosition(H, P + 1, j);
        AtWithout(nodes, P + 1, Next(H, P + 1, j));
      }
    }
  }

  lemma AfterPosition(H: seq<nat>, p: nat, i: nat)
    requires p < |H|
    ensures p < Next(H, p, i) <= |H|
    ensures Next(H, p, i) < |H| ==> H[Next(H, p, i)] > i
  {
    assert IsNext(H, p, i, Next(H, p, i));
  }

  lemma AtWithout(nodes: seq<Node>, t: nat, q: nat)
    requires t < |nodes| && forall a, b :: 0 <= a < b < |nodes| ==> nodes[a] != nodes[b]
    ensures |WithoutNode(nodes, t)| == |nodes| - 1
    ensures At(nodes, q) == nodes[t] <==> q == t
    ensures q < t ==> At(WithoutNode(nodes, t), q) == At(nodes, q)
    ensures q > t ==> At(WithoutNode(nodes, t), q - 1) == At(nodes, q)
  {
  }

  lemma CutRow(nodes: seq<Node>, P: nat, level: nat, update: seq<Node>, rank: seq<nat>,
               xrow: seq<Link>, p: nat, row: seq<Link>, row': seq<Link>)
    requires P + 1 < |nodes| && p < |nodes| && p != P + 1 && 0 < level <= MAXLEVEL
    requires forall a, b :: 0 <= a < b < |nodes| ==> nodes[a] != nodes[b]
    requires Stops(nodes, P, 0, level, update, rank)
    requires RowOk(nodes, p, row, level) && RowOk(nodes, P + 1, xrow, level)
    requires |row'| == |row|
    requires forall j :: 0 <= j < |row| ==> row'[j] == Cut(row[j], p, j, rank, nodes[P + 1], xrow, level)
    ensures RowOk(WithoutNode(nodes, P + 1), if p <= P then p else p - 1, row', level)
  {
    hide LinkOk, Stops, Cut;
    var nodes', p' := WithoutNode(nodes, P + 1), if p <= P then p else p - 1;
    StopsAt(nodes, P, level, update, rank, 0);
    forall j | 0 <= j < |row|
      ensures if j < level then LinkOk(nodes', p', j, row'[j]) else row'[j].forward == null
    {
      if j < level {
        CutLink(nodes, P, level, update, rank, xrow, p, j, row[j]);
      } else {
        CutAbove(row[j], p, j, rank, nodes[P + 1], xrow, level);
      }
    }
  }

  lemma CutAbove(l: Link, p: nat, j: nat, rank: seq<nat>, x: Node, xrow: seq<Link>, level: nat)
    requires |rank| == MAXLEVEL && MAXLEVEL >= level > 0 && j >= level
    ensures Cut(l, p, j, rank, x, xrow, level) == l
  {
  }

  /** A row with its first `i` levels cut. */
  ghost function CutTo(row: seq<Link>, p: nat, i: nat, rank: seq<nat>, x: Node, xrow: seq<Link>, level: nat): seq<Link>
    requires |rank| == MAXLEVEL >= level > 0
  {
    seq(|row|, j requires 0 <= j < |row| && |rank| == MAXLEVEL >= level > 0 =>
      if j < i then Cut(row[j], p, j, rank, x, xrow, level) else row[j])
  }

  lemma CutToFacts(row: seq<Link>, p: nat, i: nat, rank: seq<nat>, x: Node, xrow: seq<Link>, level: nat)
    requires |rank| == MAXLEVEL >= level > i
    ensures CutTo(row, p, 0, rank, x, xrow, level) == row
    ensures CutTo(row, p, i + 1, rank, x, xrow, level) ==
      if rank[i] == p && i < |row|
      then CutTo(row, p, i, rank, x, xrow, level)[i := Cut(row[i], p, i, rank, x, xrow, level)]
      else CutTo(row, p, i, rank, x, xrow, level)
    ensures i < |row| ==> CutTo(row, p, i, rank, x, xrow, level)[i] == row[i]
    ensures |CutTo(row, p, i, rank, x, xrow, level)| == |row|
  {
  }

  lemma CutAll(row: seq<Link>, p: nat, rank: seq<nat>, x: Node, xrow: seq<Link>, level: nat)
    requires |rank| == MAXLEVEL >= level > 0
    ensures var row' := CutTo(row, p, level, rank, x, xrow, level);
      |row'| == |row| && forall j :: 0 <= j < |row| ==> row'[j] == Cut(row[j], p, j, rank, x, xrow, level)
  {
  }

  lemma EntriesWithout(nodes: seq<Node>, t: nat)
    requires 0 < t < |nodes|
    ensures Entries(WithoutNode(nodes, t)) == Removed(Entries(nodes), t - 1)
  {
  }

  lemma TowersWithout(nodes: seq<Node>, header: Node, level: nat, t: nat)
    requires Towers(nodes, header, level) && 0 < t < |nodes|
    ensures Towers(WithoutNode(nodes, t), header, level)
    ensures Entries(WithoutNode(nodes, t)) == Removed(Entries(nodes), t - 1)
  {
    hide Sorted;
    EntriesWithout(nodes, t);
    RemovedSorted(Entries(nodes), t - 1);
  }

  lemma StopsWithout(nodes: seq<Node>, P: nat, level: nat, update: seq<Node>, rank: seq<nat>)
    requires Stops(nodes, P, 0, level, update, rank) && P + 1 < |nodes| && level <= MAXLEVEL
    ensures Stops(WithoutNode(nodes, P + 1), P, 0, level, update, rank)
  {
    hide LastAt;
    HeightsWithout(nodes, P + 1);
    forall i | 0 <= i < level && i < MAXLEVEL
      ensures LastAt(Heights(WithoutNode(nodes, P + 1)), P, i, rank[i])
      ensures rank[i] <= P && update[i] == nodes[rank[i]]
    {
      StopsAt(nodes, P, level, update, rank, i);
      LastAtWithout(Heights(nodes), P, i, rank[i]);
    }
  }

  /** Only a tower that reaches a level can be linked to on it. */
  lemma ReachedFrom(nodes: seq<Node>, p: nat, i: nat, row: seq<Link>, level: nat, t: nat)
    requires p < |nodes| && t < |nodes| && RowOk(nodes, p, row, level) && i < level && i < |row|
    ensures row[i].forward == nodes[t] ==> i < nodes[t].height
  {
    assert LinkOk(nodes, p, i, row[i]);
    AfterPosition(Heights(nodes), p, i);
  }

  /** The backward link of position `p` once the node behind position `P` is gone. */
  ghost function DetachedBack(nodes: seq<Node>, P: nat, backs: seq<Node?>, p: nat): Node?
    requires P + 1 < |nodes| == |backs| && p < |nodes| - 1
  {
    if p <= P then backs[p] else if p == P + 1 then backs[P + 1] else backs[p + 1]
  }

  lemma DetachedBacks(nodes: seq<Node>, P: nat, backs: seq<Node?>)
    requires P + 1 < |nodes| == |backs|
    requires forall p :: 0 <= p < |nodes| ==> BackwardOk(nodes, p, backs[p])
    ensures forall p :: 0 <= p < |nodes| - 1 ==>
      BackwardOk(WithoutNode(nodes, P + 1), p, DetachedBack(nodes, P, backs, p))
    ensures backs[P + 1] == (if P == 0 then null else nodes[P])
  {
    assert BackwardOk(nodes, P + 1, backs[P + 1]);
    forall p | 0 <= p < |nodes| - 1
      ensures BackwardOk(WithoutNode(nodes, P + 1), p, DetachedBack(nodes, P, backs, p))
    {
      if p <= P {
        assert BackwardOk(nodes, p, backs[p]);
      } else if p > P + 1 {
        assert BackwardOk(nodes, p + 1, backs[p + 1]);
      }
    }
  }

  /** An empty top level means no tower reaches it. */
  lemma TopUnused(nodes: seq<Node>, header: Node, level: nat, row: seq<Link>)
    requires Towers(nodes, header, level) && level > 1 && RowOk(nodes, 0, row, level)
    ensures |row| == MAXLEVEL
    ensures row[level - 1].forward == null <==> Next(Heights(nodes), 0, level - 1) == |nodes|
    ensures row[level - 1].forward == null ==>
      Towers(nodes, header, level - 1) && forall p, r :: 0 <= p < |nodes| && RowOk(nodes, p, r, level) && (p == 0 ==> r == row) ==> RowOk(nodes, p, r, level - 1)
  {
    assert LinkOk(nodes, 0, level - 1, row[level - 1]);
    assert IsNext(Heights(nodes), 0, level - 1, Next(Heights(nodes), 0, level - 1));
    if row[level - 1].forward == null {
      forall p | 1 <= p < |nodes| ensures nodes[p].height <= level - 1 {
        assert Heights(nodes)[p] <= level - 1;
      }
    }
  }

  // ---- What slGetRank answers -----------------------------------------------

  /** The answer to a rank query when `Q` entries come at or before the queried
      one: a member with the queried bytes whose tower can be seen from the gap
      after position `Q`, or 0 when no such tower can be seen. */
  ghost predicate RankAnswer(nodes: seq<Node>, Q: nat, obj: Bytes, rank: nat) {
    && (rank != 0 ==> rank < |nodes| && nodes[rank].obj == obj && Visible(nodes, Q, rank))
    && (rank == 0 ==> forall p :: 0 < p < |nodes| && Visible(nodes, Q, p) ==> nodes[p].obj != obj)
  }

  /** No tower between position `p` and the gap after `Q` is as tall as `p`'s. */
  ghost predicate Visible(nodes: seq<Node>, Q: nat, p: nat) {
    p <= Q < |nodes| && nodes[p].height > 0 && forall q :: p < q <= Q ==> nodes[q].height < nodes[p].height
  }

  /** Where a descent leaves a level is a visible tower, and the only visible
      one whose top is at that level. */
  lemma StopsAreVisible(nodes: seq<Node>, Q: nat, i: nat, r: nat)
    requires LastAt(Heights(nodes), Q, i, r)
    ensures Visible(nodes, Q, r) && r <= Q
    ensures forall p :: 0 <= p < |nodes| && Visible(nodes, Q, p) && nodes[p].height == i + 1 ==> p == r
  {
    hide Next;
    var H := Heights(nodes);
    assert IsNext(H, r, i, Next(H, r, i));
    forall q | r < q <= Q ensures nodes[q].height <= i { assert H[q] <= i; }
  }

  /** A query for an entry of the list answers its position; with distinct
      members that is the one position holding the queried bytes. */
  lemma RankOfMember(nodes: seq<Node>, k: nat, rank: nat)
    requires |nodes| > 0 && Sorted(Entries(nodes)) && k < |nodes| - 1
    requires forall p :: 0 < p < |nodes| ==> nodes[p].height > 0
    requires DistinctMembers(Entries(nodes))
    requires RankAnswer(nodes, CountUpTo(Entries(nodes), Entries(nodes)[k]), Entries(nodes)[k].obj, rank)
    ensures rank == k + 1
  {
    var s := Entries(nodes);
    MemberIsLast(s, k);
    assert Visible(nodes, k + 1, k + 1);
    assert s[k].obj == nodes[k + 1].obj;
    if rank != 0 {
      assert s[rank - 1].obj == nodes[rank].obj;
    }
  }

  /** The score of the query matters only through where it would sit. An entry that is
      not in the list gets a rank exactly when a member with its bytes and a smaller
      score has a tower that can be seen from there. */
  lemma RankOfAbsent(nodes: seq<Node>, e: Entry, rank: nat)
    requires |nodes| > 0 && Sorted(Entries(nodes)) && e !in Entries(nodes)
    requires RankAnswer(nodes, CountUpTo(Entries(nodes), e), e.obj, rank)
    ensures rank != 0 <==>
      exists p :: 0 < p < |nodes| && nodes[p].obj == e.obj && nodes[p].score < e.score
                  && Visible(nodes, CountUpTo(Entries(nodes), e), p)
  {
    var s := Entries(nodes);
    CountUpToSplits(s, e);
    forall p | 0 < p < |nodes| && nodes[p].obj == e.obj && Visible(nodes, CountUpTo(s, e), p)
      ensures nodes[p].score < e.score
    {
      assert AtOrBefore(s[p - 1], e) && s[p - 1] != e;
    }
  }

  /** So the answer is right, found exactly when in the list and then with its position,
      for every query whose bytes no member has under a smaller score. */
  lemma RankRight(nodes: seq<Node>, e: Entry, rank: nat)
    requires |nodes| > 0 && Sorted(Entries(nodes)) && DistinctMembers(Entries(nodes))
    requires forall p :: 0 < p < |nodes| ==> nodes[p].height > 0
    requires forall x :: x in Entries(nodes) && x.obj == e.obj ==> x.score >= e.score
    requires RankAnswer(nodes, CountUpTo(Entries(nodes), e), e.obj, rank)
    ensures rank != 0 <==> e in Entries(nodes)
    ensures rank != 0 ==> Entries(nodes)[rank - 1] == e
  {
    var s := Entries(nodes);
    if e in s {
      var k :| 0 <= k < |s| && s[k] == e;
      RankOfMember(nodes, k, rank);
    }
    if rank != 0 {
      CountUpToSplits(s, e);
      assert s[rank - 1] in s && AtOrBefore(s[rank - 1], e);
    }
  }

  /** So an entry that is not there can get a rank: one entry (1, "a"), asked
      for as (2, "a"), is answered with rank 1. */
  lemma RankOfAbsentEntry(header: Node, a: Node, rank: nat)
    requires a.score == 1.0 && a.obj == [97] && a.height == 1
    requires RankAnswer([header, a], CountUpTo(Entries([header, a]), Entry(2.0, [97])), [97], rank)
    ensures Entry(2.0, [97]) !in Entries([header, a]) && rank == 1
  {
    var nodes := [header, a];
    assert Entries(nodes) == [Entry(1.0, [97])];
    assert CountUpTo(Entries(nodes)[1..], Entry(2.0, [97])) == 0;
    assert CountUpTo(Entries(nodes), Entry(2.0, [97])) == 1;
    assert nodes[1] == a && Visible(nodes, 1, 1);
  }

  class SkipList {
    var header: Node
    var tail: Node?
    var length: nat
    var level: nat
    ghost var nodes: seq<Node>   // the header, then the entries in order

    ghost predicate Linked()
      reads this, nodes
    {
      && Towers(nodes, header, level)
      && length == |nodes| - 1
      && (forall p :: 0 <= p < |nodes| ==> RowOk(nodes, p, nodes[p].level, level))
    }

    ghost predicate Valid()
      reads this, nodes
    {
      && Linked()
      && tail == Last(nodes)
      && (forall p :: 0 <= p < |nodes| ==> BackwardOk(nodes, p, nodes[p].backward))
      && (level > 1 ==> Next(Heights(nodes), 0, level - 1) < |nodes|)
    }

    /** The sorted sequence the list stands for. */
    ghost function Contents(): seq<Entry>
      reads this
    {
      if |nodes| > 0 then Entries(nodes) else []
    }

    /** slCreate */
    constructor ()
      ensures Valid() && Contents() == [] && fresh(nodes)
    {
      var h := new Node(MAXLEVEL, 0.0, []);
      header, tail, length, level := h, null, 0, 1;
      nodes := [h];
    }

    /** A link that is not null leads to a later position of the ghost sequence. */
    ghost predicate Leads(p: nat, i: nat, l: Link)
      reads this
      requires p < |nodes|
    {
      var q := Next(Heights(nodes), p, i);
      && (l.forward == null ==> q == |nodes|)
      && (l.forward != null ==>
          && q < |nodes| && l.forward == nodes[q] && l.span == q - p && i < nodes[q].height
          && EntryOf(l.forward) == Entries(nodes)[q - 1])
    }

    lemma Follow(p: nat, i: nat)
      requires Linked() && p < |nodes| && i < level && i < nodes[p].height
      ensures i < |nodes[p].level| && Leads(p, i, nodes[p].level[i])
    {
      assert RowOk(nodes, p, nodes[p].level, level);
      assert LinkOk(nodes, p, i, nodes[p].level[i]);
    }

    lemma Basics()
      requires Linked()
      ensures |nodes| > 0 && nodes[0] == header && header.height == MAXLEVEL
      ensures 1 <= level <= MAXLEVEL && length == |nodes| - 1 && Sorted(Entries(nodes))
    {
    }

    /** The walk of slInsert and slDelete along one level, over entries before `e`. */
    method WalkBefore(from: nat, x: Node, i: nat, e: Entry) returns (rank: nat, y: Node)
      requires Linked() && i < level
      requires from <= CountBefore(Entries(nodes), e) && from < |nodes| && x == nodes[from] && i < x.height
      ensures rank < |nodes| && y == nodes[rank] && i < y.height
      ensures LastAt(Heights(nodes), CountBefore(Entries(nodes), e), i, rank)
    {
      hide SkipList.Linked, Next, Sorted, CountBefore, Before, Heights, LastAt;
      Basics();
      ghost var P := CountBefore(Entries(nodes), e);
      CountBeforeSplits(Entries(nodes), e);
      rank, y := from, x;
      Follow(rank, i);
      while y.level[i].forward != null && Before(EntryOf(y.level[i].forward), e)
        invariant rank <= P && y == nodes[rank] && i < nodes[rank].height
        invariant i < |y.level| && Leads(rank, i, y.level[i])
        decreases |nodes| - rank
      {
        rank, y := rank + y.level[i].span, y.level[i].forward;
        Follow(rank, i);
      }
      LastAtHere(nodes, P, i, rank);
    }

    /** The descent shared by slInsert and slDelete: the last node before the
        entry on every level, and its rank. */
    method Descend(e: Entry) returns (update: seq<Node>, rank: seq<nat>)
      requires Linked()
      ensures Stops(nodes, CountBefore(Entries(nodes), e), 0, level, update, rank)
    {
      hide SkipList.Linked, Next, Sorted, CountBefore, Before, Heights;
      Basics();
      ghost var P := CountBefore(Entries(nodes), e);
      var h := header;
      var x, pos: nat := h, 0;
      update, rank := seq(MAXLEVEL, _ => h), seq(MAXLEVEL, _ => 0);
      var i := level;
      while i > 0
        invariant 0 <= i <= level
        invariant pos <= P < |nodes| && x == nodes[pos] && x.height >= i
        invariant Stops(nodes, P, i, level, update, rank)
      {
        i := i - 1;
        pos, x := WalkBefore(pos, x, i, e);
        update, rank := update[i := x], rank[i := pos];
      }
    }

    // ---- Insertion ----------------------------------------------------------

    /** The part of slInsert that raises the list level: the header's links on
        the new levels span the whole list. */
    method RaiseLevel(lvl: nat, ghost P: nat, update: seq<Node>, rank: seq<nat>)
        returns (update': seq<Node>, rank': seq<nat>)
      requires Linked() && level < lvl <= MAXLEVEL && P < |nodes|
      requires Stops(nodes, P, 0, level, update, rank)
      modifies this`level, header`level
      ensures Linked() && level == lvl
      ensures Stops(nodes, P, 0, level, update', rank') && rank'[0] == rank[0]
    {
      hide RowOk, Towers, LastAt, Heights;
      Basics();
      NodesDistinct();
      update', rank' := update, rank;
      RowLength(nodes, 0, header.level, level);
      ghost var row, from := header.level, level;
      var i := level;
      while i < lvl
        invariant from <= i <= lvl && level == from && |update'| == |rank'| == MAXLEVEL && rank'[0] == rank[0]
        invariant Stops(nodes, P, 0, from, update', rank')
        invariant forall j :: from <= j < i ==> rank'[j] == 0 && update'[j] == header
        invariant header.level == RaisedTo(row, from, i, length)
      {
        rank', update' := rank'[i := 0], update'[i := header];
        header.level := header.level[i := Link(header.level[i].forward, length)];
        RaisedOneMore(nodes, row, from, i, length);
        i := i + 1;
      }
      RaisedRows(nodes, header, from, lvl, P, row);
      forall j | 0 <= j < lvl
        ensures rank'[j] < |nodes| && LastAt(Heights(nodes), P, j, rank'[j]) && update'[j] == nodes[rank'[j]]
      {
        if j < from { StopsAt(nodes, P, from, update', rank', j); }
      }
      level := lvl;
    }

    /** Cutting the new node into one level, or stretching the link over it. */
    method SpliceLevel(x: Node, i: nat, u: Node, gap: int)
      requires u != x && i < |u.level| && |x.level| == x.height
      modifies u`level, x`level
      ensures u.level == old(u.level)[i :=
        if i < x.height then Link(x, gap + 1) else Link(old(u.level)[i].forward, old(u.level)[i].span + 1)]
      ensures x.level == if i < x.height
        then old(x.level)[i := Link(old(u.level)[i].forward, old(u.level)[i].span - gap)]
        else old(x.level)
    {
      var link := u.level[i];
      if i < x.height {
        x.level := x.level[i := Link(link.forward, link.span - gap)];
        u.level := u.level[i := Link(x, gap + 1)];
      } else {
        u.level := u.level[i := Link(link.forward, link.span + 1)];
      }
    }

    lemma NodesDistinct()
      requires Linked()
      ensures forall i, j :: 0 <= i < j < |nodes| ==> nodes[i] != nodes[j]
      ensures forall p :: 0 <= p < |nodes| ==> RowOk(nodes, p, nodes[p].level, level)
    {
    }

    /** Rows of the old nodes with their first `i` levels spliced. */
    ghost predicate RowsSplicedTo(rows: seq<seq<Link>>, i: nat, rank: seq<nat>, x: Node)
      reads this, nodes
      requires |rank| == MAXLEVEL >= level > 0
    {
      |rows| == |nodes| && forall p :: 0 <= p < |nodes| ==> nodes[p].level == SplicedTo(rows[p], p, i, rank, x, level)
    }

    /** One round of the splice loop. */
    method SpliceRound(x: Node, i: nat, u: Node, rank: seq<nat>, ghost rows: seq<seq<Link>>)
      requires x !in nodes && |x.level| == x.height && |rank| == MAXLEVEL >= level > i
      requires forall i, j :: 0 <= i < j < |nodes| ==> nodes[i] != nodes[j]
      requires RowsSplicedTo(rows, i, rank, x)
      requires rank[i] < |nodes| && u == nodes[rank[i]] && i < |rows[rank[i]]|
      modifies u`level, x`level
      ensures RowsSplicedTo(rows, i + 1, rank, x)
      ensures |x.level| == x.height && (i < x.height ==> NewLink(rows, rank, i, x.level[i]))
      ensures forall j :: 0 <= j < x.height && j != i ==> x.level[j] == old(x.level)[j]
    {
      hide SplicedTo, Spliced, NewLink, Gap;
      var r := rank[i];
      SplicedNow(rows, r, i, rank, x, level);
      SpliceLevel(x, i, u, Gap(rank, i));
      forall p | 0 <= p < |nodes| ensures nodes[p].level == SplicedTo(rows[p], p, i + 1, rank, x, level) {
        SplicedOneMore(rows[p], p, i, rank, x, level);
      }
    }

    /** The backward links of all nodes. */
    ghost function Backs(): (backs: seq<Node?>)
      reads this, nodes
      ensures |backs| == |nodes| && forall p :: 0 <= p < |nodes| ==> backs[p] == nodes[p].backward
    {
      seq(|nodes|, p requires 0 <= p < |nodes| reads this, nodes => nodes[p].backward)
    }

    /** The link arrays of all nodes. */
    ghost function Rows(): (rows: seq<seq<Link>>)
      reads this, nodes
      ensures |rows| == |nodes| && forall p :: 0 <= p < |nodes| ==> rows[p] == nodes[p].level
    {
      seq(|nodes|, p requires 0 <= p < |nodes| reads this, nodes => nodes[p].level)
    }

    /** The part of slInsert that cuts the new node into the chains of its levels
        and stretches the links above it. */
    method Splice(x: Node, update: seq<Node>, rank: seq<nat>)
      requires x !in nodes && |x.level| == x.height && |rank| == |update| == MAXLEVEL >= level > 0
      requires forall i, j :: 0 <= i < j < |nodes| ==> nodes[i] != nodes[j]
      requires forall i :: 0 <= i < level ==>
        rank[i] < |nodes| && update[i] == nodes[rank[i]] && i < |nodes[rank[i]].level|
      modifies nodes`level, x`level
      ensures RowsSplicedTo(old(Rows()), level, rank, x)
      ensures |x.level| == x.height
      ensures forall j :: 0 <= j < x.height && j < level ==> NewLink(old(Rows()), rank, j, x.level[j])
    {
      hide SplicedTo, Spliced, NewLink, Gap;
      ghost var rows := Rows();
      forall p | 0 <= p < |nodes| ensures SplicedTo(rows[p], p, 0, rank, x, level) == rows[p] {
        SplicedNone(rows[p], p, rank, x, level);
      }
      var i := 0;
      while i < level
        invariant 0 <= i <= level
        invariant |x.level| == x.height && RowsSplicedTo(rows, i, rank, x)
        invariant forall j :: 0 <= j < x.height && j < i ==> NewLink(rows, rank, j, x.level[j])
      {
        SpliceRound(x, i, update[i], rank, rows);
        i := i + 1;
      }
    }

    /** After the splice all link arrays are right for the longer list. */
    lemma SpliceResult(x: Node, P: nat, update: seq<Node>, rank: seq<nat>, rows: seq<seq<Link>>)
      requires Towers(nodes, header, level) && P < |nodes| && 0 < x.height <= level
      requires Stops(nodes, P, 0, level, update, rank) && rank[0] == P
      requires |rows| == |nodes| && forall p :: 0 <= p < |nodes| ==> RowOk(nodes, p, rows[p], level)
      requires RowsSplicedTo(rows, level, rank, x) && |x.level| == x.height
      requires forall j :: 0 <= j < x.height ==> NewLink(rows, rank, j, x.level[j])
      ensures RowOk(WithNode(nodes, P, x), P + 1, x.level, level)
      ensures forall p :: 0 <= p < |nodes| ==>
        RowOk(WithNode(nodes, P, x), if p <= P then p else p + 1, nodes[p].level, level)
    {
      hide Stops, RowOk, SplicedTo, Spliced, NewLink, Gap;
      StopsAt(nodes, P, level, update, rank, 0);
      NewRow(nodes, P, x, level, update, rank, rows, x.level);
      forall p | 0 <= p < |nodes|
        ensures RowOk(WithNode(nodes, P, x), if p <= P then p else p + 1, nodes[p].level, level)
      {
        SplicedAll(rows[p], p, rank, x, level);
        SplicedRow(nodes, P, x, level, update, rank, p, rows[p], nodes[p].level);
      }
    }

    /** The backward links around a new node. */
    method LinkBack(x: Node, ghost P: nat, before: Node, next: Node?)
      requires |nodes| > 0 && nodes[0] == header && P < |nodes| && before == nodes[P]
      requires var nodes' := WithNode(nodes, P, x);
        && (forall i, j :: 0 <= i < j < |nodes'| ==> nodes'[i] != nodes'[j])
        && next == At(nodes', P + 2)
      modifies x`backward, nodes`backward
      ensures var nodes' := WithNode(nodes, P, x);
        forall p :: 0 <= p < |nodes'| ==> nodes'[p].backward == AttachedBack(nodes, P, x, old(Backs()), p)
    {
      ghost var nodes', backs := WithNode(nodes, P, x), Backs();
      assert nodes'[P] == before && nodes'[0] == header && nodes'[P + 1] == x;
      x.backward := if before == header then null else before;
      if next != null {
        next.backward := x;
      }
      forall p | 0 <= p < |nodes'|
        ensures nodes'[p].backward == AttachedBack(nodes, P, x, backs, p)
      {
        if p <= P {
          assert nodes'[p] == nodes[p] && nodes'[p] != x && nodes'[p] != next;
        } else if p > P + 1 {
          assert nodes'[p] == nodes[p - 1] && nodes'[p] != x && (p > P + 2 ==> nodes'[p] != next);
        }
      }
    }

    /** The part of slInsert that sets the backward links, the tail and the length. */
    method Attach(x: Node, ghost P: nat, before: Node)
      requires |nodes| > 0 && nodes[0] == header && P < |nodes| && x !in nodes && before == nodes[P]
      requires Towers(WithNode(nodes, P, x), header, level) && length == |nodes| - 1
      requires RowOk(WithNode(nodes, P, x), P + 1, x.level, level)
      requires forall p :: 0 <= p < |nodes| ==>
        RowOk(WithNode(nodes, P, x), if p <= P then p else p + 1, nodes[p].level, level)
      requires forall p :: 0 <= p < |nodes| ==> BackwardOk(nodes, p, nodes[p].backward)
      requires tail == Last(nodes)
      requires level > 1 ==> Next(Heights(WithNode(nodes, P, x)), 0, level - 1) <= |nodes|
      modifies this`tail, this`length, this`nodes, x`backward, nodes`backward
      ensures Valid() && nodes == WithNode(old(nodes), P, x)
    {
      hide Next, RowOk, Heights, Towers, BackwardOk, AttachedBack, WithNode, Last;
      ghost var nodes' := WithNode(nodes, P, x);
      WithAt(nodes, P, x);
      TowersDistinct(nodes', header, level);
      AttachedLink(nodes', P + 1, x.level, level, header);
      AttachedBacks(nodes, P, x, Backs());
      var next := x.level[0].forward;
      LinkBack(x, P, before, next);
      if next == null {
        tail := x;
      }
      length := length + 1;
      forall p | 0 <= p < |nodes'| ensures RowOk(nodes', p, nodes'[p].level, level) {
        if p <= P { assert nodes'[p] == nodes[p]; }
        if p > P + 1 { assert nodes'[p] == nodes[p - 1]; }
      }
      nodes := nodes';
    }

    /** The part of slInsert before the node is made: descend, and raise the level. */
    method FindPlace(e: Entry, lvl: nat) returns (update: seq<Node>, rank: seq<nat>)
      requires Valid() && 1 <= lvl <= MAXLEVEL
      modifies this`level, header`level
      ensures Linked() && lvl <= level && (level == lvl || Next(Heights(nodes), 0, level - 1) < |nodes| || level == 1)
      ensures |update| == |rank| == MAXLEVEL
      ensures var P := CountBefore(Entries(nodes), e);
        Stops(nodes, P, 0, level, update, rank) && rank[0] == P && update[0] == nodes[P]
      ensures forall i :: 0 <= i < level ==>
        rank[i] < |nodes| && update[i] == nodes[rank[i]] && i < |nodes[rank[i]].level|
    {
      hide Next, Sorted, CountBefore, Stops, RowOk, Towers, Heights, BackwardOk, LinkOk;
      Basics();
      update, rank := Descend(e);
      ghost var P := CountBefore(Entries(nodes), e);
      if lvl > level {
        update, rank := RaiseLevel(lvl, P, update, rank);
      }
      BottomStop(nodes, header, level, P, update, rank);
      NodesDistinct();
      forall i | 0 <= i < level
        ensures rank[i] < |nodes| && update[i] == nodes[rank[i]] && i < |nodes[rank[i]].level|
      {
        StopsAt(nodes, P, level, update, rank, i);
        RowLength(nodes, rank[i], nodes[rank[i]].level, level);
      }
    }

    /** The part of slInsert that links in the new node at the place found. */
    method PlaceNode(x: Node, update: seq<Node>, rank: seq<nat>, ghost P: nat)
      requires Linked() && tail == Last(nodes) && 1 <= x.height <= level && |x.level| == x.height
      requires forall p :: 0 <= p < |nodes| ==> BackwardOk(nodes, p, nodes[p].backward)
      requires x.height == level || Next(Heights(nodes), 0, level - 1) < |nodes| || level == 1
      requires x !in nodes && EntryOf(x) !in Entries(nodes) && P == CountBefore(Entries(nodes), EntryOf(x))
      requires |update| == |rank| == MAXLEVEL
      requires Stops(nodes, P, 0, level, update, rank) && rank[0] == P && update[0] == nodes[P]
      requires forall i :: 0 <= i < level ==>
        rank[i] < |nodes| && update[i] == nodes[rank[i]] && i < |nodes[rank[i]].level|
      modifies this`tail, this`length, this`nodes, x, nodes
      ensures Valid() && P < |old(nodes)| && nodes == WithNode(old(nodes), P, x)
    {
      hide Next, Sorted, CountBefore, Stops, RowOk, Towers, Heights, SkipList.RowsSplicedTo, NewLink, BackwardOk,
           LinkOk, Entries, Inserted;
      Basics();
      NodesDistinct();
      ghost var rows := Rows();
      Splice(x, update, rank);
      SpliceResult(x, P, update, rank, rows);
      TowersWith(nodes, header, level, x);
      if level > 1 { TopWith(nodes, P, x, level); }
      Attach(x, P, update[0]);
    }

    /** slInsert with the level the random draw chose. */
    method Insert(score: real, obj: Bytes, lvl: nat)
      requires Valid() && 1 <= lvl <= MAXLEVEL && Entry(score, obj) !in Contents()
      modifies this, nodes
      ensures Valid() && Contents() == Inserted(old(Contents()), Entry(score, obj))
      ensures header == old(header) && forall n :: n in nodes ==> n in old(nodes) || fresh(n)
    {
      hide Next, Sorted, CountBefore, Stops, RowOk, Heights, BackwardOk, LinkOk, Entries, Inserted, Towers;
      var e := Entry(score, obj);
      Basics();
      var update, rank := FindPlace(e, lvl);
      Basics();
      var x := new Node(lvl, score, obj);
      StillTowers();
      TowersWith(nodes, header, level, x);
      WithNodeIn(nodes, CountBefore(Entries(nodes), e), x);
      hide SkipList.Linked, SkipList.Valid, WithNode;
      PlaceNode(x, update, rank, CountBefore(Entries(nodes), e));
    }

    lemma WithNodeIn(nodes: seq<Node>, P: nat, x: Node)
      requires P < |nodes|
      ensures WithNode(nodes, P, x) != [] && forall n :: n in WithNode(nodes, P, x) ==> n in nodes || n == x
    {
    }

    lemma StillTowers()
      requires Linked()
      ensures Towers(nodes, header, level)
    {
    }

    // ---- Deletion -----------------------------------------------------------

    /** Rows of all nodes but the deleted one with their first `i` levels cut. */
    ghost predicate RowsCutTo(rows: seq<seq<Link>>, i: nat, rank: seq<nat>, t: nat)
      reads this, nodes
      requires |rank| == MAXLEVEL >= level > 0 && t < |nodes|
    {
      && |rows| == |nodes|
      && nodes[t].level == rows[t]
      && forall p :: 0 <= p < |nodes| && p != t ==>
          nodes[p].level == CutTo(rows[p], p, i, rank, nodes[t], rows[t], level)
    }

    /** One round of the loop of slDeleteNode. */
    method CutRound(i: nat, u: Node, ghost rank: seq<nat>, ghost rows: seq<seq<Link>>, x: Node, ghost t: nat)
      requires |rank| == MAXLEVEL >= level > i && t < |nodes| && x == nodes[t]
      requires forall i, j :: 0 <= i < j < |nodes| ==> nodes[i] != nodes[j]
      requires RowsCutTo(rows, i, rank, t)
      requires rank[i] < |nodes| && rank[i] != t && u == nodes[rank[i]] && i < |u.level|
      requires u.level[i].forward == x ==> i < |x.level|
      modifies u`level
      ensures RowsCutTo(rows, i + 1, rank, t)
    {
      hide CutTo;
      forall p | 0 <= p < |nodes| {
        CutToFacts(rows[p], p, i, rank, nodes[t], rows[t], level);
      }
      var link := u.level[i];
      if link.forward == x {
        u.level := u.level[i := Link(x.level[i].forward, link.span + (x.level[i].span - 1))];
      } else {
        u.level := u.level[i := Link(link.forward, link.span - 1)];
      }
    }

    /** The link loop of slDeleteNode. */
    method CutLevels(x: Node, update: seq<Node>, ghost rank: seq<nat>, ghost P: nat)
      requires Linked() && P + 1 < |nodes| && x == nodes[P + 1]
      requires |update| == MAXLEVEL && Stops(nodes, P, 0, level, update, rank)
      modifies nodes`level
      ensures RowOk(WithoutNode(nodes, P + 1), 0, header.level, level)
      ensures forall p :: 0 <= p < |nodes| && p != P + 1 ==>
        RowOk(WithoutNode(nodes, P + 1), if p <= P then p else p - 1, nodes[p].level, level)
      ensures x.level == old(x.level)
    {
      hide SkipList.Linked, Stops, RowOk, CutTo, Cut;
      Basics();
      NodesDistinct();
      ghost var rows := Rows();
      CutReady(P, update, rank, rows);
      var i := 0;
      while i < level
        invariant 0 <= i <= level
        invariant RowsCutTo(rows, i, rank, P + 1)
      {
        CutToFacts(rows[rank[i]], rank[i], i, rank, x, rows[P + 1], level);
        CutRound(i, update[i], rank, rows, x, P + 1);
        i := i + 1;
      }
      CutResult(P, update, rank, rows);
      assert nodes[0] == header;
    }

    lemma CutReady(P: nat, update: seq<Node>, rank: seq<nat>, rows: seq<seq<Link>>)
      requires Linked() && P + 1 < |nodes| && rows == Rows()
      requires Stops(nodes, P, 0, level, update, rank)
      ensures |rank| == |update| == MAXLEVEL
      ensures RowsCutTo(rows, 0, rank, P + 1)
      ensures forall i :: 0 <= i < level ==>
        rank[i] <= P && update[i] == nodes[rank[i]] && i < |rows[rank[i]]|
        && (rows[rank[i]][i].forward == nodes[P + 1] ==> i < |rows[P + 1]|)
    {
      hide SkipList.Linked, Stops, RowOk, CutTo, Cut;
      Basics();
      NodesDistinct();
      StopsAt(nodes, P, level, update, rank, 0);
      forall p | 0 <= p < |nodes| {
        CutToFacts(rows[p], p, 0, rank, nodes[P + 1], rows[P + 1], level);
      }
      forall i | 0 <= i < level
        ensures rank[i] <= P && update[i] == nodes[rank[i]] && i < |rows[rank[i]]|
        ensures rows[rank[i]][i].forward == nodes[P + 1] ==> i < |rows[P + 1]|
      {
        StopsAt(nodes, P, level, update, rank, i);
        RowLength(nodes, rank[i], rows[rank[i]], level);
        RowLength(nodes, P + 1, rows[P + 1], level);
        ReachedFrom(nodes, rank[i], i, rows[rank[i]], level, P + 1);
      }
    }

    lemma CutResult(P: nat, update: seq<Node>, rank: seq<nat>, rows: seq<seq<Link>>)
      requires P + 1 < |nodes| && Stops(nodes, P, 0, level, update, rank) && 0 < level <= MAXLEVEL
      requires forall i, j :: 0 <= i < j < |nodes| ==> nodes[i] != nodes[j]
      requires |rows| == |nodes| && forall p :: 0 <= p < |nodes| ==> RowOk(nodes, p, rows[p], level)
      requires |rank| == MAXLEVEL && RowsCutTo(rows, level, rank, P + 1)
      ensures forall p :: 0 <= p < |nodes| && p != P + 1 ==>
        RowOk(WithoutNode(nodes, P + 1), if p <= P then p else p - 1, nodes[p].level, level)
    {
      hide Stops, RowOk, CutTo, Cut;
      forall p | 0 <= p < |nodes| && p != P + 1
        ensures RowOk(WithoutNode(nodes, P + 1), if p <= P then p else p - 1, nodes[p].level, level)
      {
        CutAll(rows[p], p, rank, nodes[P + 1], rows[P + 1], level);
        CutRow(nodes, P, level, update, rank, rows[P + 1], p, rows[p], nodes[p].level);
      }
    }

    /** The part of slDeleteNode that repairs the backward link and the tail; the
        deleted node leaves the ghost sequence. */
    method Detach(x: Node, ghost P: nat)
      requires Towers(nodes, header, level) && P + 1 < |nodes| && x == nodes[P + 1] && length == |nodes| - 1
      requires forall p :: 0 <= p < |nodes| && p != P + 1 ==>
        RowOk(WithoutNode(nodes, P + 1), if p <= P then p else p - 1, nodes[p].level, level)
      requires |x.level| > 0 && x.level[0].forward == At(nodes, P + 2)
      requires forall p :: 0 <= p < |nodes| ==> BackwardOk(nodes, p, nodes[p].backward)
      requires tail == Last(nodes)
      modifies this`tail, this`nodes, this`length, nodes`backward
      ensures Linked() && nodes == WithoutNode(old(nodes), P + 1) && tail == Last(nodes)
      ensures forall p :: 0 <= p < |nodes| ==> BackwardOk(nodes, p, nodes[p].backward)
      ensures header == nodes[0]
    {
      hide RowOk, BackwardOk, Towers, DetachedBack, WithoutNode, Last;
      ghost var nodes' := WithoutNode(nodes, P + 1);
      WithoutAt(nodes, P + 1);
      TowersDistinct(nodes, header, level);
      TowersWithout(nodes, header, level, P + 1);
      TowersDistinct(nodes', header, level);
      DetachedBacks(nodes, P, Backs());
      var next := x.level[0].forward;
      UnlinkBack(x, P, next);
      if next == null {
        tail := x.backward;
      }
      length := length - 1;
      forall p | 0 <= p < |nodes'| ensures RowOk(nodes', p, nodes'[p].level, level) {
        assert nodes'[p] == nodes[if p < P + 1 then p else p + 1];
      }
      nodes := nodes';
    }

    /** The backward links around a deleted node. */
    method UnlinkBack(x: Node, ghost P: nat, next: Node?)
      requires P + 1 < |nodes| && x == nodes[P + 1] && next == At(nodes, P + 2)
      requires forall i, j :: 0 <= i < j < |nodes| ==> nodes[i] != nodes[j]
      modifies nodes`backward
      ensures x.backward == old(x.backward)
      ensures var nodes' := WithoutNode(nodes, P + 1);
        forall p :: 0 <= p < |nodes'| ==> nodes'[p].backward == DetachedBack(nodes, P, old(Backs()), p)
    {
      ghost var nodes', backs := WithoutNode(nodes, P + 1), Backs();
      if next != null {
        next.backward := x.backward;
      }
      forall p | 0 <= p < |nodes'|
        ensures nodes'[p].backward == DetachedBack(nodes, P, backs, p)
      {
        assert nodes'[p] == nodes[if p <= P then p else p + 1] && (p != P + 1 ==> nodes'[p] != next);
      }
    }

    /** The end of slDeleteNode: give up levels no tower reaches any more. */
    method LowerLevel(ghost P: nat, ghost update: seq<Node>, ghost rank: seq<nat>)
      requires Linked() && tail == Last(nodes)
      requires forall p :: 0 <= p < |nodes| ==> BackwardOk(nodes, p, nodes[p].backward)
      requires Stops(nodes, P, 0, level, update, rank)
      modifies this`level
      ensures Valid() && level <= old(level)
      ensures Stops(nodes, P, 0, level, update, rank)
    {
      hide RowOk, BackwardOk, Towers, LastAt;
      Basics();
      NodesDistinct();
      while level > 1 && (TopUnused(nodes, header, level, header.level); header.level[level - 1].forward == null)
        invariant Linked() && level <= old(level)
        invariant Stops(nodes, P, 0, level, update, rank)
        decreases level
      {
        level := level - 1;
      }
    }

    /** slDeleteNode: takes out the node behind the gap the update array marks.
        The array then marks the same gap in the shorter list. */
    method DeleteNode(x: Node, update: seq<Node>, ghost rank: seq<nat>, ghost P: nat)
      requires Valid() && P + 1 < |nodes| && x == nodes[P + 1]
      requires Stops(nodes, P, 0, level, update, rank)
      modifies this, nodes
      ensures Valid() && header == old(header)
      ensures nodes == WithoutNode(old(nodes), P + 1)
      ensures forall n :: n in nodes ==> n in old(nodes)
      ensures Contents() == Removed(old(Contents()), P)
      ensures Stops(nodes, P, 0, level, update, rank)
    {
      hide RowOk, BackwardOk, Towers, LastAt, Stops, Next;
      Basics();
      NodesDistinct();
      StopsAt(nodes, P, level, update, rank, 0);
      NodeHeight(P + 1);
      AttachedLink(nodes, P + 1, x.level, level, header);
      CutLevels(x, update, rank, P);
      TowersWithout(nodes, header, level, P + 1);
      StopsWithout(nodes, P, level, update, rank);
      Detach(x, P);
      LowerLevel(P, update, rank);
    }

    lemma NodeHeight(p: nat)
      requires Linked() && 0 < p < |nodes|
      ensures 1 <= nodes[p].height <= level && |nodes[p].level| == nodes[p].height
    {
      assert RowOk(nodes, p, nodes[p].level, level);
    }

    /** slDelete: removes the entry if it is there. */
    method Delete(score: real, obj: Bytes) returns (ok: bool)
      requires Valid()
      modifies this, nodes
      ensures Valid() && header == old(header)
      ensures ok == (Entry(score, obj) in old(Contents()))
      ensures ok ==>
        var P := CountBefore(old(Contents()), Entry(score, obj));
        P < |old(Contents())| && Contents() == Removed(old(Contents()), P)
      ensures !ok ==> Contents() == old(Contents())
      ensures forall n :: n in nodes ==> n in old(nodes)
    {
      hide RowOk, BackwardOk, LastAt, Stops, Next, Sorted, CountBefore, Towers, Removed, CompareObj, Heights, WithoutNode;
      Basics();
      var e := Entry(score, obj);
      ghost var P := CountBefore(Entries(nodes), e);
      var update, rank := Descend(e);
      BottomStop(nodes, header, level, P, update, rank);
      MemberIsNext(Entries(nodes), e);
      NodesDistinct();
      NodeAfter(P);
      var x := update[0].level[0].forward;
      if x != null && score == x.score && CompareObj(x.obj, obj) == 0 {
        CompareAntisymmetric(x.obj, obj);
        DeleteNode(x, update, rank, P);
        return true;
      }
      if x != null { CompareAntisymmetric(x.obj, obj); }
      return false;
    }

    /** The level-0 link of a position leads to the next entry. */
    lemma NodeAfter(p: nat)
      requires Linked() && p < |nodes|
      ensures |nodes[p].level| > 0 && nodes[p].level[0].forward == At(nodes, p + 1)
      ensures p + 1 < |nodes| ==> EntryOf(nodes[p + 1]) == Entries(nodes)[p]
    {
      assert RowOk(nodes, p, nodes[p].level, level);
      assert LinkOk(nodes, p, 0, nodes[p].level[0]);
      if p + 1 < |nodes| { NextUnique(Heights(nodes), p, 0, p + 1); }
    }

    // ---- Deletion by rank ---------------------------------------------------

    /** The walk of slDeleteByRank along one level, over ranks below `start`. */
    method WalkBelowRank(from: nat, x: Node, i: nat, start: nat, ghost P: nat) returns (traversed: nat, y: Node)
      requires Linked() && i < level && P == if start == 0 then 0 else Min(start - 1, |nodes| - 1)
      requires from <= P && from < |nodes| && x == nodes[from] && i < x.height
      ensures traversed < |nodes| && y == nodes[traversed] && i < y.height
      ensures LastAt(Heights(nodes), P, i, traversed)
    {
      hide SkipList.Linked, Next, Sorted, Heights, LastAt;
      traversed, y := from, x;
      Follow(traversed, i);
      while y.level[i].forward != null && traversed + y.level[i].span < start
        invariant traversed <= P < |nodes| && y == nodes[traversed] && i < nodes[traversed].height
        invariant i < |y.level| && Leads(traversed, i, y.level[i])
        decreases |nodes| - traversed
      {
        traversed, y := traversed + y.level[i].span, y.level[i].forward;
        Follow(traversed, i);
      }
      LastAtHere(nodes, P, i, traversed);
    }

    /** The descent of slDeleteByRank: the last node of rank below `start` on every level. */
    method DescendByRank(start: nat) returns (update: seq<Node>, ghost rank: seq<nat>, traversed: nat)
      requires Linked()
      ensures traversed == if start == 0 then 0 else Min(start - 1, |nodes| - 1)
      ensures |update| == |rank| == MAXLEVEL && traversed < |nodes|
      ensures Stops(nodes, traversed, 0, level, update, rank) && update[0] == nodes[traversed]
    {
      hide SkipList.Linked, Next, Sorted, Towers, Heights;
      Basics();
      StillTowers();
      ghost var P: nat := if start == 0 then 0 else Min(start - 1, |nodes| - 1);
      var h := header;
      var x := h;
      traversed := 0;
      update, rank := seq(MAXLEVEL, _ => h), seq(MAXLEVEL, _ => 0);
      var i := level;
      while i > 0
        invariant 0 <= i <= level
        invariant traversed <= P && x == nodes[traversed] && x.height >= i
        invariant Stops(nodes, P, i, level, update, rank)
        invariant i < level ==> rank[i] == traversed
      {
        i := i - 1;
        traversed, x := WalkBelowRank(traversed, x, i, start, P);
        update, rank := update[i := x], rank[i := traversed];
      }
      BottomStop(nodes, header, level, P, update, rank);
    }

    /** One round of the loop of slDeleteByRank: delete the node behind the gap
        and move on to the node that takes its place. */
    method DeleteNext(x: Node, update: seq<Node>, ghost rank: seq<nat>, ghost P: nat) returns (next: Node?)
      requires Valid() && P + 1 < |nodes| && x == nodes[P + 1] && Stops(nodes, P, 0, level, update, rank)
      modifies this, nodes
      ensures Valid() && header == old(header) && Stops(nodes, P, 0, level, update, rank)
      ensures P < |old(Contents())| && x.obj == old(Contents())[P].obj
      ensures Contents() == Removed(old(Contents()), P) && |nodes| == |old(nodes)| - 1
      ensures next == At(nodes, P + 1)
      ensures forall n :: n in nodes ==> n in old(nodes)
    {
      hide RowOk, BackwardOk, LastAt, Stops, Next, Sorted, Towers, Heights, WithoutNode;
      Basics();
      NodeAfter(P);
      NodeAfter(P + 1);
      next := x.level[0].forward;
      WithoutAt(nodes, P + 1);
      DeleteNode(x, update, rank, P);
    }

    /** slDeleteByRank: takes out the slice of ranks [start, end], clipped to the
        list, and hands the members to the callback in order. */
    method DeleteByRank(start: nat, end: nat) returns (removed: nat, called: seq<Bytes>)
      requires Valid()
      modifies this, nodes
      ensures Valid() && header == old(header)
      ensures var s := old(Contents());
        var lo: nat := if start == 0 then 0 else Min(start - 1, |s|);
        var hi: nat := if Min(end, |s|) < lo then lo else Min(end, |s|);
        && Contents() == Sliced(s, lo, hi)
        && removed == hi - lo == |called|
        && forall k :: 0 <= k < removed ==> called[k] == s[lo + k].obj
      ensures forall n :: n in nodes ==> n in old(nodes)
    {
      hide SkipList.Valid, SkipList.Linked, Stops, SkipList.Contents, Sliced, Removed;
      ContentsLength();
      ghost var s := Contents();
      var update, rank, traversed := DescendByRank(start);
      ghost var lo := traversed;
      NodeAfter(traversed);
      SlicedMore(s, lo, lo);
      var x := update[0].level[0].forward;
      traversed := traversed + 1;
      removed, called := 0, [];
      while x != null && traversed <= end
        invariant Valid() && header == old(header) && |nodes| == |s| + 1 - removed
        invariant removed == |called| && traversed == lo + removed + 1
        invariant lo + removed <= |s| && Contents() == Sliced(s, lo, lo + removed)
        invariant forall k :: 0 <= k < removed ==> called[k] == s[lo + k].obj
        invariant Stops(nodes, lo, 0, level, update, rank)
        invariant x == At(nodes, lo + 1)
        invariant removed == 0 || lo + removed <= end
        invariant forall n :: n in nodes ==> n in old(nodes)
        decreases |s| - removed
      {
        SlicedMore(s, lo, lo + removed);
        assert forall i :: 0 <= i < |nodes| ==> nodes[i] in old(nodes);
        var next := DeleteNext(x, update, rank, lo);
        called := called + [x.obj];
        removed := removed + 1;
        traversed := traversed + 1;
        x := next;
      }
    }

    lemma ContentsLength()
      requires Valid()
      ensures Linked() && |nodes| > 0 && |Contents()| == |nodes| - 1
    {
    }

    // ---- Queries ------------------------------------------------------------

    /** The walk of slGetRank along one level. */
    method WalkUpTo(from: nat, x: Node, i: nat, e: Entry) returns (rank: nat, y: Node)
      requires Linked() && i < level
      requires from <= CountUpTo(Entries(nodes), e) && from < |nodes| && x == nodes[from] && i < x.height
      ensures rank < |nodes| && y == nodes[rank] && i < y.height
      ensures LastAt(Heights(nodes), CountUpTo(Entries(nodes), e), i, rank)
    {
      hide SkipList.Linked, Next, Sorted, CountUpTo, Before, AtOrBefore, CompareObj, Heights, LastAt;
      Basics();
      ghost var Q := CountUpTo(Entries(nodes), e);
      CountUpToSplits(Entries(nodes), e);
      rank, y := from, x;
      Follow(rank, i);
      while y.level[i].forward != null && AtOrBefore(EntryOf(y.level[i].forward), e)
        invariant rank <= Q && y == nodes[rank] && i < nodes[rank].height
        invariant i < |y.level| && Leads(rank, i, y.level[i])
        decreases |nodes| - rank
      {
        rank, y := rank + y.level[i].span, y.level[i].forward;
        Follow(rank, i);
      }
      LastAtHere(nodes, Q, i, rank);
    }

    /** slGetRank */
    method GetRank(score: real, obj: Bytes) returns (rank: nat)
      requires Valid()
      ensures RankAnswer(nodes, CountUpTo(Contents(), Entry(score, obj)), obj, rank)
    {
      hide SkipList.Linked, Next, Sorted, CountUpTo, CompareObj, Heights, LastAt, Visible, SkipList.Contents;
      RankBasics();
      var e := Entry(score, obj);
      ghost var Q := CountUpTo(Contents(), e);
      var x := header;
      rank := 0;
      var i := level;
      while i > 0
        invariant 0 <= i <= level
        invariant rank <= Q < |nodes| && x == nodes[rank] && nodes[rank].height >= i
        invariant forall p :: 0 < p < |nodes| && nodes[p].height > i && Visible(nodes, Q, p) ==> nodes[p].obj != obj
      {
        i := i - 1;
        rank, x := WalkUpTo(rank, x, i, e);
        StopsAreVisible(nodes, Q, i, rank);
        CompareAntisymmetric(x.obj, obj);
        if x != header && CompareObj(x.obj, obj) == 0 {
          return rank;
        }
      }
      return 0;
    }

    lemma RankBasics()
      requires Valid()
      ensures |Heights(nodes)| == |nodes|
      ensures Linked() && |nodes| > 0 && nodes[0] == header && header.height == MAXLEVEL >= level
      ensures Contents() == Entries(nodes)
      ensures forall p :: 0 < p < |nodes| ==> nodes[p] != header && 1 <= nodes[p].height <= level
    {
    }

    /** slGetNodeByRank */
    method GetNodeByRank(rank: nat) returns (n: Node?)
      requires Valid()
      ensures n == null <==> rank == 0 || rank > length
      ensures n != null ==> rank <= |Contents()| && n == nodes[rank] && EntryOf(n) == Contents()[rank - 1]
    {
      hide SkipList.Linked, Next, Sorted, LastAt;
      RankBasics();
      Basics();
      if rank == 0 || rank > length {
        return null;
      }
      var x, traversed: nat := header, 0;
      var i := level;
      while i > 0
        invariant 0 <= i <= level
        invariant traversed < |nodes| && traversed <= rank && x == nodes[traversed] && x.height >= i
        invariant i < level ==> Next(Heights(nodes), traversed, i) > rank && traversed != rank
      {
        i := i - 1;
        traversed, x := WalkToRank(traversed, x, i, rank);
        if traversed == rank {
          return x;
        }
      }
      NextOnBottom(traversed);
      assert false;
    }

    /** The walk of slGetNodeByRank along one level. */
    method WalkToRank(from: nat, x: Node, i: nat, rank: nat) returns (traversed: nat, y: Node)
      requires Linked() && i < level
      requires from <= rank && from < |nodes| && x == nodes[from] && i < x.height && rank < |nodes|
      ensures traversed <= rank && traversed < |nodes| && y == nodes[traversed] && i < y.height
      ensures Next(Heights(nodes), traversed, i) > rank
    {
      hide SkipList.Linked, Next, Sorted, Heights;
      traversed, y := from, x;
      Follow(traversed, i);
      while y.level[i].forward != null && traversed + y.level[i].span <= rank
        invariant traversed <= rank && y == nodes[traversed] && i < nodes[traversed].height
        invariant i < |y.level| && Leads(traversed, i, y.level[i])
        decreases |nodes| - traversed
      {
        traversed, y := traversed + y.level[i].span, y.level[i].forward;
        Follow(traversed, i);
      }
    }

    lemma NextOnBottom(p: nat)
      requires Linked() && p < |nodes|
      ensures Next(Heights(nodes), p, 0) == p + 1
    {
      NextUnique(Heights(nodes), p, 0, p + 1);
    }

    /** Rank and select undo each other: the entry at a rank has that rank. */
    method RankOfSelected(rank: nat) returns (again: nat)
      requires Valid() && DistinctMembers(Contents())
      ensures again == if 1 <= rank <= |Contents()| then rank else 0
    {
      hide SkipList.Valid, SkipList.Linked, RankAnswer, SkipList.Contents, Sorted, DistinctMembers;
      RankBasics();
      Basics();
      var n := GetNodeByRank(rank);
      if n == null {
        return 0;
      }
      again := GetRank(n.score, n.obj);
      RankOfMember(nodes, rank - 1, again);
    }

    /** And the node at the rank of an entry is that entry's. */
    method SelectRanked(score: real, obj: Bytes) returns (n: Node?)
      requires Valid() && DistinctMembers(Contents()) && Entry(score, obj) in Contents()
      ensures n != null && EntryOf(n) == Entry(score, obj)
    {
      hide SkipList.Valid, SkipList.Linked, RankAnswer, SkipList.Contents, Sorted, DistinctMembers;
      RankBasics();
      Basics();
      var rank := GetRank(score, obj);
      ghost var k :| 0 <= k < |Contents()| && Contents()[k] == Entry(score, obj);
      RankOfMember(nodes, k, rank);
      n := GetNodeByRank(rank);
    }

    /** _get_rank_range of the Lua binding. The number of ranks is kept in an int, so from
        2^31 ranks on nothing is answered. */
    method RankRange(r1: Unsigned, r2: Unsigned) returns (out: seq<Bytes>)
      requires Valid()
      ensures out == if RangeLength(r1, r2) < INT_LIMIT then RanksFrom(Contents(), r1, r2) else []
    {
      hide SkipList.Valid, SkipList.Contents, Objs, ReverseObjs;
      var reverse := r1 > r2;
      var rangelen := Int32(RangeLength(r1, r2));
      if rangelen <= 0 {
        return [];
      }
      if !reverse {
        out := RanksUp(r1, rangelen);
      } else {
        out := RanksDown(r1, rangelen);
      }
    }

    method RanksUp(r: nat, rangelen: nat) returns (out: seq<Bytes>)
      requires Valid()
      ensures var s := Contents();
        out == if r == 0 || r > |s| then [] else Objs(s, r - 1, Min(r - 1 + rangelen, |s|))
    {
      hide SkipList.Valid, SkipList.Linked, SkipList.Contents, Objs, Sorted, Heights, ReverseObjs;
      RankBasics();
      Basics();
      ghost var s := Contents();
      var node := GetNodeByRank(r);
      out := [];
      if node == null {
        return;
      }
      ObjsGrow(s, r - 1, r - 1);
      var n := 0;
      while node != null && n < rangelen
        invariant 0 <= n <= rangelen && r - 1 + n <= |s| && node == At(nodes, r + n)
        invariant out == Objs(s, r - 1, r - 1 + n)
        decreases rangelen - n
      {
        Neighbours(r + n);
        ObjsGrow(s, r - 1, r + n - 1);
        n := n + 1;
        out := out + [node.obj];
        node := node.level[0].forward;
      }
    }

    method RanksDown(r: nat, rangelen: nat) returns (out: seq<Bytes>)
      requires Valid()
      ensures var s := Contents();
        out == if r == 0 || r > |s| then [] else ReverseObjs(Objs(s, if rangelen < r then r - rangelen else 0, r))
    {
      hide SkipList.Valid, SkipList.Linked, SkipList.Contents, Objs, Sorted, Heights, ReverseObjs;
      RankBasics();
      Basics();
      ghost var s := Contents();
      var node := GetNodeByRank(r);
      out := [];
      if node == null {
        return;
      }
      ObjsGrow(s, r, r);
      NoObjs();
      var n := 0;
      while node != null && n < rangelen
        invariant 0 <= n <= rangelen && n <= r && node == if n == r then null else nodes[r - n]
        invariant out == ReverseObjs(Objs(s, r - n, r))
        decreases rangelen - n
      {
        Neighbours(r - n);
        ObjsGrow(s, r - n, r);
        n := n + 1;
        out := out + [node.obj];
        node := node.backward;
      }
    }

    // ---- Score ranges -------------------------------------------------------

    lemma EndNodes()
      requires Valid() && |nodes| > 1
      ensures header.level != [] && header.level[0].forward == nodes[1] && tail == nodes[|nodes| - 1]
      ensures EntryOf(nodes[1]) == Contents()[0] && EntryOf(nodes[|nodes| - 1]) == Contents()[|Contents()| - 1]
    {
      hide Next, RowOk, Sorted, Heights, BackwardOk;
      ContentsLength();
      NodeAfter(0);
    }

    /** slIsInRange */
    method IsInRange(min: real, max: real) returns (b: bool)
      requires Valid()
      ensures b == EndsMeet(Contents(), min, max)
    {
      hide SkipList.Linked, Next, Sorted, Heights, LastAt;
      RankBasics();
      if |nodes| > 1 { EndNodes(); } else { NodeAfter(0); }
      if min > max {
        return false;
      }
      if tail == null || tail.score < min {
        return false;
      }
      var x := header.level[0].forward;
      if x == null || x.score > max {
        return false;
      }
      return true;
    }

    /** The walk of slFirstInRange along one level, out of the range. */
    method WalkBelow(ghost from: nat, x: Node, i: nat, min: real) returns (ghost p: nat, y: Node)
      requires Linked() && i < level && from <= CountBelow(Entries(nodes), min)
      requires from < |nodes| && x == nodes[from] && i < x.height
      ensures p <= CountBelow(Entries(nodes), min) && p < |nodes| && y == nodes[p] && i < y.height
      ensures Next(Heights(nodes), p, i) > CountBelow(Entries(nodes), min)
    {
      hide SkipList.Linked, Next, Sorted, CountBelow;
      Basics();
      CountBelowSplits(Entries(nodes), min);
      p, y := from, x;
      Follow(p, i);
      while y.level[i].forward != null && y.level[i].forward.score < min
        invariant p <= CountBelow(Entries(nodes), min) && p < |nodes| && y == nodes[p] && i < nodes[p].height
        invariant i < |y.level| && Leads(p, i, y.level[i])
        decreases |nodes| - p
      {
        p, y := Next(Heights(nodes), p, i), y.level[i].forward;
        Follow(p, i);
      }
    }

    /** The walk of slLastInRange along one level, while in the range. */
    method WalkAtMost(ghost from: nat, x: Node, i: nat, max: real) returns (ghost p: nat, y: Node)
      requires Linked() && i < level && from <= CountAtMost(Entries(nodes), max)
      requires from < |nodes| && x == nodes[from] && i < x.height
      ensures p <= CountAtMost(Entries(nodes), max) && p < |nodes| && y == nodes[p] && i < y.height
      ensures Next(Heights(nodes), p, i) > CountAtMost(Entries(nodes), max)
    {
      hide SkipList.Linked, Next, Sorted, CountAtMost;
      Basics();
      CountAtMostSplits(Entries(nodes), max);
      p, y := from, x;
      Follow(p, i);
      while y.level[i].forward != null && y.level[i].forward.score <= max
        invariant p <= CountAtMost(Entries(nodes), max) && p < |nodes| && y == nodes[p] && i < nodes[p].height
        invariant i < |y.level| && Leads(p, i, y.level[i])
        decreases |nodes| - p
      {
        p, y := Next(Heights(nodes), p, i), y.level[i].forward;
        Follow(p, i);
      }
    }

    /** slFirstInRange: the first entry whose score is not below `min`. */
    method FirstInRange(min: real, max: real) returns (r: Node?)
      requires Valid()
      ensures r == null <==> !EndsMeet(Contents(), min, max)
      ensures r != null ==>
        CountBelow(Contents(), min) < |Contents()| && r == nodes[CountBelow(Contents(), min) + 1]
    {
      hide SkipList.Valid, SkipList.Linked, Next, Sorted, CountBelow, SkipList.Contents, Heights, EndsMeet;
      RankBasics();
      Basics();
      var ok := IsInRange(min, max);
      if !ok {
        return null;
      }
      RangeEnds(Contents(), min, max);
      ghost var p: nat := 0;
      var x := header;
      var i := level;
      while i > 0
        invariant 0 <= i <= level
        invariant p <= CountBelow(Contents(), min) && p < |nodes| && x == nodes[p] && x.height >= i
        invariant i < level ==> Next(Heights(nodes), p, i) > CountBelow(Contents(), min)
      {
        i := i - 1;
        p, x := WalkBelow(p, x, i, min);
      }
      NextOnBottom(p);
      NodeAfter(p);
      return x.level[0].forward;
    }

    /** slLastInRange: the last entry whose score is not above `max`. */
    method LastInRange(min: real, max: real) returns (r: Node?)
      requires Valid()
      ensures r == null <==> !EndsMeet(Contents(), min, max)
      ensures r != null ==>
        0 < CountAtMost(Contents(), max) < |nodes| && r == nodes[CountAtMost(Contents(), max)]
    {
      hide SkipList.Valid, SkipList.Linked, Next, Sorted, CountAtMost, SkipList.Contents, Heights, EndsMeet;
      RankBasics();
      Basics();
      var ok := IsInRange(min, max);
      if !ok {
        return null;
      }
      RangeEnds(Contents(), min, max);
      ghost var p: nat := 0;
      var x := header;
      var i := level;
      while i > 0
        invariant 0 <= i <= level
        invariant p <= CountAtMost(Contents(), max) && p < |nodes| && x == nodes[p] && x.height >= i
        invariant i < level ==> Next(Heights(nodes), p, i) > CountAtMost(Contents(), max)
      {
        i := i - 1;
        p, x := WalkAtMost(p, x, i, max);
      }
      NextOnBottom(p);
      return x;
    }

    /** A node's neighbours along level 0 and backwards. */
    lemma Neighbours(p: nat)
      requires Valid() && 0 < p < |nodes|
      ensures nodes[p].level != [] && nodes[p].level[0].forward == At(nodes, p + 1)
      ensures nodes[p].backward == if p == 1 then null else nodes[p - 1]
      ensures EntryOf(nodes[p]) == Contents()[p - 1]
    {
      hide Next, RowOk, Towers, Sorted, Heights;
      NodeAfter(p);
      assert BackwardOk(nodes, p, nodes[p].backward);
    }

    /** _get_score_range of the Lua binding: its own test of each score makes up
        for what the two searches leave open. */
    method ScoreRange(s1: real, s2: real) returns (out: seq<Bytes>)
      requires Valid()
      ensures s1 <= s2 ==> out == Between(Contents(), s1, s2)
      ensures s1 > s2 ==> out == ReverseObjs(Between(Contents(), s2, s1))
    {
      if s1 <= s2 {
        out := ScoresUp(s1, s2);
      } else {
        out := ScoresDown(s2, s1);
      }
    }

    method ScoresUp(lo: real, hi: real) returns (out: seq<Bytes>)
      requires Valid()
      ensures out == Between(Contents(), lo, hi)
    {
      hide SkipList.Valid, SkipList.Linked, SkipList.Contents, Between, CountBelow, CountAtMost, EndsMeet, Objs, Sorted, Heights;
      RankBasics();
      Basics();
      ghost var s := Contents();
      ghost var f, l := CountBelow(s, lo), CountAtMost(s, hi);
      BetweenIsStretch(s, lo, hi);
      var node := FirstInRange(lo, hi);
      out := [];
      ghost var p := f + 1;
      ObjsGrow(s, f, f);
      if node == null { EndsApart(s, lo, hi); }
      while node != null
        invariant node == null || (f < p < |nodes| && node == nodes[p])
        invariant node == null && p == f + 1 ==> l <= f
        invariant f < p && p - 1 <= |s| && out == Objs(s, f, p - 1)
        invariant p > f + 1 ==> p - 1 <= l
        invariant node == null && p > f + 1 ==> p == |nodes|
        decreases |nodes| - p
      {
        Neighbours(p);
        ScoreTests(s, p - 1, lo, hi);
        if node.score > hi {
          break;
        }
        ObjsGrow(s, f, p - 1);
        out := out + [node.obj];
        node := node.level[0].forward;
        p := p + 1;
      }
    }

    method ScoresDown(lo: real, hi: real) returns (out: seq<Bytes>)
      requires Valid()
      ensures out == ReverseObjs(Between(Contents(), lo, hi))
    {
      hide SkipList.Valid, SkipList.Linked, SkipList.Contents, Between, CountBelow, CountAtMost, EndsMeet, Objs, Sorted, Heights;
      RankBasics();
      Basics();
      ghost var s := Contents();
      ghost var f, l := CountBelow(s, lo), CountAtMost(s, hi);
      BetweenIsStretch(s, lo, hi);
      var node := LastInRange(lo, hi);
      out := [];
      ghost var p := l;
      ObjsGrow(s, l, l);
      if f <= |s| { ObjsGrow(s, f, f); }
      if node == null { EndsApart(s, lo, hi); }
      while node != null
        invariant 0 <= p <= l
        invariant node != null ==> 0 < p && node == nodes[p]
        invariant node == null && p == l ==> l <= f
        invariant out == ReverseObjs(Objs(s, p, l))
        invariant p < l ==> f <= p
        invariant node == null && p < l ==> p == 0
        decreases p
      {
        Neighbours(p);
        ScoreTests(s, p - 1, lo, hi);
        if node.score < lo {
          break;
        }
        ObjsGrow(s, p, l);
        out := out + [node.obj];
        node := node.backward;
        p := p - 1;
      }
    }
  }
}
