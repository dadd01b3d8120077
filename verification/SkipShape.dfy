/** Where the links of a skip list go, given only the tower heights. Position 0
    is the header; position n is the n-th entry. */
module SkipShape {

  /** The next position whose tower reaches level `i`, or the end of the list. */
  function Next(H: seq<nat>, p: nat, i: nat): (q: nat)
    requires p < |H|
    ensures IsNext(H, p, i, q)
    decreases |H| - p
  {
    if p + 1 == |H| || H[p + 1] > i then p + 1 else Next(H, p + 1, i)
  }

  ghost predicate IsNext(H: seq<nat>, p: nat, i: nat, q: nat) {
    && p < q <= |H|
    && (q < |H| ==> H[q] > i)
    && forall r :: p < r < q ==> H[r] <= i
  }

  lemma NextUnique(H: seq<nat>, p: nat, i: nat, q: nat)
    requires p < |H| && IsNext(H, p, i, q)
    ensures q == Next(H, p, i)
  {
  }

  /** Where a descent towards the gap after position `P` leaves level `i`. */
  ghost predicate LastAt(H: seq<nat>, P: nat, i: nat, r: nat) {
    r <= P < |H| && H[r] > i && Next(H, r, i) > P
  }

  lemma LastAtUnique(H: seq<nat>, P: nat, i: nat, r: nat, p: nat)
    requires LastAt(H, P, i, r) && p <= P && H[p] > i && Next(H, p, i) > P
    ensures p == r
  {
  }

  // ---- Inserting a tower ----------------------------------------------------

  function With(H: seq<nat>, P: nat, h: nat): seq<nat>
    requires P < |H|
  {
    H[..P + 1] + [h] + H[P + 1..]
  }

  lemma NextWith(H: seq<nat>, P: nat, h: nat, p: nat, i: nat)
    requires P < |H| && p < |H|
    ensures var q := Next(H, p, i);
      if p > P then Next(With(H, P, h), p + 1, i) == q + 1
      else Next(With(H, P, h), p, i) == if q <= P then q else if h > i then P + 1 else q + 1
  {
    var q, G := Next(H, p, i), With(H, P, h);
    if p > P {
      NextUnique(G, p + 1, i, q + 1);
    } else {
      NextUnique(G, p, i, if q <= P then q else if h > i then P + 1 else q + 1);
    }
  }

  lemma NextOfNew(H: seq<nat>, P: nat, h: nat, r: nat, i: nat)
    requires LastAt(H, P, i, r)
    ensures Next(With(H, P, h), P + 1, i) == Next(H, r, i) + 1
  {
    NextUnique(With(H, P, h), P + 1, i, Next(H, r, i) + 1);
  }

  // ---- Deleting a tower -----------------------------------------------------

  function Without(H: seq<nat>, t: nat): seq<nat>
    requires t < |H|
  {
    H[..t] + H[t + 1..]
  }

  lemma NextWithout(H: seq<nat>, t: nat, p: nat, i: nat)
    requires 0 < t < |H| && p < |H| && p != t
    ensures var q := Next(H, p, i);
      if p > t then Next(Without(H, t), p - 1, i) == q - 1
      else Next(Without(H, t), p, i) == if q < t then q else if q == t then Next(H, t, i) - 1 else q - 1
  {
    var q, G := Next(H, p, i), Without(H, t);
    if p > t {
      NextUnique(G, p - 1, i, q - 1);
    } else {
      NextUnique(G, p, i, if q < t then q else if q == t then Next(H, t, i) - 1 else q - 1);
    }
  }

  /** Deleting the tower right after the gap leaves the descent where it was. */
  lemma LastAtWithout(H: seq<nat>, P: nat, i: nat, r: nat)
    requires LastAt(H, P, i, r) && P + 1 < |H|
    ensures LastAt(Without(H, P + 1), P, i, r)
  {
    NextWithout(H, P + 1, r, i);
  }

  /** Nothing reaches above the tallest tower. */
  lemma NextAboveAll(H: seq<nat>, p: nat, i: nat)
    requires p < |H| && forall q :: p < q < |H| ==> H[q] <= i
    ensures Next(H, p, i) == |H|
  {
    NextUnique(H, p, i, |H|);
  }
}
