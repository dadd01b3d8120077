/** How luaclib-src/cjson/strbuf.c chooses the size a string buffer grows to, in 32-bit
    integers that wrap when they are doubled. */
module StrbufGrowth {
  import opened Modular
  import Words

  /** How writing to a buffer ends. The program exits when it is asked for a size that is
      not one; the doubling may go on for ever; and an unchecked append does not notice
      when it finds no room. */
  datatype Outcome = Done | Exits | Endless | Outside

  /** A size doubled `k` times, as an int. */
  function Doubled(size: nat, k: nat): (r: int)
    ensures -INT_LIMIT <= r < INT_LIMIT
  {
    Int32(size * Words.Pow2(k))
  }

  /** The doubling does not arrive at `req`. */
  ghost predicate NeverReached(size: nat, req: int) {
    forall k: nat :: Doubled(size, k) < req
  }

  /** The first doubling that does. */
  ghost predicate FirstReached(size: nat, req: int, n: int) {
    exists k: nat :: n == Doubled(size, k) >= req && forall j: nat :: j < k ==> Doubled(size, j) < req
  }

  /** How asking a buffer of `size` bytes for room for `len` ends. */
  ghost function Growth(size: nat, len: int): (r: Outcome)
    ensures r != Outside
  {
    if len <= 0 || len + 1 == INT_LIMIT then Exits
    else if size <= len + 1 && NeverReached(size, len + 1) then Endless
    else Done
  }

  lemma TwiceInt32(x: int)
    ensures Int32(2 * Int32(x)) == Int32(2 * x)
  {
    var m := 2 * INT_LIMIT;
    var q := (x + INT_LIMIT) / m;
    assert Int32(x) == x - q * m;
    Periodic(2 * x + INT_LIMIT, -2 * q, m);
    assert 2 * Int32(x) + INT_LIMIT == 2 * x + INT_LIMIT + -2 * q * m;
  }

  lemma DoubledNext(size: nat, k: nat)
    ensures Doubled(size, k + 1) == Int32(2 * Doubled(size, k))
    ensures size < INT_LIMIT ==> Doubled(size, 0) == size
  {
    TwiceInt32(size * Words.Pow2(k));
    assert size * Words.Pow2(k + 1) == 2 * (size * Words.Pow2(k));
  }

  lemma Pow2Of32()
    ensures Words.Pow2(32) == 2 * INT_LIMIT && Words.Pow2(16) == 0x1_0000
  {
    assert Words.Pow2(4) == 0x10;
    hide Words.Pow2;
    Words.Pow2Add(4, 4);
    Words.Pow2Add(8, 8);
    Words.Pow2Add(16, 16);
  }

  /** After 32 doublings nothing is left. */
  lemma DoubledAway(size: nat, k: nat)
    requires k >= 32
    ensures Doubled(size, k) == 0
  {
    hide Words.Pow2;
    Pow2Of32();
    Words.Pow2Add(32, k - 32);
    var q := size * Words.Pow2(k - 32);
    Product(size, Words.Pow2(k - 32));
    assert size * Words.Pow2(k) == q * (2 * INT_LIMIT);
    Periodic(INT_LIMIT, q, 2 * INT_LIMIT);
  }

  lemma Product(a: nat, b: nat)
    ensures a * (2 * INT_LIMIT * b) == (a * b) * (2 * INT_LIMIT)
  {
  }

  lemma NotReached(size: nat, req: int)
    requires req > 0 && forall k: nat :: k < 32 ==> Doubled(size, k) < req
    ensures NeverReached(size, req)
  {
    forall k: nat ensures Doubled(size, k) < req {
      if k >= 32 {
        DoubledAway(size, k);
      }
    }
  }

  /** Every size up to 2^30 is reached. */
  lemma SmallReached(size: nat, req: int)
    requires 0 < size < INT_LIMIT && 0 < req <= 0x4000_0000
    ensures !NeverReached(size, req)
  {
    if NeverReached(size, req) {
      StaysSmall(size, req, 32);
      hide Words.Pow2;
      DoubledAway(size, 32);
      Pow2Of32();
      assert false;
    }
  }

  lemma {:induction false} StaysSmall(size: nat, req: int, k: nat)
    requires 0 < size < INT_LIMIT && 0 < req <= 0x4000_0000 && NeverReached(size, req)
    ensures Doubled(size, k) == size * Words.Pow2(k) && Words.Pow2(k) <= Doubled(size, k) < req
  {
    assert Doubled(size, k) < req;
    if k > 0 {
      StaysSmall(size, req, k - 1);
      TwiceProduct(size, Words.Pow2(k - 1));
    }
    hide NeverReached;
    AtLeast(size, Words.Pow2(k));
  }

  lemma TwiceProduct(a: nat, b: nat)
    ensures a * (2 * b) == 2 * (a * b)
  {
  }

  lemma AtLeast(a: nat, b: nat)
    requires a > 0
    ensures a * b >= b
  {
  }

  /** A buffer that has grown from the default 1023 bytes cannot grow beyond 2145386496,
      which is 1023 doubled 21 times. */
  lemma DefaultReaches(j: nat, req: int)
    requires j <= 21 && req > 0
    ensures NeverReached(1023 * Words.Pow2(j), req) <==> req > 2145386496
  {
    var size := 1023 * Words.Pow2(j);
    Pow2Of21();
    hide Words.Pow2;
    forall k: nat ensures Doubled(size, k) == Doubled(1023, j + k) {
      Words.Pow2Add(j, k);
      assert size * Words.Pow2(k) == 1023 * Words.Pow2(j + k) by { Regroup(1023, Words.Pow2(j), Words.Pow2(k)); }
    }
    assert Doubled(1023, j + (21 - j)) == 2145386496;
    forall k: nat ensures Doubled(1023, k) <= 2145386496 {
      DefaultDoubled(k);
    }
    if req <= 2145386496 {
      assert Doubled(size, 21 - j) >= req;
    }
  }

  lemma Regroup(a: nat, b: nat, c: nat)
    ensures a * b * c == a * (b * c)
  {
  }

  lemma Pow2Of21()
    ensures Words.Pow2(21) == 0x20_0000 && Words.Pow2(22) == 0x40_0000
  {
    Pow2Of32();
    assert Words.Pow2(5) == 0x20;
    Words.Pow2Add(16, 5);
  }

  lemma DefaultDoubled(k: nat)
    ensures Doubled(1023, k) <= 2145386496
  {
    hide Words.Pow2, Doubled;
    if k <= 21 {
      DoubledUpTo21(k);
    } else if k < 32 {
      DoubledFrom22(k);
    } else {
      DoubledAway(1023, k);
    }
  }

  lemma DoubledUpTo21(k: nat)
    requires k <= 21
    ensures Doubled(1023, k) <= 2145386496
  {
    hide Words.Pow2;
    Pow2Of21();
    Words.Pow2Add(k, 21 - k);
    LessOrEqual(Words.Pow2(k), Words.Pow2(21 - k));
  }

  /** 1023 * 2^k is 2^k less than a multiple of 2^32. */
  lemma DoubledFrom22(k: nat)
    requires 22 <= k < 32
    ensures Doubled(1023, k) < 0
  {
    hide Words.Pow2;
    Pow2Of21();
    Words.Pow2Add(22, k - 22);
    BelowLimit(k);
    var p: int, q: int := Words.Pow2(k), Words.Pow2(k - 22);
    assert 1023 * p == q * (2 * INT_LIMIT) - p;
    Periodic(INT_LIMIT - p, q, 2 * INT_LIMIT);
  }

  lemma LessOrEqual(a: nat, b: nat)
    requires b > 0
    ensures a <= a * b
  {
  }

  lemma BelowLimit(k: nat)
    requires k < 32
    ensures Words.Pow2(k) <= INT_LIMIT
  {
    Pow2Of32();
    assert Words.Pow2(32) == 2 * Words.Pow2(31);
    hide Words.Pow2;
    Words.Pow2Add(k, 31 - k);
    LessOrEqual(Words.Pow2(k), Words.Pow2(31 - k));
  }
}
