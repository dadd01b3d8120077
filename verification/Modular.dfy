/** Facts about remainders, for machine arithmetic that wraps around. */
module Modular {
  import Words

  const INT_LIMIT: int := 0x8000_0000

  /** The 32-bit types unsigned and int. */
  type Unsigned = n: nat | n < 0x1_0000_0000

  /** A result as the 32-bit type int holds it. */
  function Int32(x: int): (r: int)
    ensures -INT_LIMIT <= r < INT_LIMIT
    ensures -INT_LIMIT <= x < INT_LIMIT ==> r == x
  {
    (x + INT_LIMIT) % 0x1_0000_0000 - INT_LIMIT
  }

  function Unsigned32(x: int): (r: Unsigned)
    ensures 0 <= x < 0x1_0000_0000 ==> r == x
  {
    x % 0x1_0000_0000
  }

  lemma WrapSum(x: int, y: int, m: nat)
    requires m > 0
    ensures (x % m + y) % m == (x + y) % m && (x % m + y % m) % m == (x + y) % m && (x % m - y) % m == (x - y) % m
  {
    WrapOne(x, y, m);
    WrapOne(x, y % m, m);
    WrapOne(y, x, m);
    WrapOne(x, -y, m);
  }

  lemma WrapOne(x: int, y: int, m: nat)
    requires m > 0
    ensures (x % m + y) % m == (x + y) % m
  {
    var q := x / m;
    assert x == q * m + x % m;
    Periodic(x % m + y, q, m);
  }

  lemma Periodic(x: int, q: int, m: nat)
    requires m > 0
    ensures (x + q * m) % m == x % m
  {
    var q0, r := x / m, x % m;
    assert x == m * q0 + r;
    Factor(m, q0, q);
    Words.ModUnique(x + q * m, m, q0 + q, r);
  }

  lemma Factor(m: int, a: int, b: int)
    ensures m * (a + b) == m * a + b * m
  {
  }

  /** A remainder survives reducing by a multiple of the modulus first. */
  lemma ModOfMod(x: int, m: nat, k: nat)
    requires m > 0 && k > 0
    ensures m * k > 0 && (x % (m * k)) % m == x % m
  {
    var q := x / (m * k);
    assert x == (m * k) * q + x % (m * k);
    assert (m * k) * q == (k * q) * m;
    Periodic(x % (m * k), k * q, m);
  }
}
