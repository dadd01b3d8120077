/** What several of the modules share: optional values, bytes, and table sizes that are
    powers of two. */
module Basics {

  datatype Option<T> = None | Some(value: T)

  type Byte = b: int | 0 <= b < 256

  predicate PowerOfTwo(n: nat) {
    n == 1 || (n > 0 && n % 2 == 0 && PowerOfTwo(n / 2))
  }

  lemma PowerDoubled(n: nat)
    requires PowerOfTwo(n)
    ensures PowerOfTwo(2 * n)
  {
  }

  lemma PowerOf8And16()
    ensures PowerOfTwo(8) && PowerOfTwo(16)
  {
    assert PowerOfTwo(1) && PowerOfTwo(2) && PowerOfTwo(4);
  }

  lemma {:induction false} PowerTimes(a: nat, b: nat)
    requires PowerOfTwo(a) && PowerOfTwo(b)
    ensures PowerOfTwo(a * b)
  {
    if a > 1 {
      PowerTimes(a / 2, b);
      PowerDoubled(a / 2 * b);
      assert 2 * (a / 2 * b) == a * b;
    }
  }

  lemma {:induction false} PowersApart(n: nat, m: nat)
    requires PowerOfTwo(n) && PowerOfTwo(m) && n < 2 * m
    ensures n <= m
  {
    if n > 1 && m > 1 {
      PowersApart(n / 2, m / 2);
    }
  }

  /** The size a table is given: doubled from `n` until it is large enough or has reached
      the limit. */
  function DoubledUntil(n: nat, want: nat, limit: nat): (r: nat)
    requires n > 0
    ensures r >= n
    decreases want - n
  {
    if n < limit && n < want then DoubledUntil(2 * n, want, limit) else n
  }

  /** Asked for twice a size, it is just that, unless the size has reached the limit. */
  lemma {:induction false} DoubledOnce(n: nat, size: nat, limit: nat)
    requires PowerOfTwo(n) && PowerOfTwo(size) && n <= 2 * size
    ensures var r := DoubledUntil(n, 2 * size, limit);
      if n == 2 * size || size < limit then r == 2 * size else r <= size
    decreases 2 * size - n
  {
    if n < 2 * size {
      PowersApart(n, size);
      if n < limit {
        PowerDoubled(n);
        DoubledOnce(2 * n, size, limit);
      }
    }
  }

  lemma {:induction false} DoubledBound(n: nat, want: nat, limit: nat)
    requires PowerOfTwo(n)
    ensures var r := DoubledUntil(n, want, limit); PowerOfTwo(r) && (r == n || r < 2 * limit)
    decreases want - n
  {
    if n < limit && n < want {
      PowerDoubled(n);
      DoubledBound(2 * n, want, limit);
    }
  }

  /** The powers of two that the limits of the tables are compared with. */
  lemma LargePowers()
    ensures PowerOfTwo(0x800_0000) && PowerOfTwo(0x1000_0000) && PowerOfTwo(0x2000_0000)
  {
    PowerOf8And16();
    hide PowerOfTwo;
    PowerTimes(16, 16);
    PowerTimes(256, 256);
    PowerTimes(65536, 256);
    PowerTimes(0x100_0000, 8);
    PowerDoubled(0x800_0000);
    PowerDoubled(0x1000_0000);
  }
}
