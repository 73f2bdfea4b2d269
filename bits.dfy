/** Integer helpers the hash table relies on: the bitwise AND used to reduce a
    hash to a slot index, powers of two, and `largerPow2`. */
module Bits {

  /** Bitwise AND of two naturals, written out bit by bit (least significant
      bit first), so that `hash & mask` can be reasoned about arithmetically. */
  function BitAnd(a: nat, b: nat): (r: nat)
    ensures r <= a && r <= b
    decreases a
  {
    if a == 0 || b == 0 then 0
    else 2 * BitAnd(a / 2, b / 2) + (if a % 2 == 1 && b % 2 == 1 then 1 else 0)
  }

  /** `x` is 1, 2, 4, 8, ... */
  predicate IsPow2(x: nat)
    decreases x
  {
    if x == 0 then false
    else if x == 1 then true
    else x % 2 == 0 && IsPow2(x / 2)
  }

  /** Doubling keeps a power of two a power of two. */
  lemma DoublePow2(x: nat)
    requires IsPow2(x)
    ensures IsPow2(2 * x)
  {
    assert (2 * x) / 2 == x;
  }

  /** ANDing with `m - 1` for a power of two `m` is reduction modulo `m`:
      this is why `hash & mHashMask` always names a slot of the array. */
  lemma {:induction false} MaskIsMod(a: nat, m: nat)
    requires IsPow2(m)
    ensures BitAnd(a, m - 1) == a % m
    decreases m
  {
    if m == 1 {
    } else if a == 0 {
    } else {
      var half := m / 2;
      assert m == 2 * half;
      assert (m - 1) / 2 == half - 1;
      assert (m - 1) % 2 == 1;
      MaskIsMod(a / 2, half);
      ModHalf(a, half);
    }
  }

  /** Reduction modulo `2 * half` splits into the low bit and the rest. */
  lemma ModHalf(a: nat, half: nat)
    requires half > 0
    ensures a % (2 * half) == 2 * ((a / 2) % half) + a % 2
  {
    var q := (a / 2) / half;
    var r := (a / 2) % half;
    assert a / 2 == half * q + r;
    assert a == 2 * (a / 2) + a % 2;
    assert 2 * (half * q) == (2 * half) * q;
    assert a == (2 * half) * q + (2 * r + a % 2);
    ModUnique(a, 2 * half, q, 2 * r + a % 2);
  }

  lemma ModUnique(a: nat, m: nat, q: nat, r: nat)
    requires 0 <= r < m && a == m * q + r
    ensures a % m == r
  {
    var d := q - a / m;
    assert a == m * (a / m) + a % m;
    assert m * d == m * q - m * (a / m);
    assert m * d == a % m - r;
    if d >= 1 {
      MulMono(m, d);
    } else if d <= -1 {
      MulMono(m, -d);
    }
  }

  lemma MulMono(m: nat, d: int)
    requires d >= 1
    ensures m * d >= m
  {
  }

  /** The smallest power of two that is at least `n` (1 for 0). */
  function LargerPow2(n: nat): (r: nat)
    ensures IsPow2(r) && r >= n
    decreases n
  {
    if n <= 1 then 1
    else
      var h := LargerPow2((n + 1) / 2);
      DoublePow2(h);
      2 * h
  }

  /** The `newSize < 4 ? 4 : newSize` of `prealloc` and `minimize`. */
  function AtLeastFour(n: nat): (r: nat)
    ensures r >= 4 && r >= n && (n >= 4 ==> r == n)
    ensures IsPow2(n) ==> IsPow2(r)
  {
    if n < 4 then 4 else n
  }
}
