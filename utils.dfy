// Count-leading-zeros and next-power-of-two for 64-bit unsigned values
// (engine/src/core/utils.h).
module Utils {
  import opened Wrappers

  /** 2 to the power k. */
  function Pow2(k: nat): (r: nat)
    ensures r >= 1
  {
    if k == 0 then 1 else 2 * Pow2(k - 1)
  }

  ghost predicate IsPow2(x: nat) { exists k: nat :: Pow2(k) == x }

  lemma {:induction false} Pow2Monotone(a: nat, b: nat)
    requires a <= b
    ensures Pow2(a) <= Pow2(b)
  {
    if a < b { Pow2Monotone(a, b - 1); }
  }

  lemma {:induction false} Pow2Add(a: nat, b: nat)
    ensures Pow2(a + b) == Pow2(a) * Pow2(b)
  {
    if a > 0 { Pow2Add(a - 1, b); }
  }

  lemma Pow2Of64()
    ensures Pow2(64) == U64_LIMIT
  {
    assert Pow2(4) == 16;
    Pow2Add(4, 4);
    assert Pow2(8) == 0x100;
    Pow2Add(8, 8);
    assert Pow2(16) == 0x1_0000;
    Pow2Add(16, 16);
    assert Pow2(32) == 0x1_0000_0000;
    Pow2Add(32, 32);
  }

  /** Position of the highest set bit of a positive number. */
  function Log2(x: nat): (r: nat)
    requires x >= 1
    ensures Pow2(r) <= x < Pow2(r + 1)
  {
    if x == 1 then 0 else 1 + Log2(x / 2)
  }

  lemma Log2Below64(x: nat)
    requires 1 <= x < U64_LIMIT
    ensures Log2(x) < 64
  {
    Pow2Of64();
    if Log2(x) >= 64 { Pow2Monotone(64, Log2(x)); }
  }

  /**
   * kclz_u64: the number of leading zero bits of a 64-bit value, 64 for
   * zero. For a non-zero x with c leading zeros, 2^(63-c) <= x < 2^(64-c).
   */
  function Clz(x: nat): (c: nat)
    requires IsU64(x)
    ensures c <= 64
    ensures c == 64 <==> x == 0
    ensures x != 0 ==> Pow2(63 - c) <= x < Pow2(64 - c)
  {
    if x == 0 then 64
    else
      Log2Below64(x);
      63 - Log2(x)
  }

  /**
   * next_pow2_u64: 1 for x <= 1, otherwise 1 shifted left by 64 - clz(x - 1).
   * For x above 2^63 the shift amount would be 64, which C leaves undefined.
   */
  function NextPow2(x: nat): (r: nat)
    requires x <= Pow2(63)
  {
    if x <= 1 then 1
    else
      Pow2Of64();
      Pow2Monotone(63, 64);
      Pow2(64 - Clz(x - 1))
  }

  /** For every x in range, NextPow2(x) is the least power of two that is at least x. */
  lemma NextPow2IsLeastPow2(x: nat)
    requires x <= Pow2(63)
    ensures IsPow2(NextPow2(x))
    ensures NextPow2(x) >= x
    ensures x >= 1 ==> NextPow2(x) < 2 * x
    ensures forall k: nat :: Pow2(k) >= x ==> Pow2(k) >= NextPow2(x)
  {
    var r := NextPow2(x);
    if x <= 1 {
      assert Pow2(0) == r;
    } else {
      Pow2Of64();
      Pow2Monotone(63, 64);
      var c := Clz(x - 1);
      var e: nat := 64 - c;
      assert r == Pow2(e);
      assert Pow2(e - 1) <= x - 1 < Pow2(e);
      forall k: nat | Pow2(k) >= x ensures Pow2(k) >= r {
        if k < e {
          Pow2Monotone(k, e - 1);
        } else {
          Pow2Monotone(e, k);
        }
      }
    }
  }

  /** A power of two is its own next power of two. */
  lemma NextPow2OfPow2(k: nat)
    requires k <= 63
    ensures Pow2(k) <= Pow2(63) && NextPow2(Pow2(k)) == Pow2(k)
  {
    Pow2Monotone(k, 63);
    NextPow2IsLeastPow2(Pow2(k));
  }

  /** Clz of zero and of the extreme non-zero values. */
  lemma ClzExamples()
    ensures Clz(0) == 64 && Clz(1) == 63
    ensures Clz(U64_LIMIT - 1) == 0
  {
    Pow2Of64();
    var c := Clz(U64_LIMIT - 1);
    if c > 0 {
      Pow2Monotone(64 - c, 63);
    }
  }

  // ------------------------------------------------------- arithmetic

  lemma MulAtLeast(k: nat, a: nat)
    requires k >= 1
    ensures k * a >= a
  {
  }

  /** Multiples of a keep the order of their factors, at least a apart. */
  lemma MulOrder(m: nat, q: nat, a: nat)
    ensures m >= q || m * a + a <= q * a
  {
    if m < q {
      MulAtLeast(q - m, a);
      assert q * a - m * a == (q - m) * a;
    }
  }
}
