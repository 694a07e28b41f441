/** Bitwise operations on unsigned words, and the arithmetic they stand for.

    `And`, `Or` and `CountOnes` are defined bit by bit.  The lemmas connect the masks used by the
    allocators and the page tables to remainders and sums. */
module Bits {
  import opened Machine

  function Pow2(k: nat): (p: nat)
    ensures p > 0
  {
    if k == 0 then 1 else 2 * Pow2(k - 1)
  }

  function And(x: nat, y: nat): (z: nat)
    ensures z <= x && z <= y
    decreases x, y
  {
    if x == 0 then 0
    else 2 * And(x / 2, y / 2) + (if x % 2 == 1 && y % 2 == 1 then 1 else 0)
  }

  function Or(x: nat, y: nat): (z: nat)
    ensures z >= x && z >= y
    decreases x + y
  {
    if x + y == 0 then 0
    else 2 * Or(x / 2, y / 2) + (if x % 2 == 1 || y % 2 == 1 then 1 else 0)
  }

  /** The complement of a 64-bit word. */
  function Not64(x: u64): u64 {
    U64_MAX - x
  }

  function CountOnes(x: nat): (n: nat)
    ensures n == 0 <==> x == 0
  {
    if x == 0 then 0 else x % 2 + CountOnes(x / 2)
  }

  // ----- division -----

  lemma MulAtLeast(a: int, d: int)
    requires d > 0
    ensures a >= 1 ==> a * d >= d
    ensures a <= -1 ==> a * d <= -d
  {
    if a >= 1 {
      assert (a - 1) * d >= 0;
    } else if a <= -1 {
      assert (-a - 1) * d >= 0;
    }
  }

  /** Quotient and remainder are determined by the division equation. */
  lemma DivModUnique(x: int, d: int, q: int, r: int)
    requires d > 0 && 0 <= r < d && x == q * d + r
    ensures x / d == q && x % d == r
  {
    var q', r' := x / d, x % d;
    assert x == q' * d + r';
    assert (q' - q) * d == r - r';
    MulAtLeast(q' - q, d);
  }

  lemma SmallMod(x: nat, d: nat)
    requires x < d
    ensures x % d == x
  {
    DivModUnique(x, d, 0, x);
  }

  lemma ModDouble(x: nat, m: nat)
    requires m > 0
    ensures x % (2 * m) == 2 * ((x / 2) % m) + x % 2
  {
    var h := x / 2;
    var q, r := h / m, h % m;
    assert h == q * m + r;
    assert x == q * (2 * m) + (2 * r + x % 2);
    DivModUnique(x, 2 * m, q, 2 * r + x % 2);
  }

  lemma Pow2Monotone(j: nat, k: nat)
    requires j <= k
    ensures Pow2(j) <= Pow2(k)
  {
    if j < k {
      Pow2Monotone(j, k - 1);
    }
  }

  lemma {:induction false} Pow2Add(j: nat, k: nat)
    ensures Pow2(j + k) == Pow2(j) * Pow2(k)
  {
    if j > 0 {
      Pow2Add(j - 1, k);
      assert Pow2(j + k) == 2 * (Pow2(j - 1) * Pow2(k));
    }
  }

  lemma Pow2Small()
    ensures Pow2(9) == 512 && Pow2(12) == 4096
  {
    assert Pow2(4) == 16;
    Pow2Add(4, 4);
    assert Pow2(9) == 512;
    Pow2Add(8, 4);
  }

  lemma Pow2Middle()
    ensures Pow2(21) == 0x20_0000 && Pow2(52) == 0x10_0000_0000_0000
  {
    Pow2Small();
    Pow2Add(12, 9);
    Pow2Add(21, 21);
    Pow2Add(42, 9);
    assert Pow2(52) == 2 * Pow2(51);
  }

  lemma Pow2Values()
    ensures Pow2(9) == 512 && Pow2(12) == 4096 && Pow2(21) == 0x20_0000
    ensures Pow2(52) == 0x10_0000_0000_0000 && Pow2(63) == 0x8000_0000_0000_0000
    ensures Pow2(64) == U64_MAX + 1
  {
    Pow2Small();
    Pow2Middle();
    Pow2Add(52, 12);
    assert Pow2(64) == 2 * Pow2(63);
  }

  // ----- masks -----

  /** The value of the low `k` bits of `x`. */
  function Low(x: nat, k: nat): (z: nat)
    ensures z < Pow2(k)
  {
    if k == 0 then 0 else 2 * Low(x / 2, k - 1) + x % 2
  }

  lemma {:induction false} LowIsMod(x: nat, k: nat)
    ensures Low(x, k) == x % Pow2(k)
  {
    if k == 0 {
      assert Pow2(0) == 1;
    } else {
      LowIsMod(x / 2, k - 1);
      ModDouble(x, Pow2(k - 1));
    }
  }

  lemma AndZero(x: nat)
    ensures And(x, 0) == 0
  {
  }

  lemma {:induction false} AndSymmetric(x: nat, y: nat)
    ensures And(x, y) == And(y, x)
  {
    if x == 0 {
      AndZero(y);
    } else if y == 0 {
      AndZero(x);
    } else {
      AndSymmetric(x / 2, y / 2);
    }
  }

  lemma AndStep(x: nat, y: nat, b: nat)
    requires b <= 1
    ensures And(x, 2 * y + b) == 2 * And(x / 2, y) + (if b == 1 then x % 2 else 0)
  {
    assert (2 * y + b) / 2 == y && (2 * y + b) % 2 == b;
  }

  lemma {:induction false} AndLow(x: nat, k: nat)
    ensures And(x, Pow2(k) - 1) == Low(x, k)
  {
    if k == 0 {
      AndZero(x);
    } else {
      AndLow(x / 2, k - 1);
      AndStep(x, Pow2(k - 1) - 1, 1);
    }
  }

  lemma AndShift(x: nat, y: nat, v: nat)
    requires And(x / 2, y) == v
    ensures And(x, 2 * y) == 2 * v
  {
    AndStep(x, y, 0);
  }

  lemma AndFieldStep(x: nat, k: nat, m: nat)
    requires 0 < k <= m && Pow2(k - 1) <= Pow2(m - 1)
    requires And(x / 2, Pow2(m - 1) - Pow2(k - 1)) == Low(x / 2, m - 1) - Low(x / 2, k - 1)
    ensures Pow2(k) <= Pow2(m)
    ensures And(x, Pow2(m) - Pow2(k)) == Low(x, m) - Low(x, k)
  {
    AndShift(x, Pow2(m - 1) - Pow2(k - 1), Low(x / 2, m - 1) - Low(x / 2, k - 1));
  }

  lemma {:induction false} AndField(x: nat, k: nat, m: nat)
    requires k <= m
    ensures Pow2(k) <= Pow2(m)
    ensures And(x, Pow2(m) - Pow2(k)) == Low(x, m) - Low(x, k)
  {
    if k == 0 {
      AndLow(x, m);
    } else {
      AndField(x / 2, k - 1, m - 1);
      AndFieldStep(x, k, m);
    }
  }

  /** Masking with the low `k` ones is the remainder modulo `2^k`. */
  lemma AndLowMask(x: nat, k: nat)
    ensures And(x, Pow2(k) - 1) == x % Pow2(k)
  {
    AndLow(x, k);
    LowIsMod(x, k);
  }

  /** Masking with the ones from bit `k` up to bit `m` clears the low `k` bits and everything from bit `m`. */
  lemma AndFieldMask(x: nat, k: nat, m: nat)
    requires k <= m
    ensures Pow2(k) <= Pow2(m)
    ensures And(x, Pow2(m) - Pow2(k)) == x % Pow2(m) - x % Pow2(k)
  {
    AndField(x, k, m);
    LowIsMod(x, k);
    LowIsMod(x, m);
  }

  /** Clearing the low `k` bits of a 64-bit word rounds it down to a multiple of `2^k`. */
  lemma AndNotMask(x: u64, k: nat)
    requires k <= 64
    ensures Pow2(k) <= U64_MAX + 1
    ensures And(x, Not64(Pow2(k) - 1)) == x - x % Pow2(k)
  {
    AndFieldMask(x, k, 64);
    Pow2Values();
    SmallMod(x, Pow2(64));
  }

  /** A field that starts at bit `k` and a value below `2^k` combine by addition. */
  lemma {:induction false} OrDisjoint(a: nat, f: nat, k: nat)
    requires a % Pow2(k) == 0 && f < Pow2(k)
    ensures Or(a, f) == a + f
  {
    if a + f == 0 {
    } else if k == 0 {
      OrZero(a);
    } else {
      ModDouble(a, Pow2(k - 1));
      OrDisjoint(a / 2, f / 2, k - 1);
    }
  }

  lemma OrZero(a: nat)
    ensures Or(a, 0) == a
  {
  }

  lemma {:induction false} OrSymmetric(x: nat, y: nat)
    ensures Or(x, y) == Or(y, x)
    decreases x + y
  {
    if x + y > 0 {
      OrSymmetric(x / 2, y / 2);
    }
  }

  // ----- single bits -----

  /** Bit `k` of `x`. */
  predicate Bit(x: nat, k: nat) {
    if k == 0 then x % 2 == 1 else Bit(x / 2, k - 1)
  }

  lemma {:induction false} BitOfOr(x: nat, y: nat, k: nat)
    ensures Bit(Or(x, y), k) <==> Bit(x, k) || Bit(y, k)
  {
    if x + y == 0 {
      BitOfZero(k);
    } else if k > 0 {
      BitOfOr(x / 2, y / 2, k - 1);
    }
  }

  /** Bit `k`, whose value is `p`, is set when the remainders modulo `p` and `2 p` differ. */
  lemma {:induction false} BitIsDifference(x: nat, k: nat)
    ensures Bit(x, k) <==> Low(x, k + 1) != Low(x, k)
  {
    if k == 0 {
      assert Low(x, 1) == x % 2;
    } else {
      BitIsDifference(x / 2, k - 1);
    }
  }

  lemma BitByRemainder(x: nat, k: nat, p: nat)
    requires p == Pow2(k)
    ensures Bit(x, k) <==> x % (2 * p) != x % p
  {
    BitIsDifference(x, k);
    LowIsMod(x, k);
    LowIsMod(x, k + 1);
  }

  lemma BitOfZero(k: nat)
    ensures !Bit(0, k)
  {
  }

  /** A multiple of `2^k` has no bit below `k`, a number below `2^k` none from `k` on. */
  lemma {:induction false} BitsOfField(x: nat, k: nat, j: nat)
    ensures Low(x, k) == 0 && j < k ==> !Bit(x, j)
    ensures x < Pow2(k) && j >= k ==> !Bit(x, j)
  {
    if k == 0 {
      if x == 0 {
        BitOfZero(j);
      }
    } else if j > 0 {
      BitsOfField(x / 2, k - 1, j - 1);
    }
  }

  /** A field between bits `k` and `m` and a word without bits there combine by addition. */
  lemma {:induction false} OrFieldSum(a: nat, f: nat, k: nat, m: nat)
    requires k <= m && Low(a, k) == 0 && a < Pow2(m) && Low(f, m) == Low(f, k)
    ensures Or(a, f) == a + f
  {
    if k == 0 {
      LowIsMod(f, m);
      OrDisjoint(f, a, m);
      OrSymmetric(a, f);
    } else {
      OrFieldSum(a / 2, f / 2, k - 1, m - 1);
      OrStep(a, f);
    }
  }

  /** Setting a clear bit `k`, whose value is `p`, adds it. */
  lemma SetBit(f: nat, k: nat, p: nat)
    requires p == Pow2(k) && f % (2 * p) == f % p
    ensures Or(f, p) == f + p
  {
    LowIsMod(f, k);
    LowIsMod(f, k + 1);
    LowIsMod(p, k);
    DivModUnique(p, p, 1, 0);
    OrFieldSum(p, f, k, k + 1);
    OrSymmetric(f, p);
  }

  lemma OrStep(x: nat, y: nat)
    ensures Or(x, y) == 2 * Or(x / 2, y / 2) + (if x % 2 == 1 || y % 2 == 1 then 1 else 0)
  {
    if x + y == 0 {
      OrZero(0);
    }
  }

  // ----- powers of two -----

  ghost predicate IsPow2(x: nat) {
    exists k: nat :: k < 64 && x == Pow2(k)
  }

  lemma {:induction false} CountOnesPow2(k: nat)
    ensures CountOnes(Pow2(k)) == 1
  {
    if k == 0 {
      assert CountOnes(1) == 1 + CountOnes(0);
    } else {
      CountOnesPow2(k - 1);
      assert Pow2(k) / 2 == Pow2(k - 1) && Pow2(k) % 2 == 0;
    }
  }

  lemma {:induction false} OneBitIsPow2(x: nat) returns (k: nat)
    requires CountOnes(x) == 1
    ensures x == Pow2(k)
  {
    if x % 2 == 1 {
      k := 0;
    } else {
      var j := OneBitIsPow2(x / 2);
      k := j + 1;
    }
  }

  /** The population-count test accepts exactly the powers of two. */
  lemma CountOnesIffPow2(x: u64)
    ensures CountOnes(x) == 1 <==> IsPow2(x)
  {
    if CountOnes(x) == 1 {
      var k := OneBitIsPow2(x);
      if k >= 64 {
        Pow2Values();
        Pow2Monotone(64, k);
      }
    }
    if IsPow2(x) {
      var k: nat :| k < 64 && x == Pow2(k);
      CountOnesPow2(k);
    }
  }
}
