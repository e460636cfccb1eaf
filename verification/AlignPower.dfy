/** The `align_power` macro on a 32-bit `bfd_vma`.

    The C operators are written out on bounded naturals: `+`, `-` and `<<` wrap modulo 2^32 and
    `&` works bit by bit. The lemmas give the macro its arithmetic meaning and its composition law.
*/
module AlignPower {
  import opened Words

  const MODULUS: nat := 0x1_0000_0000

  /** `bfd_vma`: unsigned long, 32 bits on this host. */
  type Vma = Word

  /** A shift count for which C defines `<<` on a 32-bit operand. */
  type Power = a: nat | a < 32

  function Pow2(n: nat): (p: nat)
    ensures p > 0
  {
    if n == 0 then 1 else 2 * Pow2(n - 1)
  }

  // ----- the C operators

  function Add(x: Vma, y: Vma): Vma {
    (x + y) % MODULUS
  }

  function Sub(x: Vma, y: Vma): Vma {
    (x - y) % MODULUS
  }

  /** Left shift, one bit at a time; bits leaving the word are lost. */
  function Shl(x: Vma, n: nat): Vma
    decreases n
  {
    if n == 0 then x else Shl(2 * x % MODULUS, n - 1)
  }

  /** Bitwise and: the lowest bits, then the rest. */
  function And(x: nat, y: nat): (r: nat)
    ensures r <= x
  {
    if x == 0 || y == 0 then 0
    else
      (if x % 2 == 1 && y % 2 == 1 then 1 else 0) + 2 * And(x / 2, y / 2)
  }

  /** The macro, operator by operator. */
  function AlignPower(addr: Vma, a: Power): Vma {
    And(Sub(Add(addr, Shl(1, a)), 1), Shl(MODULUS - 1, a))
  }

  // ----- multiples

  /** `n` is one of 0, m, m + m, ... */
  predicate Multiple(n: nat, m: nat)
    requires m > 0
  {
    n == 0 || (n >= m && Multiple(n - m, m))
  }

  /** `n` is the least multiple of `m` that is not below `x`. */
  ghost predicate IsLeastMultiple(n: nat, x: nat, m: nat)
    requires m > 0
  {
    Multiple(n, m) && x <= n && forall k: nat :: Multiple(k, m) && x <= k ==> n <= k
  }

  lemma {:induction false} MultipleMeansNoRemainder(n: nat, m: nat)
    requires m > 0
    ensures Multiple(n, m) <==> n % m == 0
  {
    if n >= m {
      MultipleMeansNoRemainder(n - m, m);
      RemainderAfterStep(n, m);
    }
  }

  lemma RemainderAfterStep(n: nat, m: nat)
    requires 0 < m <= n
    ensures (n - m) % m == n % m
  {
    var t := (n - m) / m - n / m + 1;
    assert n == n / m * m + n % m;
    assert t * m == n % m - (n - m) % m;
    ProductBounds(t, m);
  }

  lemma ProductBounds(t: int, m: nat)
    ensures t > 0 ==> t * m >= m
    ensures t < 0 ==> t * m <= 0 - m
  {
  }

  lemma {:induction false} MultipleSum(x: nat, y: nat, m: nat)
    requires m > 0 && Multiple(x, m) && Multiple(y, m)
    ensures Multiple(x + y, m)
  {
    if x == 0 {
    } else {
      MultipleSum(x - m, y, m);
    }
  }

  lemma {:induction false} MultipleDifference(x: nat, y: nat, m: nat)
    requires m > 0 && Multiple(x, m) && Multiple(y, m) && y <= x
    ensures Multiple(x - y, m)
  {
    if y == 0 {
    } else {
      MultipleDifference(x - m, y - m, m);
    }
  }

  lemma {:induction false} MultipleTransitive(n: nat, q: nat, p: nat)
    requires q > 0 && p > 0 && Multiple(n, q) && Multiple(q, p)
    ensures Multiple(n, p)
  {
    if n == 0 {
    } else {
      MultipleTransitive(n - q, q, p);
      MultipleSum(n - q, q, p);
    }
  }

  lemma {:induction false} MultipleDouble(n: nat, m: nat)
    requires m > 0 && Multiple(n, m)
    ensures Multiple(2 * n, 2 * m)
  {
    if n == 0 {
    } else {
      MultipleDouble(n - m, m);
    }
  }

  /** Two multiples of `m` less than `m` apart are equal. */
  lemma MultiplesApart(x: nat, y: nat, m: nat)
    requires m > 0 && Multiple(x, m) && Multiple(y, m)
    requires x < y + m && y < x + m
    ensures x == y
  {
  }

  /** The last multiple of `m` not above `x`. */
  function Floor(x: nat, m: nat): (n: nat)
    requires m > 0
    ensures Multiple(n, m) && n <= x < n + m
  {
    if x < m then 0 else m + Floor(x - m, m)
  }

  /** Rounding up by rounding down, which is what the macro's `+ 2^a - 1` and mask do. */
  function CeilTo(x: nat, m: nat): (n: nat)
    requires m > 0
    ensures Multiple(n, m) && x <= n < x + m
  {
    Floor(x + m - 1, m)
  }

  /** The multiple of `m` in the window [x, x + m) is the least one not below `x`, and the only such. */
  lemma LeastMultipleIsCeil(n: nat, x: nat, m: nat)
    requires m > 0
    ensures IsLeastMultiple(n, x, m) <==> n == CeilTo(x, m)
  {
    var c := CeilTo(x, m);
    forall k: nat | Multiple(k, m) && x <= k
      ensures c <= k
    {
      if k < c {
        MultiplesApart(k, c, m);
      }
    }
  }

  /** Rounding down commutes with dropping a multiple. */
  lemma FloorMinusMultiple(y: nat, w: nat, m: nat)
    requires m > 0 && Multiple(w, m) && w <= y
    ensures Floor(y - w, m) == Floor(y, m) - w
  {
    var f := Floor(y, m);
    if f < w {
      MultiplesApart(f, w, m);
    }
    MultipleDifference(f, w, m);
    MultiplesApart(f - w, Floor(y - w, m), m);
  }

  /** When one of two moduli divides the other, rounding up to both in turn rounds up to the larger. */
  lemma CeilOfCeil(x: nat, p: nat, q: nat)
    requires p > 0 && q > 0
    requires if p <= q then Multiple(q, p) else Multiple(p, q)
    ensures CeilTo(CeilTo(x, p), q) == CeilTo(x, if p <= q then q else p)
  {
    var c := CeilTo(x, p);
    if p <= q {
      var n := CeilTo(x, q);
      MultipleTransitive(n, q, p);
      LeastMultipleIsCeil(c, x, p);
      LeastMultipleIsCeil(CeilTo(c, q), c, q);
      LeastMultipleIsCeil(n, x, q);
    } else {
      MultipleTransitive(c, p, q);
      MultiplesApart(CeilTo(c, q), c, q);
    }
  }

  // ----- powers of two and the mask

  lemma {:induction false} Pow2Monotone(a: nat, b: nat)
    requires a <= b
    ensures Pow2(a) <= Pow2(b)
    ensures Multiple(Pow2(b), Pow2(a))
  {
    if a < b {
      Pow2Monotone(a, b - 1);
      MultipleSum(Pow2(b - 1), Pow2(b - 1), Pow2(a));
    }
  }

  lemma Pow2Of32()
    ensures Pow2(32) == MODULUS
  {
    assert Pow2(8) == 256;
    assert Pow2(16) == 0x1_0000;
    assert Pow2(24) == 0x100_0000;
  }

  /** Rounding down to 2h, from rounding the half down to h. */
  lemma FloorDouble(x: nat, h: nat)
    requires h > 0
    ensures Floor(x, 2 * h) == 2 * Floor(x / 2, h)
  {
  }

  lemma AndEven(x: nat, half: nat)
    ensures And(x, 2 * half) == 2 * And(x / 2, half)
  {
    var y := 2 * half;
    assert y % 2 == 0 && y / 2 == half;
    if x == 0 || half == 0 {
      assert And(x / 2, half) == 0;
    } else {
      assert And(x, y) == 2 * And(x / 2, y / 2);
    }
  }

  lemma {:induction false} AndOnes(x: nat, k: nat)
    requires x < Pow2(k)
    ensures And(x, Pow2(k) - 1) == x
  {
    if k == 0 {
    } else {
      var ones := Pow2(k - 1) - 1;
      AndOnes(x / 2, k - 1);
      assert Pow2(k) - 1 == 2 * ones + 1;
      assert (2 * ones + 1) / 2 == ones;
    }
  }

  /** Keeping bits a .. k-1 of a k-bit number rounds it down to a multiple of 2^a. */
  lemma {:induction false} MaskIsFloor(x: nat, a: nat, k: nat)
    requires a <= k && x < Pow2(k)
    ensures Pow2(a) <= Pow2(k)
    ensures And(x, Pow2(k) - Pow2(a)) == Floor(x, Pow2(a))
    decreases k
  {
    hide Floor, And, Multiple;
    Pow2Monotone(a, k);
    if a == 0 {
      AndOnes(x, k);
    } else {
      MaskIsFloor(x / 2, a - 1, k - 1);
      FloorDouble(x, Pow2(a - 1));
      AndEven(x, Pow2(k - 1) - Pow2(a - 1));
    }
  }

  lemma ShlStep(p: nat)
    requires 2 * p < MODULUS
    ensures 2 * p % MODULUS == 2 * p
    ensures p > 0 ==> 2 * (MODULUS - p) % MODULUS == MODULUS - 2 * p
  {
  }

  lemma {:induction false} ShlOfPower(x: Vma, i: nat, n: nat)
    requires Pow2(i + n) < MODULUS
    ensures Pow2(i) < MODULUS
    ensures x == Pow2(i) ==> Shl(x, n) == Pow2(i + n)
    ensures x == MODULUS - Pow2(i) ==> Shl(x, n) == MODULUS - Pow2(i + n)
    decreases n
  {
    hide Multiple;
    Pow2Monotone(i, i + n);
    if n == 0 {
    } else {
      Pow2Monotone(i + 1, i + n);
      ShlStep(Pow2(i));
      ShlOfPower(2 * x % MODULUS, i + 1, n - 1);
    }
  }

  /** 1 << a and -1 << a, in 32 bits. */
  lemma ShiftedOnes(a: Power)
    ensures Pow2(a) < MODULUS && Multiple(MODULUS, Pow2(a))
    ensures Shl(1, a) == Pow2(a)
    ensures Shl(MODULUS - 1, a) == MODULUS - Pow2(a)
  {
    hide Multiple, Shl;
    Pow2Of32();
    Pow2Monotone(a, 31);
    Pow2Monotone(a, 32);
    assert Pow2(32) == 2 * Pow2(31);
    ShlOfPower(1, 0, a);
    ShlOfPower(MODULUS - 1, 0, a);
  }

  /** `addr + p - 1` leaves the word at most once. */
  lemma AddThenSub(addr: Vma, p: Vma)
    requires p > 0
    ensures Sub(Add(addr, p), 1) == if addr + p <= MODULUS then addr + p - 1 else addr + p - 1 - MODULUS
  {
  }

  lemma AlignPowerIsFloor(addr: Vma, a: Power)
    ensures Pow2(a) < MODULUS
    ensures var y := addr + Pow2(a) - 1;
            AlignPower(addr, a) == Floor(if y < MODULUS then y else y - MODULUS, Pow2(a))
  {
    hide Add, Sub, Shl, And, Floor, Multiple, Pow2;
    ShiftedOnes(a);
    AddThenSub(addr, Pow2(a));
    Pow2Of32();
    var y := addr + Pow2(a) - 1;
    MaskIsFloor(if y < MODULUS then y else y - MODULUS, a, 32);
  }

  /** The macro never sees a multiple beyond 2^32, and folds 2^32 itself onto 0. */
  lemma AlignPowerIsCeil(addr: Vma, a: Power)
    ensures Multiple(MODULUS, Pow2(a))
    ensures CeilTo(addr, Pow2(a)) <= MODULUS
    ensures var c := CeilTo(addr, Pow2(a));
            AlignPower(addr, a) == if c == MODULUS then 0 else c
  {
    hide AlignPower, Floor, Multiple, Pow2;
    var p := Pow2(a);
    ShiftedOnes(a);
    AlignPowerIsFloor(addr, a);
    LeastMultipleIsCeil(CeilTo(addr, p), addr, p);
    if addr + p - 1 >= MODULUS {
      FloorMinusMultiple(addr + p - 1, MODULUS, p);
    }
  }

  // ----- main results

  /** The macro is: the least multiple of 2^a not below addr, modulo 2^32. */
  lemma AlignPowerMeaning(addr: Vma, a: Power, n: nat)
    requires IsLeastMultiple(n, addr, Pow2(a))
    ensures AlignPower(addr, a) == n % 0x1_0000_0000
  {
    hide AlignPower, CeilTo, Multiple, Pow2;
    LeastMultipleIsCeil(n, addr, Pow2(a));
    AlignPowerIsCeil(addr, a);
  }

  lemma {:induction false} ProductIsMultiple(q: nat, m: nat)
    requires m > 0
    ensures Multiple(q * m, m)
  {
    if q == 0 {
    } else {
      ProductIsMultiple(q - 1, m);
      ProductStep(q, m);
    }
  }

  lemma ProductStep(q: nat, m: nat)
    requires q > 0 && m > 0
    ensures q * m >= m && q * m - m == (q - 1) * m
  {
  }

  lemma DivisionWindow(x: nat, m: nat)
    requires m > 0
    ensures var n := (x + m - 1) / m * m;
            x <= n < x + m
  {
    var y := x + m - 1;
    assert y == y / m * m + y % m;
  }

  /** In the arithmetic of unbounded integers the macro is a division, a multiplication and the wrap. */
  lemma AlignPowerFormula(addr: Vma, a: Power)
    ensures AlignPower(addr, a) == (addr + Pow2(a) - 1) / Pow2(a) * Pow2(a) % 0x1_0000_0000
  {
    hide AlignPower, CeilTo, Multiple, Pow2;
    var p := Pow2(a);
    var q := (addr + p - 1) / p;
    DivisionWindow(addr, p);
    ProductIsMultiple(q, p);
    MultiplesApart(q * p, CeilTo(addr, p), p);
    AlignPowerIsCeil(addr, a);
  }

  /** The result goes below the address exactly by wrapping to 0, and exactly above 2^32 - 2^a. */
  lemma WrapsExactlyAboveLastMultiple(addr: Vma, a: Power)
    ensures AlignPower(addr, a) == 0 <==> addr == 0 || addr > MODULUS - Pow2(a)
    ensures AlignPower(addr, a) < addr <==> addr > MODULUS - Pow2(a)
  {
    hide AlignPower, CeilTo, Multiple, Pow2;
    var p := Pow2(a);
    AlignPowerIsCeil(addr, a);
    var c := CeilTo(addr, p);
    Pow2Monotone(a, a);
    if addr <= MODULUS - p {
      MultipleDifference(MODULUS, p, p);
      LeastMultipleIsCeil(c, addr, p);
    } else {
      MultiplesApart(c, MODULUS, p);
    }
    if addr == 0 {
      MultipleDifference(p, p, p);
      MultiplesApart(c, 0, p);
    }
  }

  /** An address that wraps under one power wraps under every larger one, and 0 stays 0. */
  lemma AlignmentAfterWrap(b: Power)
    ensures AlignPower(0, b) == 0
    ensures CeilTo(MODULUS, Pow2(b)) == MODULUS
  {
    hide AlignPower, CeilTo, Multiple, Pow2;
    WrapsExactlyAboveLastMultiple(0, b);
    ShiftedOnes(b);
    MultiplesApart(CeilTo(MODULUS, Pow2(b)), MODULUS, Pow2(b));
  }

  /** Aligning twice is aligning once to the larger power, also when either step wraps. */
  lemma AlignPowerComposes(addr: Vma, a: Power, b: Power)
    ensures AlignPower(AlignPower(addr, a), b) == AlignPower(addr, if a < b then b else a)
  {
    hide AlignPower, CeilTo, Multiple, Pow2;
    AlignPowerIsCeil(addr, a);
    AlignPowerIsCeil(addr, b);
    AlignPowerIsCeil(AlignPower(addr, a), b);
    AlignmentAfterWrap(b);
    Pow2Monotone(if a < b then a else b, if a < b then b else a);
    CeilOfCeil(addr, Pow2(a), Pow2(b));
  }

  lemma AlignPowerIdempotent(addr: Vma, a: Power)
    ensures AlignPower(AlignPower(addr, a), a) == AlignPower(addr, a)
  {
    AlignPowerComposes(addr, a, a);
  }

  /** Alignment keeps the order of addresses exactly when the larger one does not wrap, or the
      smaller one ends up at 0 as well. */
  lemma AlignPowerMonotone(x: Vma, y: Vma, a: Power)
    requires x <= y
    ensures AlignPower(x, a) <= AlignPower(y, a) <==>
            y <= MODULUS - Pow2(a) || x == 0 || x > MODULUS - Pow2(a)
  {
    hide AlignPower, CeilTo, Multiple, Pow2;
    AlignPowerIsCeil(x, a);
    AlignPowerIsCeil(y, a);
    WrapsExactlyAboveLastMultiple(x, a);
    WrapsExactlyAboveLastMultiple(y, a);
    LeastMultipleIsCeil(CeilTo(x, Pow2(a)), x, Pow2(a));
  }

  /** Two addresses that change places: 1 goes up to 16, and the last address wraps to 0. */
  lemma WrapReversesOrder()
    ensures AlignPower(1, 4) == 16 && AlignPower(0xFFFF_FFFF, 4) == 0
  {
    hide AlignPower, CeilTo, Multiple;
    assert Pow2(4) == 16;
    AlignPowerIsCeil(1, 4);
    MultipleStep(16);
    MultiplesApart(CeilTo(1, 16), 16, 16);
    WrapsExactlyAboveLastMultiple(MODULUS - 1, 4);
  }

  lemma MultipleStep(m: nat)
    requires m > 0
    ensures Multiple(m, m)
  {
  }

  // ----- folding the macro over the alignments of a run of sections

  function AlignAll(addr: Vma, powers: seq<Power>): Vma
    decreases powers
  {
    if powers == [] then addr else AlignAll(AlignPower(addr, powers[0]), powers[1..])
  }

  ghost predicate IsLargest(m: Power, powers: seq<Power>) {
    m in powers && forall p :: p in powers ==> p <= m
  }

  function Largest(powers: seq<Power>): (m: Power)
    requires powers != []
    ensures IsLargest(m, powers)
  {
    if |powers| == 1 then powers[0]
    else
      var k := Largest(powers[1..]);
      assert powers == [powers[0]] + powers[1..];
      if powers[0] < k then k else powers[0]
  }

  /** Any non-empty sequence of alignments, in any order, acts as one alignment to the largest. */
  lemma {:induction false} AlignAllIsLargest(addr: Vma, powers: seq<Power>, m: Power)
    requires IsLargest(m, powers)
    ensures AlignAll(addr, powers) == AlignPower(addr, m)
    decreases powers
  {
    hide AlignPower;
    var first, rest := powers[0], powers[1..];
    if rest == [] {
      assert AlignAll(AlignPower(addr, first), rest) == AlignPower(addr, first);
    } else {
      assert powers == [first] + rest;
      var k := Largest(rest);
      AlignAllIsLargest(AlignPower(addr, first), rest, k);
      AlignPowerComposes(addr, first, k);
      assert k in powers && first in powers && (m == first || m in rest);
    }
  }
}
