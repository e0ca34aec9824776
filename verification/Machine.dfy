/**
  The machine the modelled Rust code runs on: words of 64 bits, bitwise masks written out on
  natural numbers, and runs that either return a value or abort.
 */
module Machine {

  /** Why a run stops: checked arithmetic, a slice index, a `todo!()` or an explicit panic. */
  datatype Fault = Overflow | OutOfBounds | Unimplemented | Panic

  datatype Run<+T> = Returns(value: T) | Aborts(fault: Fault) {
    predicate IsFailure() {
      Aborts?
    }

    function PropagateFailure<U>(): Run<U>
      requires Aborts?
    {
      Aborts(fault)
    }

    function Extract(): T
      requires Returns?
    {
      value
    }
  }

  datatype Option<+T> = None | Some(value: T)

  /** One more than the greatest 64-bit word. */
  const U64: nat := 0x1_0000_0000_0000_0000

  const PAGE_SHIFT: nat := 14
  const PAGE: nat := 0x4000

  function Min(a: nat, b: nat): nat {
    if a <= b then a else b
  }

  /** Bitwise `&`, one binary digit at a time. */
  function And(x: nat, y: nat): nat
    decreases x
  {
    if x == 0 || y == 0 then 0
    else 2 * And(x / 2, y / 2) + (if x % 2 == 1 && y % 2 == 1 then 1 else 0)
  }

  /** Bitwise `|`, one binary digit at a time. */
  function Or(x: nat, y: nat): nat
    decreases x + y
  {
    if x == 0 && y == 0 then 0
    else 2 * Or(x / 2, y / 2) + (if x % 2 == 1 || y % 2 == 1 then 1 else 0)
  }

  predicate IsPow2(a: nat) {
    a == 1 || (a != 0 && a % 2 == 0 && IsPow2(a / 2))
  }

  function Pow2(k: nat): (p: nat)
    ensures p >= 1
  {
    if k == 0 then 1 else 2 * Pow2(k - 1)
  }

  /** `x` rounded down, and up, to a multiple of `a`. */
  function AlignDown(x: nat, a: nat): (r: nat)
    requires a > 0
  {
    ModBelow(x, a);
    x - x % a
  }

  function AlignUp(x: nat, a: nat): (r: nat)
    requires a > 0
  {
    AlignDown(x + a - 1, a)
  }

  lemma AlignDownNearest(x: nat, a: nat)
    requires a > 0
    ensures AlignDown(x, a) <= x < AlignDown(x, a) + a
    ensures AlignDown(x, a) % a == 0
  {
    ModBelow(x, a);
  }

  lemma AlignUpNearest(x: nat, a: nat)
    requires a > 0
    ensures x <= AlignUp(x, a) < x + a
    ensures AlignUp(x, a) % a == 0
  {
    ModBelow(x + a - 1, a);
  }

  lemma ModBelow(x: nat, a: nat)
    requires a > 0
    ensures x % a <= x && (x - x % a) % a == 0
  {
    MulMod(x / a, a);
  }

  lemma {:induction false} MulMod(q: nat, a: nat)
    requires a > 0
    ensures (q * a) % a == 0
  {
    if q > 0 {
      MulMod(q - 1, a);
      assert q * a == (q - 1) * a + a;
      ModAdd((q - 1) * a, a);
    }
  }

  lemma ModAdd(x: nat, a: nat)
    requires a > 0
    ensures (x + a) % a == x % a
  {
    DivModUnique(x + a, a, x / a + 1, x % a);
  }

  lemma {:induction false} MulGap(p: int, q: int, a: nat)
    requires p < q
    ensures p * a + a <= q * a
    decreases q - p
  {
    if p + 1 == q {
      assert (p + 1) * a == p * a + a;
    } else {
      MulGap(p, q - 1, a);
      assert (q - 1) * a == q * a - a;
    }
  }

  lemma DivModUnique(x: nat, a: nat, q: int, r: nat)
    requires a > 0
    requires x == q * a + r && r < a
    ensures x / a == q && x % a == r
  {
    var q', r' := x / a, x % a;
    assert x == q' * a + r';
    if q' > q {
      MulGap(q, q', a);
    } else if q' < q {
      MulGap(q', q, a);
    }
  }

  /** Between consecutive multiples of `a` there is no other multiple. */
  lemma MultiplesApart(x: nat, y: nat, a: nat)
    requires a > 0 && x % a == 0 && y % a == 0 && x < y
    ensures x + a <= y
  {
    var p, q := x / a, y / a;
    assert x == p * a && y == q * a;
    if p < q {
      MulGap(p, q, a);
    } else if q < p {
      MulGap(q, p, a);
    }
  }

  lemma {:induction false} AndOnes(x: nat, m: nat)
    requires IsPow2(m) && x < m
    ensures And(x, m - 1) == x
  {
    if x != 0 {
      AndOnes(x / 2, m / 2);
      assert (m - 1) / 2 == m / 2 - 1 && (m - 1) % 2 == 1;
    }
  }

  lemma {:induction false} AndZero(x: nat)
    ensures And(x, 0) == 0
  {
  }

  lemma HalveMod(x: nat, a: nat)
    requires a > 0 && a % 2 == 0
    ensures x % a == 2 * ((x / 2) % (a / 2)) + x % 2
  {
    var h := a / 2;
    var q, r := (x / 2) / h, (x / 2) % h;
    assert x / 2 == q * h + r;
    assert x == 2 * (q * h + r) + x % 2;
    assert a == 2 * h;
    assert q * a == 2 * (q * h);
    DivModUnique(x, a, q, 2 * r + x % 2);
  }

  /** Masking with `m - a`, the two's complement of `a`, rounds down to a multiple of `a`. */
  lemma {:induction false} AndHighMask(x: nat, m: nat, a: nat)
    requires IsPow2(m) && IsPow2(a) && a <= m && x < m
    ensures And(x, m - a) == AlignDown(x, a)
  {
    if a == 1 {
      AndOnes(x, m);
    } else if a == m {
      AndZero(x);
      DivModUnique(x, a, 0, x);
    } else {
      AndHighMask(x / 2, m / 2, a / 2);
      HalveMod(x, a);
      assert (m - a) / 2 == m / 2 - a / 2;
    }
  }

  /** Masking with `a - 1` is the remainder. */
  lemma {:induction false} AndLowMask(x: nat, a: nat)
    requires IsPow2(a)
    ensures And(x, a - 1) == x % a
  {
    if a == 1 {
      AndZero(x);
      DivModUnique(x, 1, x, 0);
    } else if x == 0 {
      DivModUnique(0, a, 0, 0);
    } else {
      AndLowMask(x / 2, a / 2);
      HalveMod(x, a);
      assert (a - 1) / 2 == a / 2 - 1 && (a - 1) % 2 == 1;
    }
  }

  /** Numbers without a common bit have none when both are shifted. */
  lemma {:induction false} AndShifted(x: nat, y: nat, k: nat)
    ensures And(x * Pow2(k), y * Pow2(k)) == And(x, y) * Pow2(k)
  {
    if k > 0 {
      AndShifted(x, y, k - 1);
      AndDoubled(x * Pow2(k - 1), y * Pow2(k - 1));
      TimesPow2(x, k);
      TimesPow2(y, k);
      TimesPow2(And(x, y), k);
    }
  }

  lemma TimesPow2(x: nat, k: nat)
    requires k > 0
    ensures x * Pow2(k) == 2 * (x * Pow2(k - 1))
  {
  }

  lemma AndDoubled(x: nat, y: nat)
    ensures And(2 * x, 2 * y) == 2 * And(x, y)
  {
  }

  lemma Doubles(a: nat)
    requires IsPow2(a)
    ensures IsPow2(2 * a)
  {
    assert (2 * a) / 2 == a;
  }

  lemma Times16(a: nat)
    requires IsPow2(a)
    ensures IsPow2(16 * a)
  {
    Doubles(a);
    Doubles(2 * a);
    Doubles(4 * a);
    Doubles(8 * a);
  }

  lemma Times256(a: nat)
    requires IsPow2(a)
    ensures IsPow2(256 * a)
  {
    Times16(a);
    Times16(16 * a);
  }

  lemma WordIsPow2()
    ensures IsPow2(0x1_0000_0000) && IsPow2(U64)
  {
    Times256(1);
    Times256(0x100);
    Times256(0x1_0000);
    Times256(0x100_0000);
    Times256(0x1_0000_0000);
    Times256(0x100_0000_0000);
    Times256(0x1_0000_0000_0000);
    Times256(0x100_0000_0000_0000);
  }

  lemma BlockSizesArePow2()
    ensures IsPow2(PAGE) && IsPow2(0x200000) && IsPow2(0x8000000)
  {
    Times256(1);
    Times256(0x100);
    assert IsPow2(0x1000) && IsPow2(0x2000) && IsPow2(PAGE) && IsPow2(0x8000);
    Times256(0x2000);
    Times256(0x8000);
    assert IsPow2(0x800000);
    Times256(0x80000) by {
      assert IsPow2(0x20000) && IsPow2(0x40000);
    }
  }

  /** The 64-bit mask `!(a - 1)`, which is also `-a`. */
  lemma AndWordMask(x: nat, a: nat)
    requires IsPow2(a) && a <= U64 && x < U64
    ensures And(x, U64 - a) == AlignDown(x, a)
  {
    WordIsPow2();
    AndHighMask(x, U64, a);
  }
}
