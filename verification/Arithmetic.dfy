/**
  Products and quotients of variables.  The specification functions use the recursive `Mul`,
  `Div` and `Mod`, so that the proofs about them are inductions over linear facts; `MulIs` and
  `DivModIs` say that they are the operators of the code.
 */
module Arithmetic {
  const SIZE_MAX: nat := 0xFFFF_FFFF_FFFF_FFFF

  /** Addition of `size_t` */
  function AddSize(a: nat, b: nat): nat {
    (a + b) % (SIZE_MAX + 1)
  }

  function Min(a: nat, b: nat): nat {
    if a < b then a else b
  }

  function Mul(a: nat, b: nat): nat
  {
    if a == 0 then 0 else b + Mul(a - 1, b)
  }

  function Div(x: nat, m: nat): nat
    requires 0 < m
  {
    if x < m then 0 else 1 + Div(x - m, m)
  }

  function Mod(x: nat, m: nat): nat
    requires 0 < m
  {
    if x < m then x else Mod(x - m, m)
  }

  lemma {:induction false} MulIs(a: nat, b: nat)
    ensures Mul(a, b) == a * b
  {
    if a > 0 {
      MulIs(a - 1, b);
      assert a * b == (a - 1) * b + b;
    }
  }

  lemma {:induction false} DivModSplit(x: nat, m: nat)
    requires 0 < m
    ensures x == Mul(Div(x, m), m) + Mod(x, m)
    ensures Mod(x, m) < m && Div(x, m) <= x
  {
    if x >= m {
      DivModSplit(x - m, m);
    }
  }

  /** The quotient and the remainder are determined by what they add up to. */
  lemma {:induction false} DivModUnique(x: nat, m: nat, a: nat, b: nat)
    requires b < m && x == Mul(a, m) + b
    ensures Div(x, m) == a && Mod(x, m) == b
    decreases a
  {
    if a > 0 {
      DivModUnique(x - m, m, a - 1, b);
    }
  }

  lemma DivModIs(x: nat, m: nat)
    requires 0 < m
    ensures Div(x, m) == x / m && Mod(x, m) == x % m
  {
    DivModSplit(x, m);
    var a, b := Div(x, m), Mod(x, m);
    MulIs(a, m);
    QuotientUnique(x, m, a, b);
  }

  lemma Cancel(a: int, b: int, m: nat)
    requires a * m < b * m
    ensures a < b
  {
  }

  lemma QuotientUnique(x: nat, m: nat, a: nat, b: nat)
    requires b < m && x == a * m + b
    ensures x / m == a && x % m == b
  {
    var c := x / m;
    assert (c - a) * m == b - x % m;
    Cancel(c - a, 1, m);
    Cancel(-1, c - a, m);
  }

  lemma {:induction false} MulMonotone(a: nat, b: nat, m: nat)
    requires a <= b
    ensures Mul(a, m) <= Mul(b, m)
    decreases b
  {
    if a > 0 {
      MulMonotone(a - 1, b - 1, m);
    }
  }

  lemma {:induction false} MulAdd(a: nat, b: nat, m: nat)
    ensures Mul(a + b, m) == Mul(a, m) + Mul(b, m)
  {
    if a > 0 {
      MulAdd(a - 1, b, m);
    }
  }

  lemma {:induction false} MulAddRight(a: nat, m: nat, k: nat)
    ensures Mul(a, m + k) == Mul(a, m) + Mul(a, k)
  {
    if a > 0 {
      MulAddRight(a - 1, m, k);
    }
  }

  lemma {:induction false} MulOne(a: nat)
    ensures Mul(a, 1) == a && Mul(1, a) == a && Mul(a, 0) == 0
  {
    if a > 0 {
      MulOne(a - 1);
    }
  }

  lemma {:induction false} MulAssociative(a: nat, b: nat, c: nat)
    ensures Mul(Mul(a, b), c) == Mul(a, Mul(b, c))
  {
    if a > 0 {
      MulAssociative(a - 1, b, c);
      MulAdd(b, Mul(a - 1, b), c);
    }
  }

  lemma {:induction false} MulCommutative(a: nat, b: nat)
    ensures Mul(a, b) == Mul(b, a)
  {
    if a == 0 {
      MulOne(b);
    } else {
      MulCommutative(a - 1, b);
      MulAddRight(b, 1, a - 1);
      MulOne(b);
    }
  }

  lemma MulPositive(a: nat, b: nat)
    requires 0 < a && 0 < b
    ensures a <= Mul(a, b) && b <= Mul(a, b)
  {
    MulMonotone(1, a, b);
    MulCommutative(a, b);
    MulMonotone(1, b, a);
    MulOne(a);
    MulOne(b);
  }

  lemma {:induction false} DivAtLeast(x: nat, m: nat, a: nat)
    requires 0 < m && Mul(a, m) <= x
    ensures a <= Div(x, m)
    decreases a
  {
    if a > 0 {
      DivAtLeast(x - m, m, a - 1);
    }
  }

  lemma DivAtMost(x: nat, m: nat, a: nat)
    requires 0 < m && a <= Div(x, m)
    ensures Mul(a, m) <= x
  {
    DivModSplit(x, m);
    MulMonotone(a, Div(x, m), m);
  }
}
