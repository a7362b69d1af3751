/**
 Unsigned bit-vector arithmetic on unbounded naturals.

 A MyHDL `intbv` holding a non-negative value is modelled by a `nat`. The
 functions here give the two views of a bit field that the controller relies
 on: the arithmetic one, `(x / 2^low) % 2^n`, and a reference one assembled bit
 by bit. The lemmas connect them and derive the facts about fields (bounds,
 bit-by-bit meaning, independence from bits outside the field).
 */
module Bits {

  /** 2 raised to the power `n`. */
  function Pow2(n: nat): (r: nat)
    ensures r >= 1
  {
    if n == 0 then 1 else 2 * Pow2(n - 1)
  }

  /** Bit `i` of `x` (bit 0 is the least significant). */
  function Bit(x: nat, i: nat): (b: nat)
    ensures b <= 1
  {
    if i == 0 then x % 2 else Bit(x / 2, i - 1)
  }

  /** The `n` bits of `x` starting at bit `low`, assembled one bit at a time:
      the reference definition of a bit field. */
  function BitsFrom(x: nat, low: nat, n: nat): (r: nat)
    ensures r < Pow2(n)
    decreases n
  {
    if n == 0 then 0 else Bit(x, low) + 2 * BitsFrom(x, low + 1, n - 1)
  }

  /** The `n`-bit field of `x` whose lowest bit is bit `low`, as shift-and-mask
      arithmetic: `(x >> low) mod 2^n`. */
  function Field(x: nat, low: nat, n: nat): (r: nat)
    ensures r < Pow2(n)
  {
    (x / Pow2(low)) % Pow2(n)
  }

  // ---------------------------------------------------------------------
  // Arithmetic helpers

  lemma DivModUnique(a: int, d: int, q: int, r: int)
    requires d > 0 && 0 <= r < d && a == d * q + r
    ensures a / d == q && a % d == r
  {
    var q', r' := a / d, a % d;
    assert d * (q - q') == r' - r;
    if q > q' {
      MulMonotone(d, 1, q - q');
    } else if q < q' {
      MulMonotone(d, 1, q' - q);
    }
  }

  lemma MulMonotone(a: nat, b: int, c: int)
    requires b <= c
    ensures a * b <= a * c
  {
    assert a * c - a * b == a * (c - b);
  }

  lemma DivDiv(a: nat, b: nat, c: nat)
    requires b > 0 && c > 0
    ensures a / b / c == a / (b * c)
  {
    var q, r := a / (b * c), a % (b * c);
    var r1, r0 := r / b, r % b;
    assert a == b * (c * q + r1) + r0 by {
      assert a == (b * c) * q + r;
      assert r == b * r1 + r0;
    }
    DivModUnique(a, b, c * q + r1, r0);
    if r1 >= c {
      MulMonotone(b, c, r1);
      assert false;
    }
    DivModUnique(a / b, c, q, r1);
  }

  lemma ModSplit(q: nat, m: nat)
    requires m > 0
    ensures q % (2 * m) == q % 2 + 2 * ((q / 2) % m)
  {
    var h, b := q / 2, q % 2;
    var t, u := h / m, h % m;
    assert q == (2 * m) * t + (2 * u + b) by {
      assert h == m * t + u;
    }
    DivModUnique(q, 2 * m, t, 2 * u + b);
  }

  lemma {:induction false} Pow2Add(a: nat, b: nat)
    ensures Pow2(a + b) == Pow2(a) * Pow2(b)
  {
    if a > 0 {
      Pow2Add(a - 1, b);
    }
  }

  lemma Pow2Monotone(k: nat, n: nat)
    requires k < n
    ensures Pow2(k) < Pow2(n)
  {
    Pow2Add(k, n - k);
    MulMonotone(Pow2(k), 2, Pow2(n - k));
  }

  lemma {:induction false} BitOfZero(i: nat)
    ensures Bit(0, i) == 0
  {
    if i > 0 {
      BitOfZero(i - 1);
    }
  }

  // ---------------------------------------------------------------------
  // Properties of fields

  /** Bit `i` is the remainder of `x` shifted right by `i`. */
  lemma {:induction false} BitIsShift(x: nat, i: nat)
    ensures Bit(x, i) == (x / Pow2(i)) % 2
  {
    if i > 0 {
      BitIsShift(x / 2, i - 1);
      DivDiv(x, 2, Pow2(i - 1));
    }
  }

  lemma ShiftModStep(x: nat, p: nat, m: nat)
    requires p > 0 && m > 0
    ensures (x / p) % (2 * m) == (x / p) % 2 + 2 * ((x / (p * 2)) % m)
  {
    ModSplit(x / p, m);
    DivDiv(x, p, 2);
  }

  /** Peeling the lowest bit off a field. */
  lemma FieldStep(x: nat, low: nat, n: nat)
    requires n > 0
    ensures Field(x, low, n) == Bit(x, low) + 2 * Field(x, low + 1, n - 1)
  {
    var p, m := Pow2(low), Pow2(n - 1);
    assert Pow2(n) == 2 * m;
    assert Pow2(low + 1) == p * 2;
    ShiftModStep(x, p, m);
    BitIsShift(x, low);
  }

  /** The arithmetic field and the bit-by-bit field coincide. */
  lemma {:induction false} FieldIsBitsFrom(x: nat, low: nat, n: nat)
    ensures Field(x, low, n) == BitsFrom(x, low, n)
    decreases n
  {
    if n > 0 {
      FieldStep(x, low, n);
      FieldIsBitsFrom(x, low + 1, n - 1);
    }
  }

  lemma {:induction false} BitOfBitsFrom(x: nat, low: nat, n: nat, i: nat)
    ensures Bit(BitsFrom(x, low, n), i) == if i < n then Bit(x, low + i) else 0
    decreases n
  {
    if n == 0 {
      BitOfZero(i);
    } else {
      var rest := BitsFrom(x, low + 1, n - 1);
      assert BitsFrom(x, low, n) == Bit(x, low) + 2 * rest;
      if i > 0 {
        assert (Bit(x, low) + 2 * rest) / 2 == rest;
        BitOfBitsFrom(x, low + 1, n - 1, i - 1);
      }
    }
  }

  /** Bit `i` of the `n`-bit field at `low` is bit `low + i` of `x` when
      `i < n`, and 0 above the field. */
  lemma FieldBits(x: nat, low: nat, n: nat, i: nat)
    ensures Bit(Field(x, low, n), i) == if i < n then Bit(x, low + i) else 0
  {
    FieldIsBitsFrom(x, low, n);
    BitOfBitsFrom(x, low, n, i);
  }

  lemma {:induction false} BitsFromAgree(x: nat, y: nat, low: nat, n: nat)
    requires forall i :: low <= i < low + n ==> Bit(x, i) == Bit(y, i)
    ensures BitsFrom(x, low, n) == BitsFrom(y, low, n)
    decreases n
  {
    if n > 0 {
      BitsFromAgree(x, y, low + 1, n - 1);
    }
  }

  /** A field depends only on the bits inside it: two numbers that agree on
      bits `low .. low + n - 1` have the same field, whatever their other bits. */
  lemma FieldAgree(x: nat, y: nat, low: nat, n: nat)
    requires forall i :: low <= i < low + n ==> Bit(x, i) == Bit(y, i)
    ensures Field(x, low, n) == Field(y, low, n)
  {
    FieldIsBitsFrom(x, low, n);
    FieldIsBitsFrom(y, low, n);
    BitsFromAgree(x, y, low, n);
  }

  /** Masking off the bits from `low + n` upward and then shifting right by
      `low` is the same field as shifting first and masking `n` bits. */
  lemma MaskThenShift(x: nat, low: nat, n: nat)
    ensures (x % Pow2(low + n)) / Pow2(low) == Field(x, low, n)
  {
    Pow2Add(low, n);
    ModThenDiv(x, Pow2(low), Pow2(n));
  }

  lemma ModThenDiv(x: nat, p: nat, m: nat)
    requires p > 0 && m > 0
    ensures (x % (p * m)) / p == (x / p) % m
  {
    var q, r0 := x / p, x % p;
    var t, u := q / m, q % m;
    var rem := p * u + r0;
    assert x == (p * m) * t + rem by {
      assert x == p * q + r0;
      assert q == m * t + u;
      assert p * q == p * (m * t) + p * u;
      assert p * (m * t) == (p * m) * t;
    }
    assert rem < p * m by {
      MulMonotone(p, u + 1, m);
      assert p * (u + 1) == p * u + p;
    }
    DivModUnique(x, p * m, t, rem);
    DivModUnique(rem, p, u, r0);
  }

  lemma FieldOfZero(low: nat, n: nat)
    ensures Field(0, low, n) == 0
  {
    DivModUnique(0, Pow2(low), 0, 0);
  }

  /** The field that starts at `low` of the number with only bit `low + k` set
      is `2^k`, when that bit lies inside the field. */
  lemma FieldOfPow2(low: nat, k: nat, n: nat)
    requires k < n
    ensures Field(Pow2(low + k), low, n) == Pow2(k)
  {
    Pow2Add(low, k);
    DivModUnique(Pow2(low + k), Pow2(low), Pow2(k), 0);
    Pow2Monotone(k, n);
    DivModUnique(Pow2(k), Pow2(n), 0, Pow2(k));
  }

  /** A non-zero number has a set bit. */
  lemma {:induction false} NonzeroHasSetBit(v: nat)
    requires v > 0
    ensures exists i: nat :: Bit(v, i) == 1
    decreases v
  {
    if v % 2 == 1 {
      assert Bit(v, 0) == 1;
    } else {
      NonzeroHasSetBit(v / 2);
      var j: nat :| Bit(v / 2, j) == 1;
      assert Bit(v, j + 1) == 1;
    }
  }

  /** A number fits in `n` bits exactly when all its bits from `n` upward
      are clear. */
  lemma {:induction false} FitsIffHighBitsClear(v: nat, n: nat)
    ensures v < Pow2(n) <==> forall i: nat :: n <= i ==> Bit(v, i) == 0
    decreases n
  {
    if n == 0 {
      if v == 0 {
        forall i: nat ensures Bit(v, i) == 0 {
          BitOfZero(i);
        }
      } else {
        NonzeroHasSetBit(v);
      }
    } else {
      FitsIffHighBitsClear(v / 2, n - 1);
      assert v < Pow2(n) <==> v / 2 < Pow2(n - 1);
      if v < Pow2(n) {
        forall i: nat | n <= i
          ensures Bit(v, i) == 0
        {
          assert Bit(v, i) == Bit(v / 2, i - 1);
        }
      } else {
        var j: nat :| n - 1 <= j && Bit(v / 2, j) != 0;
        assert Bit(v, j + 1) != 0;
      }
    }
  }

  /** Below `2^n`, a number fits in `n - 1` bits exactly when its bit
      `n - 1` is clear. */
  lemma FitsBelowTopBit(v: nat, n: nat)
    requires n > 0 && v < Pow2(n)
    ensures v < Pow2(n - 1) <==> Bit(v, n - 1) == 0
  {
    var p := Pow2(n - 1);
    BitIsShift(v, n - 1);
    if v < p {
      DivModUnique(v, p, 0, v);
    } else {
      DivModUnique(v, p, 1, v - p);
    }
  }
}
