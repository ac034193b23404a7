/** Optional results, in place of the source's null pointers and `std::optional`. */
module Wrappers {
  datatype Option<+T> = None | Some(value: T) {
    function GetOr(default: T): T {
      match this
      case Some(v) => v
      case None => default
    }
  }
}

/**
  * Bitwise operators of unsigned C++ integers, on natural numbers. `And` and `Or` work bit
  * by bit; the lemmas say when a mask is a remainder and when an `Or` is a sum.
  */
module Bits {

  const TWO_TO_64: nat := 0x1_0000_0000_0000_0000

  type byte = b: int | 0 <= b < 256

  function Pow2(k: nat): (r: nat)
    ensures r >= 1
  {
    if k == 0 then 1 else 2 * Pow2(k - 1)
  }

  function And(a: nat, b: nat): nat {
    if a == 0 || b == 0 then 0
    else 2 * And(a / 2, b / 2) + (if a % 2 == 1 && b % 2 == 1 then 1 else 0)
  }

  function Or(a: nat, b: nat): nat {
    if a == 0 then b
    else if b == 0 then a
    else 2 * Or(a / 2, b / 2) + (if a % 2 == 1 || b % 2 == 1 then 1 else 0)
  }

  function Shl(v: nat, k: nat): nat {
    if k == 0 then v else 2 * Shl(v, k - 1)
  }

  /** `v << k` on a 64-bit word: bits shifted past the top are lost. */
  function Shl64(v: nat, k: nat): nat {
    Shl(v, k) % TWO_TO_64
  }

  function Shr(v: nat, k: nat): nat {
    if k == 0 then v else Shr(v / 2, k - 1)
  }

  lemma {:induction false} PowSum(a: nat, b: nat)
    ensures Pow2(a + b) == Pow2(a) * Pow2(b)
  {
    if b == 0 {
    } else {
      PowSum(a, b - 1);
      assert Pow2(a + b) == 2 * (Pow2(a) * Pow2(b - 1));
    }
  }

  lemma {:induction false} PowMonotone(a: nat, b: nat)
    requires a <= b
    ensures Pow2(a) <= Pow2(b)
  {
    if a < b {
      PowMonotone(a, b - 1);
    }
  }

  lemma {:induction false} BytePowers()
    ensures Pow2(1) == 2 && Pow2(2) == 4 && Pow2(3) == 8 && Pow2(4) == 16
    ensures Pow2(5) == 32 && Pow2(6) == 64 && Pow2(7) == 128 && Pow2(8) == 256
  {
  }

  lemma {:induction false} WordPower()
    ensures Pow2(64) == TWO_TO_64
  {
    BytePowers();
    PowSum(8, 8);
    assert Pow2(16) == 0x10000;
    PowSum(16, 16);
    assert Pow2(32) == 0x1_0000_0000;
    PowSum(32, 32);
  }

  /** Shifting right divides, rounding down. */
  lemma {:induction false} ShrDivides(v: nat, k: nat)
    ensures Shr(v, k) == v / Pow2(k)
  {
    if k > 0 {
      ShrDivides(v / 2, k - 1);
      DivTwice(v, 2, Pow2(k - 1));
    }
  }

  lemma {:induction false} OrCommutes(a: nat, b: nat)
    ensures Or(a, b) == Or(b, a)
    decreases a
  {
    if a != 0 && b != 0 {
      OrCommutes(a / 2, b / 2);
    }
  }

  /** Or-ing into cleared low bits is addition. */
  lemma {:induction false} OrDisjoint(a: nat, k: nat, b: nat)
    requires b < Pow2(k)
    ensures Or(Shl(a, k), b) == Shl(a, k) + b
  {
    if k > 0 {
      OrDisjoint(a, k - 1, b / 2);
    }
  }

  /** Shifting left multiplies. */
  lemma {:induction false} ShlMultiplies(v: nat, k: nat)
    ensures Shl(v, k) == v * Pow2(k)
  {
    if k > 0 {
      ShlMultiplies(v, k - 1);
      var m := Pow2(k - 1);
      assert v * (2 * m) == 2 * (v * m);
    }
  }

  lemma {:induction false} ShlBound(v: nat, n: nat, k: nat)
    requires v < Pow2(n)
    ensures Shl(v, k) < Pow2(n + k)
  {
    if k > 0 {
      ShlBound(v, n, k - 1);
    }
  }

  lemma {:induction false} ShlByte(v: nat, k: nat)
    ensures Shl(v, k + 8) == 256 * Shl(v, k)
  {
    assert Shl(v, k + 4) == 16 * Shl(v, k) by {
      assert Shl(v, k + 2) == 4 * Shl(v, k);
    }
    assert Shl(v, k + 6) == 4 * Shl(v, k + 4);
    assert Shl(v, k + 8) == 4 * Shl(v, k + 6);
  }

  /** A remainder by `2m` from the remainder by `m` of the halved number. */
  lemma {:induction false} ModDouble(y: nat, m: nat)
    requires m >= 1
    ensures y % (2 * m) == 2 * ((y / 2) % m) + y % 2
  {
    var q, r := (y / 2) / m, (y / 2) % m;
    assert y / 2 == q * m + r;
    assert y == (2 * m) * q + (2 * r + y % 2);
    ModUnique(y, 2 * m, q, 2 * r + y % 2);
  }

  lemma {:induction false} ModUnique(y: nat, m: nat, q: int, r: nat)
    requires r < m && y == m * q + r
    ensures y % m == r && y / m == q
  {
    var q', r' := y / m, y % m;
    assert y == m * q' + r';
    var d := q - q';
    assert m * d == m * q - m * q';
    if d > 0 {
      MulAtLeast(m, d);
    }
  }

  lemma {:induction false} MulAtLeast(m: nat, d: nat)
    requires d >= 1
    ensures m * d >= m
  {
    assert m * d == m * (d - 1) + m;
  }

  /** Masking with `2^k - 1` is the remainder by `2^k`. */
  lemma {:induction false} AndLow(a: nat, k: nat)
    ensures And(a, Pow2(k) - 1) == a % Pow2(k)
  {
    if k > 0 {
      var m := Pow2(k - 1);
      ModDouble(a, m);
      AndLow(a / 2, k - 1);
      assert (Pow2(k) - 1) / 2 == m - 1 && (Pow2(k) - 1) % 2 == 1;
    }
  }

  /** A mask shifted up by `k` selects from the number shifted down by `k`. */
  lemma {:induction false} AndShift(a: nat, k: nat, c: nat)
    ensures And(a, Shl(c, k)) == Shl(And(Shr(a, k), c), k)
  {
    if k > 0 {
      AndShift(a / 2, k - 1, c);
      AndEvenMask(a, Shl(c, k - 1));
    }
  }

  lemma {:induction false} AndEvenMask(a: nat, half: nat)
    ensures And(a, 2 * half) == 2 * And(a / 2, half)
  {
    assert (2 * half) / 2 == half && (2 * half) % 2 == 0;
  }

  /** Masking with a single bit tests that bit. */
  lemma {:induction false} AndBit(a: nat, k: nat)
    ensures And(a, Pow2(k)) == Shl(Shr(a, k) % 2, k)
  {
    ShlOne(k);
    AndShift(a, k, 1);
    AndOne(Shr(a, k));
  }

  lemma {:induction false} ShlOne(k: nat)
    ensures Shl(1, k) == Pow2(k)
    ensures Shl(0, k) == 0
  {
    if k > 0 {
      ShlOne(k - 1);
    }
  }

  lemma {:induction false} AndOne(a: nat)
    ensures And(a, 1) == a % 2
  {
  }

  lemma {:induction false} DivTwice(a: nat, b: nat, c: nat)
    requires b >= 1 && c >= 1
    ensures b * c >= 1
    ensures a / b / c == a / (b * c)
  {
    var q, r := a / b / c, a / b % c;
    assert a / b == c * q + r;
    assert a == b * (c * q + r) + a % b;
    assert b * (c * q + r) == (b * c) * q + b * r by {
      assert b * (c * q) == (b * c) * q;
    }
    assert b * r <= b * (c - 1);
    assert b * (c - 1) == b * c - b;
    ModUnique(a, b * c, q, b * r + a % b);
  }
}
