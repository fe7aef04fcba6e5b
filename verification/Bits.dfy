/** Bitwise operations of the C sources on natural numbers, with the few laws the models need.
    Unsigned C values are naturals here; a width is written out where the source truncates. */
module Bits {

  /** `x & y` */
  function And(x: nat, y: nat): (r: nat)
    ensures r <= x && r <= y
  {
    if x == 0 || y == 0 then 0
    else (if x % 2 == 1 && y % 2 == 1 then 1 else 0) + 2 * And(x / 2, y / 2)
  }

  /** `x | y` */
  function Or(x: nat, y: nat): (r: nat)
    ensures x <= r && y <= r && r <= x + y
    decreases x + y
  {
    if x == 0 && y == 0 then 0
    else (if x % 2 == 1 || y % 2 == 1 then 1 else 0) + 2 * Or(x / 2, y / 2)
  }

  /** 1 << k */
  function Pow2(k: nat): (r: nat)
    ensures r >= 1
  {
    if k == 0 then 1 else 2 * Pow2(k - 1)
  }

  lemma {:induction false} Pow2Mono(a: nat, b: nat)
    requires a <= b
    ensures Pow2(a) <= Pow2(b)
  {
    if a < b {
      Pow2Mono(a, b - 1);
    }
  }

  lemma {:induction false} Pow2Inj(a: nat, b: nat)
    requires a < b
    ensures 2 * Pow2(a) <= Pow2(b)
  {
    Pow2Mono(a + 1, b);
  }

  /** Masking with 2^k - 1 is the remainder modulo 2^k. */
  lemma {:induction false} AndMask(x: nat, k: nat)
    ensures And(x, Pow2(k) - 1) == x % Pow2(k)
  {
    if k > 0 {
      var p := Pow2(k - 1);
      AndMask(x / 2, k - 1);
      Halve(2 * p - 1, p - 1, 1);
      AndHalves(x, 2 * p - 1);
      HalfMod(x, p);
    }
  }

  lemma Mask(x: nat, k: nat, p: nat)
    requires Pow2(k) == p
    ensures And(x, p - 1) == x % p
  {
    AndMask(x, k);
  }

  lemma HalfMod(x: nat, p: nat)
    requires p > 0
    ensures x % (2 * p) == 2 * ((x / 2) % p) + x % 2
    ensures x / (2 * p) == (x / 2) / p
  {
    var q, r := (x / 2) / p, (x / 2) % p;
    assert x / 2 == q * p + r;
    assert x == (2 * p) * q + (2 * r + x % 2) by {
      assert 2 * (q * p) == (2 * p) * q;
    }
    ModUnique(x, 2 * p, q, 2 * r + x % 2);
  }

  lemma MulMono(a: int, b: int, c: int)
    requires a <= b && c >= 0
    ensures a * c <= b * c
  {
  }

  lemma SmallMultiple(d: int, k: int)
    requires d > 0 && -d < d * k < d
    ensures k == 0
  {
  }

  lemma ModUnique(x: int, d: nat, q: int, r: nat)
    requires d > 0 && x == d * q + r && r < d
    ensures x % d == r && x / d == q
  {
    var q', r' := x / d, x % d;
    assert x == d * q' + r';
    assert d * (q - q') == d * q - d * q';
    SmallMultiple(d, q - q');
  }

  lemma Halve(x: int, h: int, b: nat)
    requires x == 2 * h + b
    ensures x % 2 == b % 2 && x / 2 == h + b / 2
  {
  }

  lemma OrHalves(x: nat, y: nat)
    ensures Or(x, y) == (if x % 2 == 1 || y % 2 == 1 then 1 else 0) + 2 * Or(x / 2, y / 2)
  {
  }

  lemma AndHalves(x: nat, y: nat)
    ensures And(x, y) == (if x % 2 == 1 && y % 2 == 1 then 1 else 0) + 2 * And(x / 2, y / 2)
  {
  }

  /** `x << k`, by repeated doubling */
  function Shl(x: nat, k: nat): (r: nat)
    ensures r >= x
  {
    if k == 0 then x else 2 * Shl(x, k - 1)
  }

  /** `x >> k`, by repeated halving */
  function Shr(x: nat, k: nat): nat {
    if k == 0 then x else Shr(x / 2, k - 1)
  }

  lemma {:induction false} ShrBounds(x: nat, k: nat, lo: nat, hi: nat)
    requires Shl(lo, k) <= x < Shl(hi, k)
    ensures lo <= Shr(x, k) < hi
  {
    if k > 0 {
      ShrBounds(x / 2, k - 1, lo, hi);
    }
  }

  lemma {:induction false} ShlSub(x: nat, y: nat, k: nat)
    requires y <= x
    ensures Shl(x - y, k) == Shl(x, k) - Shl(y, k)
  {
    if k > 0 {
      ShlSub(x, y, k - 1);
    }
  }

  lemma {:induction false} ShlZero(k: nat)
    ensures Shl(0, k) == 0
  {
    if k > 0 {
      ShlZero(k - 1);
    }
  }

  lemma {:induction false} ShlPow2(j: nat, k: nat)
    ensures Shl(Pow2(j), k) == Pow2(j + k)
  {
    if k > 0 {
      ShlPow2(j, k - 1);
    }
  }

  lemma {:induction false} ShlIsMul(x: nat, k: nat)
    ensures Shl(x, k) == x * Pow2(k)
  {
    if k > 0 {
      ShlIsMul(x, k - 1);
      assert x * (2 * Pow2(k - 1)) == 2 * (x * Pow2(k - 1));
    }
  }

  lemma {:induction false} OrBelow(x: nat, y: nat, k: nat)
    requires x < Pow2(k) && y < Pow2(k)
    ensures Or(x, y) < Pow2(k)
    decreases k
  {
    if k > 0 {
      OrBelow(x / 2, y / 2, k - 1);
      OrHalves(x, y);
    }
  }

  /** `|` of two numbers splits at bit k into the parts above and below it. */
  lemma OrSplit(a: nat, b: nat, c: nat, d: nat, k: nat)
    requires b < Pow2(k) && d < Pow2(k)
    ensures Or(Shl(a, k) + b, Shl(c, k) + d) == Shl(Or(a, c), k) + Or(b, d)
  {
    OrSplitAt(Shl(a, k) + b, Shl(c, k) + d, a, b, c, d, k);
  }

  lemma {:induction false} OrSplitAt(x: nat, y: nat, a: nat, b: nat, c: nat, d: nat, k: nat)
    requires b < Pow2(k) && d < Pow2(k) && x == Shl(a, k) + b && y == Shl(c, k) + d
    ensures Or(x, y) == Shl(Or(a, c), k) + Or(b, d)
    decreases k
  {
    if k > 0 {
      Halve(x, Shl(a, k - 1), b);
      Halve(y, Shl(c, k - 1), d);
      OrSplitAt(x / 2, y / 2, a, b / 2, c, d / 2, k - 1);
      OrHalves(x, y);
      OrHalves(b, d);
    }
  }

  /** `&` splits the same way. */
  lemma AndSplit(a: nat, b: nat, c: nat, d: nat, k: nat)
    requires b < Pow2(k) && d < Pow2(k)
    ensures And(Shl(a, k) + b, Shl(c, k) + d) == Shl(And(a, c), k) + And(b, d)
  {
    AndSplitAt(Shl(a, k) + b, Shl(c, k) + d, a, b, c, d, k);
  }

  lemma {:induction false} AndSplitAt(x: nat, y: nat, a: nat, b: nat, c: nat, d: nat, k: nat)
    requires b < Pow2(k) && d < Pow2(k) && x == Shl(a, k) + b && y == Shl(c, k) + d
    ensures And(x, y) == Shl(And(a, c), k) + And(b, d)
    decreases k
  {
    if k > 0 {
      Halve(x, Shl(a, k - 1), b);
      Halve(y, Shl(c, k - 1), d);
      AndSplitAt(x / 2, y / 2, a, b / 2, c, d / 2, k - 1);
      AndHalves(x, y);
      AndHalves(b, d);
    }
  }

  lemma {:induction false} OrZeroRight(x: nat)
    ensures Or(x, 0) == x
  {
    if x > 0 {
      OrZeroRight(x / 2);
    }
  }

  lemma {:induction false} OrZeroLeft(x: nat)
    ensures Or(0, x) == x
  {
    if x > 0 {
      OrZeroLeft(x / 2);
    }
  }

  /** (x << k) | low packs two fields. */
  lemma Pack(x: nat, low: nat, k: nat, p: nat)
    requires Pow2(k) == p && low < p
    ensures Or(Shl(x, k), low) == x * p + low
  {
    OrSplit(x, 0, 0, low, k);
    ShlZero(k);
    OrZeroRight(x);
    OrZeroLeft(low);
    ShlIsMul(x, k);
  }

  /** x >> k is a quotient. */
  lemma {:induction false} ShrIsDiv(x: nat, k: nat, p: nat)
    requires Pow2(k) == p
    ensures Shr(x, k) == x / p
    decreases k
  {
    if k > 0 {
      ShrIsDiv(x / 2, k - 1, Pow2(k - 1));
      HalfMod(x, Pow2(k - 1));
    }
  }
}
