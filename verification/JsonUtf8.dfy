/** deps/cJSON.c: parse_hex4 and utf16_literal_to_utf8 as the code does them, with shifts and masks, against
    their arithmetic meaning. */
module JsonUtf8 {
  import opened Bits
  import opened Bytes
  import opened JsonStrings

  // ---- Masks and shifts -----------------------------------------------------------------------------------

  lemma Powers()
    ensures Pow2(6) == 64 && Pow2(8) == 256 && Pow2(10) == 1024
  {
    assert Pow2(4) == 16;
    assert Pow2(7) == 128;
  }

  /** 0x10000 + (((first & 0x3FF) << 10) | (second & 0x3FF)) */
  lemma PairIs(first: nat, second: nat)
    requires IsHigh(first) && IsLow(second)
    ensures 0x10000 + Or(Shl(And(first, 0x3FF), 10), And(second, 0x3FF)) == Paired(first, second)
  {
    PairFields(first, second, 10, 1024) by { Powers(); }
  }

  lemma PairFields(first: nat, second: nat, k: nat, p: nat)
    requires IsHigh(first) && IsLow(second) && Pow2(k) == p == 1024
    ensures Or(Shl(And(first, p - 1), k), And(second, p - 1)) == (first - 0xD800) * p + (second - 0xDC00)
  {
    Mask(first, k, p);
    Mask(second, k, p);
    ModUnique(first, p, 54, first - 0xD800);
    ModUnique(second, p, 55, second - 0xDC00);
    Pack(first - 0xD800, second - 0xDC00, k, p);
  }

  /** (x | 0x80) & 0xBF is 10xxxxxx. */
  lemma Continuation(x: nat)
    ensures And(Or(x, 0x80), 0xBF) == 0x80 + x % 64
  {
    ContinuationAt(x, 6, 64) by { Powers(); }
  }

  lemma ContinuationAt(x: nat, k: nat, p: nat)
    requires Pow2(k) == p == 64
    ensures And(Or(x, 2 * p), 2 * p + p - 1) == 2 * p + x % p
  {
    var a, b := x / p, x % p;
    ShlIsMul(a, k);
    ShlIsMul(2, k);
    OrSplit(a, b, 2, 0, k);
    OrZeroRight(b);
    var y := Or(a, 2);
    assert Or(x, 2 * p) == Shl(y, k) + b;
    AndSplit(y, b, 2, p - 1, k);
    Mask(b, k, p);
    KeepTwo(a);
    ModUnique(b, p, 0, b);
  }

  /** Bit 1 is set by | 2 and kept by & 2. */
  lemma KeepTwo(a: nat)
    ensures And(Or(a, 2), 2) == 2
  {
    var y, z := Or(a, 2), Or(a / 2, 1);
    OrHalves(a, 2);
    OddOr(a / 2);
    Halve(y, z, a % 2);
    AndHalves(y, 2);
    KeepOne(z);
  }

  lemma OddOr(a: nat)
    ensures Or(a, 1) % 2 == 1
  {
    OrHalves(a, 1);
  }

  lemma KeepOne(z: nat)
    requires z % 2 == 1
    ensures And(z, 1) == 1
  {
    AndHalves(z, 1);
  }

  /** The first byte: a mark above k free bits */
  lemma FirstByte(x: nat, ones: nat, k: nat, mark: nat)
    requires x < Pow2(k) && mark == Shl(ones, k) && mark + x < 256
    ensures And(Or(x, mark), 0xFF) == mark + x
  {
    FirstByteAt(x, ones, k, mark, 8, 256) by { Powers(); }
  }

  lemma FirstByteAt(x: nat, ones: nat, k: nat, mark: nat, w: nat, full: nat)
    requires x < Pow2(k) && mark == Shl(ones, k) && Pow2(w) == full && mark + x < full
    ensures And(Or(x, mark), full - 1) == mark + x
  {
    MarkOn(x, ones, k);
    Mask(mark + x, w, full);
    ModUnique(mark + x, full, 0, mark + x);
  }

  /** The mark and the free bits have no bit in common. */
  lemma MarkOn(x: nat, ones: nat, k: nat)
    requires x < Pow2(k)
    ensures Or(x, Shl(ones, k)) == Shl(ones, k) + x
  {
    ShlZero(k);
    OrSplit(0, x, ones, 0, k);
    OrZeroLeft(ones);
    OrZeroRight(x);
  }
}
