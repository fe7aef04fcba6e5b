/** bridge/bridge_config.c: the slot count of the command ring, and why `seq & mask` indexes it. */
module RingConfig {
  import opened Bits
  import opened Bytes

  const SLOTS_DEFAULT: nat := 4096
  const SLOTS_MIN: nat := 64
  const SLOTS_MAX: nat := 65536

  /** is_pow2 */
  predicate IsPow2(v: nat) {
    v != 0 && And(v, v - 1) == 0
  }

  lemma {:induction false} AndSelf(x: nat)
    ensures And(x, x) == x
  {
    if x > 0 {
      AndSelf(x / 2);
    }
  }

  lemma {:induction false} IsPow2Exponent(v: nat) returns (k: nat)
    requires IsPow2(v)
    ensures v == Pow2(k)
  {
    if v == 1 {
      k := 0;
    } else if v % 2 == 1 {
      assert (v - 1) / 2 == v / 2;
      AndSelf(v / 2);
    } else {
      assert (v - 1) % 2 == 1 && (v - 1) / 2 == v / 2 - 1;
      var j := IsPow2Exponent(v / 2);
      k := j + 1;
    }
  }

  lemma {:induction false} Pow2IsPow2(k: nat)
    ensures IsPow2(Pow2(k))
  {
    if k > 0 {
      Pow2IsPow2(k - 1);
      var v := Pow2(k);
      assert (v - 1) % 2 == 1 && (v - 1) / 2 == v / 2 - 1;
    }
  }

  /** is_pow2 decides exactly the powers of two. */
  lemma IsPow2Iff(v: nat)
    ensures IsPow2(v) <==> exists k: nat :: v == Pow2(k)
  {
    if IsPow2(v) {
      var k := IsPow2Exponent(v);
    }
    forall k: nat | v == Pow2(k) ensures IsPow2(v) {
      Pow2IsPow2(k);
    }
  }

  /** Number of significant bits. */
  function Len(w: nat): nat {
    if w == 0 then 0 else 1 + Len(w / 2)
  }

  lemma {:induction false} LenBounds(w: nat)
    ensures w < Pow2(Len(w))
    ensures w > 0 ==> Len(w) > 0 && Pow2(Len(w) - 1) <= w
  {
    if w > 1 {
      LenBounds(w / 2);
    } else {
      assert Pow2(1) == 2 * Pow2(0);
    }
  }

  lemma {:induction false} LenAtMost(w: nat, k: nat)
    requires w < Pow2(k)
    ensures Len(w) <= k
  {
    if w > 0 {
      LenAtMost(w / 2, k - 1);
    }
  }

  /** The top m of the len bits of x are ones. */
  ghost predicate Smeared(x: nat, len: nat, m: nat) {
    m <= len && Pow2(len) - Pow2(len - m) <= x < Pow2(len)
  }

  function Min(a: nat, b: nat): nat { if a < b then a else b }

  /** x >> m moves the m leading ones down by m places. */
  lemma ShiftSmeared(x: nat, len: nat, m: nat)
    requires 0 < m && Smeared(x, len, m)
    ensures Pow2(len - m) - Pow2(len - Min(2 * m, len)) <= Shr(x, m) < Pow2(len - m)
  {
    var k := len - m;
    ShlPow2(k, m);
    if 2 * m <= len {
      Pow2Mono(k - m, k);
      ShlPow2(k - m, m);
      ShlSub(Pow2(k), Pow2(k - m), m);
      ShrBounds(x, m, Pow2(k) - Pow2(k - m), Pow2(k));
    } else {
      Pow2Mono(k, m);
      ShlPow2(0, m);
      ShlSub(Pow2(k), 1, m);
      ShrBounds(x, m, Pow2(k) - 1, Pow2(k));
    }
  }

  /** x | x >> m has twice as many leading ones, up to its length. */
  lemma SmearStep(x: nat, len: nat, m: nat)
    requires 0 < m && Smeared(x, len, m)
    ensures Smeared(Or(x, Shr(x, m)), len, Min(2 * m, len))
  {
    var k, z, ones := len - m, Shr(x, m), Pow2(m) - 1;
    ShiftSmeared(x, len, m);
    OnesAbove(len, m);
    OrOnTop(x, z, ones, Shl(ones, k), k);
    OrBelow(x - Shl(ones, k), z, k);
  }

  lemma OnesAbove(len: nat, m: nat)
    requires m <= len
    ensures Shl(Pow2(m) - 1, len - m) == Pow2(len) - Pow2(len - m)
  {
    ShlPow2(m, len - m);
    ShlPow2(0, len - m);
    ShlSub(Pow2(m), 1, len - m);
  }

  lemma OrOnTop(x: nat, z: nat, ones: nat, top: nat, k: nat)
    requires top == Shl(ones, k) <= x < top + Pow2(k) && z < Pow2(k)
    ensures Or(x, z) == top + Or(x - top, z)
  {
    ShlZero(k);
    OrZeroRight(ones);
    OrSplit(ones, x - top, 0, z, k);
  }

  /** The same step written for any shift, also one past the length. */
  lemma SmearAgain(x: nat, len: nat, m: nat)
    requires 0 < m && 0 < len && Smeared(x, len, Min(m, len))
    ensures Smeared(Or(x, Shr(x, m)), len, Min(2 * m, len))
  {
    if m <= len {
      SmearStep(x, len, m);
    } else {
      Pow2Mono(len, m);
      ShlPow2(0, m);
      ShlZero(m);
      ShrBounds(x, m, 0, 1);
      OrZeroRight(x);
    }
  }

  /** All significant bits of v - 1 are ones: adding 1 gives the power of two above it. */
  lemma RoundedUp(v: nat, x: nat, width: nat)
    requires 0 < width && Pow2(width) == U32
    requires 2 <= v < U32 && Smeared(x, Len(v - 1), Min(width, Len(v - 1)))
    ensures var r := (x + 1) % U32;
      if v <= U32 / 2 then IsPow2(r) && v <= r < 2 * v else r == 0
  {
    var len := Len(v - 1);
    LenBounds(v - 1);
    LenAtMost(v - 1, width);
    assert x + 1 == Pow2(len) by { assert Pow2(0) == 1; }
    Pow2Mono(len, width);
    if len < width {
      Pow2Mono(len, width - 1);
      Pow2IsPow2(len);
    }
    Rounding(v, Pow2(len));
  }

  /** From the power of two right above v - 1 */
  lemma Rounding(v: nat, p: nat)
    requires 2 <= v < U32 && v <= p <= 2 * (v - 1) && (p == U32 || (IsPow2(p) && p <= U32 / 2))
    ensures if v <= U32 / 2 then IsPow2(p % U32) && v <= p % U32 < 2 * v else p % U32 == 0
  {
  }

  /** round_up_pow2: the least power of two not below v, and 0 when that does not fit 32 bits. */
  method RoundUpPow2(v: nat) returns (r: nat)
    requires v < U32
    ensures v <= U32 / 2 ==> IsPow2(r) && v <= r && (r > 1 ==> r < 2 * v)
    ensures v > U32 / 2 ==> r == 0
  {
    if v < 2 {
      r := 1;
      Pow2IsPow2(0);
      return;
    }
    ghost var len := Len(v - 1);
    LenBounds(v - 1);
    var x := Or(v - 1, Shr(v - 1, 1));
    SmearAgain(v - 1, len, 1);
    ghost var y := x;
    x := Or(x, Shr(x, 2));
    SmearAgain(y, len, 2);
    y := x;
    x := Or(x, Shr(x, 4));
    SmearAgain(y, len, 4);
    y := x;
    x := Or(x, Shr(x, 8));
    SmearAgain(y, len, 8);
    y := x;
    x := Or(x, Shr(x, 16));
    SmearAgain(y, len, 16);
    RoundedUp(v, x, 32) by { Pow2Values(); }
    r := (x + 1) % U32;
  }

  lemma Pow2Values()
    ensures Pow2(6) == 64 && Pow2(8) == 256 && Pow2(10) == 1024 && Pow2(16) == 65536
    ensures Pow2(32) == U32
  {
    assert Pow2(5) == 32 && Pow2(9) == 2 * Pow2(8) && Pow2(11) == 2 * Pow2(10);
    assert Pow2(8) == 256 && Pow2(13) == 8192;
    assert Pow2(16) == 65536;
    assert Pow2(19) == 524288;
    assert Pow2(22) == 4194304;
    assert Pow2(25) == 0x200_0000;
    assert Pow2(28) == 0x1000_0000;
    assert Pow2(31) == 0x8000_0000;
  }

  lemma {:induction false} Pow2Unique(a: nat, b: nat)
    requires IsPow2(a) && IsPow2(b) && a <= b < 2 * a
    ensures a == b
  {
    var j := IsPow2Exponent(a);
    var k := IsPow2Exponent(b);
    if j < k {
      Pow2Inj(j, k);
    } else if k < j {
      Pow2Inj(k, j);
    }
  }

  function Clamp(v: nat): nat {
    if v < SLOTS_MIN then SLOTS_MIN else if v > SLOTS_MAX then SLOTS_MAX else v
  }

  /** The configured slot count, loaded once and cached. */
  class BridgeConfig {
    var cfgSlots: int
    var ringSlots: nat

    constructor (configured: int)
      ensures cfgSlots == configured && ringSlots == 0
    {
      cfgSlots, ringSlots := configured, 0;
    }

    /** load_ring_slots: truncate to 32 bits, clamp, round up. */
    method LoadRingSlots() returns (slots: nat)
      ensures IsPow2(slots) && SLOTS_MIN <= slots <= SLOTS_MAX
      ensures var want := Clamp(cfgSlots % U32); want <= slots < 2 * want
    {
      slots := cfgSlots % U32;
      if slots < SLOTS_MIN || slots > SLOTS_MAX {
        slots := if slots < SLOTS_MIN then SLOTS_MIN else SLOTS_MAX;
      }
      Pow2Values();
      if !IsPow2(slots) {
        ghost var before := slots;
        slots := RoundUpPow2(slots);
        if slots > SLOTS_MAX {
          Pow2IsPow2(16);
          assert IsPow2(SLOTS_MAX) && SLOTS_MAX < slots < 2 * SLOTS_MAX;
          Pow2Unique(SLOTS_MAX, slots);
        }
      }
    }

    /** bridge_config_ring_slots: the first call loads the count, later calls return the same one. */
    method RingSlots() returns (slots: nat)
      requires ringSlots == 0 || (IsPow2(ringSlots) && SLOTS_MIN <= ringSlots <= SLOTS_MAX)
      modifies this`ringSlots
      ensures slots == ringSlots && IsPow2(slots) && SLOTS_MIN <= slots <= SLOTS_MAX
      ensures old(ringSlots) != 0 ==> slots == old(ringSlots)
      ensures old(ringSlots) == 0 ==> var want := Clamp(cfgSlots % U32); want <= slots < 2 * want
    {
      if ringSlots == 0 {
        ringSlots := LoadRingSlots();
      }
      slots := ringSlots;
    }
  }

  /** `seq & mask`, the ring index of a sequence number. */
  function SlotOf(sn: nat, slots: nat): nat
    requires slots > 0
  {
    And(sn, slots - 1)
  }

  lemma SlotOfIsMod(sn: nat, slots: nat)
    requires IsPow2(slots)
    ensures SlotOf(sn, slots) == sn % slots && SlotOf(sn, slots) < slots
  {
    var k := IsPow2Exponent(slots);
    AndMask(sn, k);
  }

  /** Two sequence numbers less than a ring apart never share a slot. */
  lemma SlotsDistinct(a: nat, b: nat, slots: nat)
    requires IsPow2(slots) && a < b < a + slots
    ensures SlotOf(a, slots) != SlotOf(b, slots)
  {
    SlotOfIsMod(a, slots);
    SlotOfIsMod(b, slots);
    ModDistinct(a, b, slots);
  }

  lemma ModDistinct(a: int, b: int, m: nat)
    requires m > 0 && a < b < a + m
    ensures a % m != b % m
  {
    var q := b / m - a / m;
    assert b - a == m * q + (b % m - a % m) by {
      assert a == m * (a / m) + a % m && b == m * (b / m) + b % m;
      assert m * (b / m) - m * (a / m) == m * q;
    }
    if a % m == b % m {
      SmallMultiple(m, q);
    }
  }
}
