/** Machine words as naturals, with the bit operations that `hmap` applies to
    sizes and hash values, and the table-size computation of lib/hmap.c. */
module Words {

  const SIZE_MAX: nat := 0xffff_ffff_ffff_ffff

  type size_t = x: nat | x <= SIZE_MAX

  function Pow2(k: nat): (r: nat)
    ensures r >= 1
  {
    if k == 0 then 1 else 2 * Pow2(k - 1)
  }

  /** `x & y` */
  function And(x: nat, y: nat): (r: nat)
    ensures r <= y
    decreases y
  {
    if y == 0 then 0 else (if x % 2 == 1 && y % 2 == 1 then 1 else 0) + 2 * And(x / 2, y / 2)
  }

  /** `x | y` */
  function Or(x: nat, y: nat): nat
    decreases x + y
  {
    if x == 0 && y == 0 then 0 else (if x % 2 == 1 || y % 2 == 1 then 1 else 0) + 2 * Or(x / 2, y / 2)
  }

  /** `x >> k` */
  function Shr(x: nat, k: nat): nat
    decreases k
  {
    if k == 0 then x else Shr(x / 2, k - 1)
  }

  /** Bit `i` of `x`. */
  predicate Bit(x: nat, i: nat)
    decreases i
  {
    if i == 0 then x % 2 == 1 else Bit(x / 2, i - 1)
  }

  /** Number of significant bits of `x`. */
  function Len(x: nat): nat {
    if x == 0 then 0 else 1 + Len(x / 2)
  }

  /** A legal table mask: `mask + 1` is a power of two. */
  ghost predicate IsMask(mask: nat) {
    exists k: nat :: mask == Pow2(k) - 1
  }

  /** Masking with `2^k - 1` is the remainder modulo `2^k`: the bucket a hash falls into. */
  lemma {:induction false} AndMaskIsMod(x: nat, k: nat)
    ensures And(x, Pow2(k) - 1) == x % Pow2(k)
  {
    if k == 0 {
      assert x % 1 == 0;
    } else {
      AndMaskIsMod(x / 2, k - 1);
      AndMaskStep(x, Pow2(k - 1));
      assert Pow2(k) == 2 * Pow2(k - 1);
    }
  }

  lemma {:induction false} AndMaskStep(x: nat, m: nat)
    requires m > 0 && And(x / 2, m - 1) == x / 2 % m
    ensures And(x, 2 * m - 1) == x % (2 * m)
  {
    var r := And(x / 2, m - 1);
    assert And(x, 2 * m - 1) == x % 2 + 2 * r by {
      assert (2 * m - 1) / 2 == m - 1 && (2 * m - 1) % 2 == 1;
    }
    DoubleMod(x, m, r);
  }

  lemma DoubleMod(x: nat, m: nat, r: nat)
    requires m > 0 && r == x / 2 % m
    ensures x % (2 * m) == x % 2 + 2 * r
  {
    var y, q := x / 2, x / 2 / m;
    assert y == m * q + r;
    assert 2 * (m * q) == (2 * m) * q;
    DivModUnique(x, 2 * m, q, 2 * r + x % 2);
  }

  lemma DivModUnique(x: nat, d: nat, q: nat, r: nat)
    requires r < d && x == d * q + r
    ensures x / d == q && x % d == r
  {
    var q', r' := x / d, x % d;
    assert d * q' + r' == x;
    if q' >= q + 1 {
      ProductGap(d, q, q');
    } else if q >= q' + 1 {
      ProductGap(d, q', q);
    }
  }

  lemma ProductGap(d: nat, p: nat, q: nat)
    requires p + 1 <= q
    ensures d * p + d <= d * q
  {
    assert d * q == d * p + d * (q - p);
    assert d * (q - p) == d + d * (q - p - 1);
  }

  lemma {:induction false} OrBit(x: nat, y: nat, i: nat)
    ensures Bit(Or(x, y), i) == (Bit(x, i) || Bit(y, i))
    decreases i
  {
    assert Or(x, y) / 2 == Or(x / 2, y / 2);
    if i > 0 {
      OrBit(x / 2, y / 2, i - 1);
    }
  }

  lemma {:induction false} ShrBit(x: nat, k: nat, i: nat)
    ensures Bit(Shr(x, k), i) == Bit(x, i + k)
    decreases k
  {
    if k > 0 {
      ShrBit(x / 2, k - 1, i);
    }
  }

  lemma {:induction false} LenBits(x: nat, i: nat)
    ensures Bit(x, i) ==> i < Len(x)
    ensures i + 1 == Len(x) ==> Bit(x, i)
    decreases i
  {
    if i > 0 {
      LenBits(x / 2, i - 1);
    } else if Len(x) == 1 {
      assert Len(x / 2) == 0;
    }
  }

  lemma {:induction false} LenMonotone(x: nat, k: nat)
    ensures x < Pow2(k) <==> Len(x) <= k
    decreases k
  {
    if x > 0 && k > 0 {
      LenMonotone(x / 2, k - 1);
    }
  }

  lemma {:induction false} Pow2Monotone(j: nat, k: nat)
    requires j <= k
    ensures Pow2(j) <= Pow2(k)
  {
    if j < k {
      Pow2Monotone(j, k - 1);
    }
  }

  lemma {:induction false} Pow2Add(j: nat, k: nat)
    ensures Pow2(j + k) == Pow2(j) * Pow2(k)
  {
    if j > 0 {
      Pow2Add(j - 1, k);
    }
  }

  lemma {:induction false} AllOnes(x: nat, l: nat)
    requires forall i: nat :: Bit(x, i) <==> i < l
    ensures x == Pow2(l) - 1
    decreases l
  {
    if l == 0 {
      if x > 0 {
        LenBits(x, Len(x) - 1);
      }
    } else {
      forall i: nat
        ensures Bit(x / 2, i) <==> i < l - 1
      {
        assert Bit(x, i + 1) <==> i + 1 < l;
      }
      AllOnes(x / 2, l - 1);
      assert Bit(x, 0);
    }
  }

  /** `x` has `l` significant bits and its top `w` bits are all ones. */
  ghost predicate TopOnes(x: nat, l: nat, w: nat) {
    && (forall i: nat :: Bit(x, i) ==> i < l)
    && (forall i: nat :: l <= i + w && i < l ==> Bit(x, i))
  }

  lemma SmearBit(x: nat, w: nat, i: nat)
    ensures Bit(Or(x, Shr(x, w)), i) <==> Bit(x, i) || Bit(x, i + w)
  {
    OrBit(x, Shr(x, w), i);
    ShrBit(x, w, i);
  }

  /** One step `x |= x >> w` doubles the run of ones at the top. */
  lemma {:induction false} Smear(x: nat, l: nat, w: nat)
    requires TopOnes(x, l, w)
    ensures TopOnes(Or(x, Shr(x, w)), l, 2 * w)
  {
    forall i: nat
      ensures Bit(Or(x, Shr(x, w)), i) ==> i < l
      ensures l <= i + 2 * w && i < l ==> Bit(Or(x, Shr(x, w)), i)
    {
      var j := i + w;
      SmearBit(x, w, i);
      assert Bit(x, i) ==> i < l;
      assert Bit(x, j) ==> j < l;
      assert l <= i + w && i < l ==> Bit(x, i);
      assert l <= j + w && j < l ==> Bit(x, j);
    }
  }

  /** The mask for a capacity: no bucket array for up to one node, otherwise at
      least four buckets and the next power of two. */
  function MaskFor(capacity: nat): nat {
    if capacity / 2 == 1 then 3 else Pow2(Len(capacity / 2)) - 1
  }

  /** lib/hmap.c calc_mask */
  method CalcMask(capacity: size_t) returns (mask: size_t)
    ensures mask == MaskFor(capacity)
  {
    var half := capacity / 2;
    ghost var l := Len(half);
    forall i: nat
      ensures (Bit(half, i) ==> i < l) && (i + 1 == l ==> Bit(half, i))
    {
      LenBits(half, i);
    }
    SizeOfMask(capacity);
    var m: nat := half;
    m := Or(m, Shr(m, 1));
    Smear(half, l, 1);
    ghost var m1 := m;
    m := Or(m, Shr(m, 2));
    Smear(m1, l, 2);
    ghost var m2 := m;
    m := Or(m, Shr(m, 4));
    Smear(m2, l, 4);
    ghost var m3 := m;
    m := Or(m, Shr(m, 8));
    Smear(m3, l, 8);
    ghost var m4 := m;
    m := Or(m, Shr(m, 16));
    Smear(m4, l, 16);
    ghost var m5 := m;
    m := Or(m, Shr(m, 32));
    Smear(m5, l, 32);
    AllOnes(m, l);
    m := Or(m, 2 * And(m, 1));
    SetSecondBit(l);
    mask := m;
  }

  /** `mask |= (mask & 1) << 1` turns 1 into 3 and leaves every other mask alone. */
  lemma SetSecondBit(l: nat)
    ensures Or(Pow2(l) - 1, 2 * And(Pow2(l) - 1, 1)) == if l == 1 then 3 else Pow2(l) - 1
  {
    if l == 1 {
      assert And(1, 1) == 1 && Or(1, 2) == 3 by {
        assert Or(0, 1) == 1;
      }
    } else if l > 1 {
      var m := Pow2(l) - 1;
      assert Pow2(l) == 2 * Pow2(l - 1) && Pow2(l - 1) == 2 * Pow2(l - 2);
      assert m % 2 == 1 && m / 2 == 2 * Pow2(l - 2) - 1;
      assert And(m, 1) == 1 by { assert And(m / 2, 0) == 0; }
      OrWithZero(m / 2 / 2);
      assert Or(m / 2, 1) == m / 2;
    } else {
      assert And(0, 1) == 0 by { assert And(0, 0) == 0; }
    }
  }

  lemma {:induction false} OrWithZero(x: nat)
    ensures Or(x, 0) == x
  {
    if x > 0 {
      OrWithZero(x / 2);
    }
  }

  lemma Pow2Of18()
    ensures Pow2(9) == 0x200 && Pow2(18) == 0x4_0000
  {
    assert Pow2(3) == 8;
    Pow2Add(3, 3);
    Pow2Add(6, 3);
    Pow2Add(9, 9);
  }

  lemma {:induction false} Pow2Of63()
    ensures Pow2(63) == 0x8000_0000_0000_0000
  {
    Pow2Of18();
    Pow2Add(18, 18);
    Pow2Add(36, 18);
    Pow2Add(54, 9);
  }

  lemma SizeOfMask(capacity: size_t)
    ensures MaskFor(capacity) <= SIZE_MAX / 2
    ensures Len(capacity / 2) <= 63
  {
    Pow2Of63();
    LenMonotone(capacity / 2, 63);
    Pow2Monotone(Len(capacity / 2), 63);
  }

  /** MaskFor gives the least of 0, 3, 7, 15, ... that is at least `capacity / 2`. */
  lemma MaskForIsLeast(capacity: nat, k: nat)
    ensures IsMask(MaskFor(capacity)) && MaskFor(capacity) != 1
    ensures MaskFor(capacity) >= capacity / 2
    ensures k != 1 && Pow2(k) - 1 >= capacity / 2 ==> MaskFor(capacity) <= Pow2(k) - 1
  {
    var half := capacity / 2;
    var l := Len(half);
    LenMonotone(half, l);
    if half == 1 {
      assert Pow2(2) - 1 == 3;
      if k > 1 {
        Pow2Monotone(2, k);
      }
    } else if k != 1 && Pow2(k) - 1 >= half {
      LenMonotone(half, k);
      Pow2Monotone(l, k);
    }
    if l == 1 {
      assert half / 2 == 0;
    } else if l > 1 {
      assert Pow2(l) >= 4 by { Pow2Monotone(2, l); assert Pow2(2) == 4; }
    }
  }
}
