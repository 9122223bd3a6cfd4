/** Powers of two, alignment to them, and the exclusive or of an index with one bit:
    the arithmetic under the buddy allocator's block numbers. */
module Powers {

  function Pow2(k: nat): (r: nat)
    ensures r >= 1
  {
    if k == 0 then 1 else 2 * Pow2(k - 1)
  }

  lemma {:induction false} Pow2Monotone(j: nat, k: nat)
    requires j < k
    ensures 2 * Pow2(j) <= Pow2(k)
  {
    if j + 1 < k {
      Pow2Monotone(j, k - 1);
    }
  }

  lemma Pow2Order(j: nat, k: nat)
    ensures j < k <==> Pow2(j) < Pow2(k)
  {
    if j < k { Pow2Monotone(j, k); }
    if k < j { Pow2Monotone(k, j); }
  }

  /** The low k bits of i are clear. */
  predicate Aligned(i: nat, k: nat) {
    k == 0 || (i % 2 == 0 && Aligned(i / 2, k - 1))
  }

  /** Bit k of i. */
  predicate Bit(i: nat, k: nat) {
    if k == 0 then i % 2 == 1 else Bit(i / 2, k - 1)
  }

  /** Bitwise exclusive or of two unsigned numbers. */
  function Xor(a: nat, b: nat): nat {
    if a == 0 && b == 0 then 0
    else 2 * Xor(a / 2, b / 2) + (if a % 2 != b % 2 then 1 else 0)
  }

  lemma {:induction false} XorZero(a: nat)
    ensures Xor(a, 0) == a
  {
    if a != 0 {
      XorZero(a / 2);
    }
  }

  /** Exclusive or with 2^k moves an index by 2^k, up when the bit is clear and down when it is set. */
  lemma {:induction false} XorOneBit(i: nat, k: nat)
    ensures Bit(i, k) ==> i >= Pow2(k)
    ensures Xor(i, Pow2(k)) == if Bit(i, k) then i - Pow2(k) else i + Pow2(k)
  {
    if k == 0 {
      XorZero(i / 2);
    } else {
      assert Pow2(k) % 2 == 0 && Pow2(k) / 2 == Pow2(k - 1);
      XorOneBit(i / 2, k - 1);
    }
  }

  lemma {:induction false} BitZero(k: nat)
    ensures !Bit(0, k)
  {
    if k > 0 {
      BitZero(k - 1);
    }
  }

  function Times(q: nat, d: nat): nat {
    q * d
  }

  lemma TimesOne(i: nat)
    ensures Times(i, 1) == i
  {
  }

  lemma TimesDouble(q: nat, d: nat)
    ensures Times(q, 2 * d) == 2 * Times(q, d)
  {
  }

  /** Aligned runs start at the multiples of their length. */
  lemma {:induction false} AlignedIsMultiple(i: nat, k: nat)
    ensures Aligned(i, k) ==> exists q: nat :: Times(q, Pow2(k)) == i
    ensures (exists q: nat :: Times(q, Pow2(k)) == i) ==> Aligned(i, k)
  {
    hide Times;
    if k == 0 {
      TimesOne(i);
      assert Times(i, Pow2(k)) == i;
    } else {
      AlignedIsMultiple(i / 2, k - 1);
      var d := Pow2(k - 1);
      if Aligned(i, k) {
        var q: nat :| Times(q, d) == i / 2;
        TimesDouble(q, d);
        assert Times(q, Pow2(k)) == i;
      }
      if q: nat :| Times(q, Pow2(k)) == i {
        TimesDouble(q, d);
        assert Times(q, d) == i / 2;
      }
    }
  }

  /** Halves of an aligned run are aligned; the bit between them is clear in the left half. */
  lemma {:induction false} AlignedHalves(i: nat, k: nat)
    requires Aligned(i, k + 1)
    ensures Aligned(i, k) && Aligned(i + Pow2(k), k)
    ensures !Bit(i, k) && Bit(i + Pow2(k), k)
  {
    if k == 0 {
      assert (i + Pow2(0)) % 2 == 1;
    } else {
      AlignedHalves(i / 2, k - 1);
      assert (i + Pow2(k)) / 2 == i / 2 + Pow2(k - 1);
    }
  }

  /** An aligned run is a half of an aligned run of twice its length. */
  lemma {:induction false} AlignedParent(i: nat, k: nat)
    requires Aligned(i, k)
    ensures Bit(i, k) ==> i >= Pow2(k) && Aligned(i - Pow2(k), k + 1)
    ensures !Bit(i, k) ==> Aligned(i, k + 1)
  {
    if k > 0 {
      AlignedParent(i / 2, k - 1);
    } else {
      assert !Bit(i, 0) ==> Aligned(i, 1);
    }
  }

  /** Two aligned runs that meet are nested: the shorter lies inside the longer. */
  lemma {:induction false} AlignedNested(i: nat, j: nat, h: nat, k: nat)
    requires Aligned(i, j) && Aligned(h, k) && j <= k
    requires i < h + Pow2(k) && h < i + Pow2(j)
    ensures h <= i && i + Pow2(j) <= h + Pow2(k)
  {
    if j > 0 {
      AlignedNested(i / 2, j - 1, h / 2, k - 1);
    }
  }

  lemma {:induction false} Pow2Aligned(k: nat, n: nat)
    requires k <= n
    ensures Aligned(Pow2(n), k)
  {
    if k > 0 {
      assert Pow2(n) == 2 * Pow2(n - 1);
      assert Pow2(n) % 2 == 0 && Pow2(n) / 2 == Pow2(n - 1);
      Pow2Aligned(k - 1, n - 1);
    }
  }

  /** A run aligned to its length is aligned to any shorter one. */
  lemma {:induction false} AlignedLess(i: nat, j: nat, k: nat)
    requires Aligned(i, j) && k <= j
    ensures Aligned(i, k)
  {
    if k > 0 {
      AlignedLess(i / 2, j - 1, k - 1);
    }
  }
}
