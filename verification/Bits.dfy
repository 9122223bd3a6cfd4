/** The 32-bit word tricks under get_order: bit smearing up to the next power of two and the
    software count of leading zeroes. Words are naturals below 2^32 and every operation that
    can leave that range is written with its wrap-around. */
module Bits {
  import opened Powers

  const WORD: nat := 0x1_0000_0000

  type Word = x: nat | x < WORD

  /** A sum or difference as a 32-bit unsigned word. */
  function Wrap(x: int): Word {
    x % WORD
  }

  /** Bitwise or. */
  function Or(a: nat, b: nat): nat {
    if a == 0 && b == 0 then 0
    else 2 * Or(a / 2, b / 2) + (if a % 2 == 1 || b % 2 == 1 then 1 else 0)
  }

  function Shr(x: nat, k: nat): nat {
    if k == 0 then x else Shr(x / 2, k - 1)
  }

  function Shl(x: Word, k: nat): Word {
    (x * Pow2(k)) % WORD
  }

  function Smear(x: nat, k: nat): nat {
    Or(x, Shr(x, k))
  }

  function NextPowerOfTwo(x: Word): Word {
    if x <= 1 then 1 else Next(SmearAll(x - 1))
  }

  function SmearAll(x: nat): nat {
    Smear(Smear(Smear(Smear(Smear(x, 1), 2), 4), 8), 16)
  }

  function Next(x: nat): Word {
    (x + 1) % WORD
  }

  /** A count so far and the word shifted left by it. */
  datatype Shifted = Shifted(n: nat, x: Word)

  /** One test of clz32: when the top k bits are clear, count them and shift them out. */
  function ClzStep(s: Shifted, k: nat): Shifted
    requires k <= 32
  {
    if s.x < Pow2(32 - k) then Shifted(s.n + k, Shl(s.x, k)) else s
  }

  function Clz32(x: Word): nat {
    if x == 0 then 32
    else ClzLast(ClzStep(ClzStep(ClzStep(ClzStep(Shifted(0, x), 16), 8), 4), 2))
  }

  function ClzLast(s: Shifted): nat {
    if s.x <= 0x7FFFFFFF then s.n + 1 else s.n
  }

  function GetOrder(n: Word): int {
    var size := NextPowerOfTwo(n);
    if size > 0 then 31 - Clz32(size) else 0
  }

  // ---- Bits of or and shift ----

  lemma {:induction false} BitOr(a: nat, b: nat, k: nat)
    ensures Bit(Or(a, b), k) <==> Bit(a, k) || Bit(b, k)
  {
    if a == 0 && b == 0 {
      BitZero(k);
    } else if k > 0 {
      BitOr(a / 2, b / 2, k - 1);
    }
  }

  lemma {:induction false} BitShr(x: nat, s: nat, k: nat)
    ensures Bit(Shr(x, s), k) <==> Bit(x, k + s)
  {
    if s > 0 {
      BitShr(x / 2, s - 1, k);
    }
  }

  /** Bits t and above: a number below 2^t has none. */
  lemma {:induction false} NoHighBits(x: nat, t: nat, k: nat)
    requires x < Pow2(t) && t <= k
    ensures !Bit(x, k)
  {
    if t == 0 {
      BitZero(k);
    } else {
      NoHighBits(x / 2, t - 1, k - 1);
    }
  }

  /** A number is fixed by its bits: all of the low n and no other. */
  lemma {:induction false} AllOnes(x: nat, n: nat)
    requires forall k: nat :: Bit(x, k) <==> k < n
    ensures x == Pow2(n) - 1
  {
    assert Bit(x, 0) <==> 0 < n;
    if n == 0 {
      NoBits(x);
    } else {
      forall k: nat
        ensures Bit(x / 2, k) <==> k < n - 1
      {
        assert Bit(x, k + 1) <==> k + 1 < n;
      }
      AllOnes(x / 2, n - 1);
    }
  }

  lemma {:induction false} NoBits(x: nat)
    requires forall k: nat :: !Bit(x, k)
    ensures x == 0
  {
    if x > 0 {
      assert !Bit(x, 0);
      forall k: nat
        ensures !Bit(x / 2, k)
      {
        assert !Bit(x, k + 1);
      }
      NoBits(x / 2);
    }
  }

  // ---- Smearing ----

  /** The top set bit of x is bit t, and the s bits from there down are set. */
  ghost predicate Smeared(x: nat, t: nat, s: nat) {
    && (forall k: nat | k > t :: !Bit(x, k))
    && (forall k: nat | k <= t < k + s :: Bit(x, k))
  }

  lemma SmearDoubles(x: nat, t: nat, s: nat)
    requires Smeared(x, t, s) && s > 0
    ensures Smeared(Smear(x, s), t, 2 * s)
  {
    var y := Smear(x, s);
    forall k: nat
      ensures k > t ==> !Bit(y, k)
      ensures k <= t < k + 2 * s ==> Bit(y, k)
    {
      BitOr(x, Shr(x, s), k);
      BitShr(x, s, k);
      assert k > t ==> !Bit(x, k) && !Bit(x, k + s);
      assert k <= t < k + s ==> Bit(x, k);
      assert k + s <= t < k + 2 * s ==> Bit(x, k + s);
    }
  }

  /** x lies between two neighbouring powers of two. */
  lemma {:induction false} TopBit(x: nat) returns (t: nat)
    requires x > 0
    ensures Pow2(t) <= x < Pow2(t + 1)
    ensures Smeared(x, t, 1)
  {
    if x == 1 {
      t := 0;
      assert Bit(1, 0);
    } else {
      t := TopBit(x / 2);
      t := t + 1;
      assert Bit(x, t) <==> Bit(x / 2, t - 1);
    }
    forall k: nat | k > t
      ensures !Bit(x, k)
    {
      NoHighBits(x, t + 1, k);
    }
  }

  lemma SmearAllExact(x: nat, t: nat)
    requires Smeared(x, t, 1) && t < 32
    ensures SmearAll(x) == Pow2(t + 1) - 1
  {
    var x1 := Smear(x, 1);
    SmearDoubles(x, t, 1);
    var x2 := Smear(x1, 2);
    SmearDoubles(x1, t, 2);
    var x3 := Smear(x2, 4);
    SmearDoubles(x2, t, 4);
    var x4 := Smear(x3, 8);
    SmearDoubles(x3, t, 8);
    SmearDoubles(x4, t, 16);
    AllOnes(Smear(x4, 16), t + 1);
  }

  /** The least power of two that is at least x, or zero when that is 2^32. */
  lemma NextPowerOfTwoExact(x: Word) returns (k: nat)
    requires 1 <= x
    ensures x <= Pow2(k) && (k > 0 ==> Pow2(k - 1) < x) && k <= 32
    ensures NextPowerOfTwo(x) == if k == 32 then 0 else Pow2(k)
  {
    hide SmearAll, Next;
    if x == 1 {
      k := 0;
    } else {
      var t := TopBit(x - 1);
      WordTop(x - 1, t);
      SmearAllExact(x - 1, t);
      k := t + 1;
      NextOfOnes(k);
    }
  }

  lemma NextOfOnes(k: nat)
    requires k <= 32
    ensures Next(Pow2(k) - 1) == if k == 32 then 0 else Pow2(k)
  {
    Words();
    Pow2Order(k, 32);
  }

  // ---- Leading zeroes ----

  /** Leading zeroes counted one bit at a time, from bit `bits - 1` down. */
  function LeadingZeroes(x: nat, bits: nat): nat {
    if bits == 0 || Bit(x, bits - 1) then 0 else 1 + LeadingZeroes(x, bits - 1)
  }

  lemma Pow2Plus8(k: nat)
    ensures Pow2(k + 8) == 256 * Pow2(k)
  {
    assert Pow2(k + 2) == 2 * Pow2(k + 1) == 4 * Pow2(k);
    assert Pow2(k + 4) == 2 * Pow2(k + 3) == 4 * Pow2(k + 2);
    assert Pow2(k + 6) == 2 * Pow2(k + 5) == 4 * Pow2(k + 4);
    assert Pow2(k + 8) == 2 * Pow2(k + 7) == 4 * Pow2(k + 6);
  }

  /** The top set bit of x is bit t. */
  predicate TopBitAt(x: nat, t: nat) {
    Pow2(t) <= x < Pow2(t + 1)
  }

  lemma Doubled(x: nat, p: nat)
    ensures x * (2 * p) == 2 * (x * p)
  {
  }

  lemma {:induction false} ScaledTop(x: nat, t: nat, k: nat)
    requires TopBitAt(x, t)
    ensures TopBitAt(x * Pow2(k), t + k)
  {
    if k > 0 {
      ScaledTop(x, t, k - 1);
      Doubled(x, Pow2(k - 1));
    }
  }

  /** A shift that stays within the word moves the top bit. */
  lemma ShlTop(x: Word, t: nat, k: nat)
    requires TopBitAt(x, t) && t + k < 32
    ensures TopBitAt(Shl(x, k), t + k)
  {
    ScaledTop(x, t, k);
    WithinWord(x * Pow2(k), t + k);
  }

  lemma WithinWord(y: nat, t: nat)
    requires TopBitAt(y, t) && t < 32
    ensures y % WORD == y
  {
    Words();
    Pow2Order(32, t + 1);
  }

  /** The word shifted so far has its top bit n places above bit t, fewer than `clear` from the end. */
  ghost predicate Tracks(s: Shifted, t: nat, clear: nat) {
    TopBitAt(s.x, t + s.n) && t + s.n <= 31 < t + s.n + clear
  }

  lemma ClzStepTracks(s: Shifted, t: nat, k: nat)
    requires 0 < k <= 16 && Tracks(s, t, 2 * k)
    ensures Tracks(ClzStep(s, k), t, k)
  {
    Pow2Order(t + s.n, 32 - k);
    Pow2Order(32 - k, t + s.n + 1);
    if s.x < Pow2(32 - k) {
      ShlTop(s.x, t + s.n, k);
    }
  }

  lemma Words()
    ensures Pow2(32) == WORD && Pow2(31) == 0x8000_0000
  {
    assert Pow2(8) == 256 && Pow2(7) == 128;
    Pow2Plus8(8);
    Pow2Plus8(16);
    Pow2Plus8(15);
    Pow2Plus8(7);
    Pow2Plus8(23);
    Pow2Plus8(24);
  }

  lemma ClzLastExact(s: Shifted, t: nat)
    requires Tracks(s, t, 2)
    ensures ClzLast(s) == 31 - t
  {
    Words();
    Pow2Order(t + s.n, 31);
  }

  lemma WordTop(x: Word, t: nat)
    requires TopBitAt(x, t)
    ensures t <= 31
  {
    Words();
    Pow2Order(t, 32);
  }

  /** The count says where the top set bit is. */
  lemma ClzFindsTop(x: Word, t: nat)
    requires TopBitAt(x, t) && t <= 31
    ensures Clz32(x) == 31 - t
  {
    var s := Shifted(0, x);
    ClzStepTracks(s, t, 16);
    ClzStepTracks(ClzStep(s, 16), t, 8);
    ClzStepTracks(ClzStep(ClzStep(s, 16), 8), t, 4);
    ClzStepTracks(ClzStep(ClzStep(ClzStep(s, 16), 8), 4), t, 2);
    ClzLastExact(ClzStep(ClzStep(ClzStep(ClzStep(s, 16), 8), 4), 2), t);
  }

  lemma ClzBrackets(x: Word)
    requires x > 0
    ensures Clz32(x) < 32 && TopBitAt(x, 31 - Clz32(x))
  {
    var t := TopBit(x);
    WordTop(x, t);
    ClzFindsTop(x, t);
  }

  /** clz32 agrees with counting bit by bit. */
  lemma {:induction false} ClzCountsZeroes(x: Word)
    ensures Clz32(x) == LeadingZeroes(x, 32)
  {
    if x == 0 {
      LeadingZeroesBelow(x, 0, 32);
    } else {
      ClzBrackets(x);
      LeadingZeroesBelow(x, 32 - Clz32(x), 32);
    }
  }

  lemma {:induction false} LeadingZeroesBelow(x: nat, top: nat, bits: nat)
    requires x < Pow2(top) && top <= bits && (top > 0 ==> Pow2(top - 1) <= x)
    ensures LeadingZeroes(x, bits) == bits - top
  {
    if bits == top {
      if top > 0 {
        HighBit(x, top - 1);
      }
    } else {
      NoHighBits(x, top, bits - 1);
      LeadingZeroesBelow(x, top, bits - 1);
    }
  }

  lemma {:induction false} HighBit(x: nat, t: nat)
    requires Pow2(t) <= x < Pow2(t + 1)
    ensures Bit(x, t)
  {
    if t > 0 {
      HighBit(x / 2, t - 1);
    }
  }

  // ---- get_order ----

  /** get_order is the least order whose block holds n pages, for every n up to 2^31; from
      there on the smeared word wraps to zero and the result is order 0. */
  lemma GetOrderExact(n: Word)
    requires n >= 1
    ensures n <= 0x8000_0000 <==> GetOrder(n) >= 0 && n <= Pow2(GetOrder(n))
    ensures n <= 0x8000_0000 ==> GetOrder(n) > 0 ==> Pow2(GetOrder(n) - 1) < n
    ensures n > 0x8000_0000 ==> GetOrder(n) == 0
  {
    var k := NextPowerOfTwoExact(n);
    SmallOrder(n, k);
    OrderOf(NextPowerOfTwo(n), k);
  }

  lemma OrderOf(size: Word, k: nat)
    requires k <= 32 && size == if k == 32 then 0 else Pow2(k)
    ensures (if size > 0 then 31 - Clz32(size) else 0) == if k == 32 then 0 else k
  {
    if k < 32 {
      OrderOfPower(k);
    }
  }

  lemma SmallOrder(n: nat, k: nat)
    requires n <= Pow2(k) && (k > 0 ==> Pow2(k - 1) < n) && k <= 32
    ensures n <= 0x8000_0000 <==> k < 32
  {
    Words();
    Pow2Order(31, k);
    if k == 32 {
      assert Pow2(k - 1) == Pow2(31);
    }
  }

  lemma PowerFits(k: nat)
    requires k < 32
    ensures Pow2(k) < WORD
  {
    Words();
    Pow2Order(k, 32);
  }

  lemma OrderOfPower(k: nat)
    requires k < 32
    ensures Pow2(k) < WORD && 31 - Clz32(Pow2(k)) == k
  {
    hide Clz32, TopBitAt;
    PowerFits(k);
    ClzBrackets(Pow2(k));
    SamePower(k, 31 - Clz32(Pow2(k)));
  }

  lemma SamePower(k: nat, j: nat)
    requires TopBitAt(Pow2(k), j)
    ensures j == k
  {
    Pow2Order(k, j);
    Pow2Order(j + 1, k);
  }
}
