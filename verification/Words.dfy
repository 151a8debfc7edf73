/** The host's 32-bit int as the simulator uses it: wrap-around arithmetic, shifts and bits. */
module Words {
  const TwoTo31: int := 0x8000_0000
  const TwoTo32: int := 0x1_0000_0000
  const TwoTo64: int := 0x1_0000_0000_0000_0000

  type Word = x: int | -TwoTo31 <= x < TwoTo31

  /** The int that x becomes. */
  function Wrap(x: int): (w: Word)
    ensures (w - x) % TwoTo32 == 0
    ensures -TwoTo31 <= x < TwoTo31 ==> w == x
  {
    (x + TwoTo31) % TwoTo32 - TwoTo31
  }

  /** (unsigned) x */
  function Unsigned(x: Word): (u: nat)
    ensures u < TwoTo32
  {
    if x < 0 then x + TwoTo32 else x
  }

  lemma WrapUnsigned(x: Word)
    ensures Wrap(Unsigned(x)) == x
  {}

  lemma {:induction false} MulMono(x: int, y: int, z: nat)
    requires x <= y
    ensures x * z <= y * z
  {
    if z == 0 {
    } else {
      MulMono(x, y, z - 1);
    }
  }

  lemma SignOfProduct(a: int, b: int)
    ensures (-a) * b == -(a * b) && a * (-b) == -(a * b) && (-a) * (-b) == a * b
  {}

  function Pow2(n: nat): (p: nat)
    ensures p > 0 && (n > 0 ==> p >= 2)
  {
    if n == 0 then 1 else 2 * Pow2(n - 1)
  }

  lemma Pow2Plus4(n: nat)
    ensures Pow2(n + 4) == 16 * Pow2(n)
  {
    assert Pow2(n + 4) == 2 * Pow2(n + 3) && Pow2(n + 2) == 2 * Pow2(n + 1);
  }

  lemma Pow2Of32()
    ensures Pow2(32) == TwoTo32
  {
    Pow2Plus4(0); Pow2Plus4(4); Pow2Plus4(8); Pow2Plus4(12);
    Pow2Plus4(16); Pow2Plus4(20); Pow2Plus4(24); Pow2Plus4(28);
  }

  /** x << n */
  function ShiftLeft(x: Word, n: nat): Word {
    Wrap(x * Pow2(n))
  }

  /** x >> n of a signed x, which copies the sign. */
  function ShiftRight(x: Word, n: nat): Word {
    QuotientInRange(x, Pow2(n)); x / Pow2(n)
  }

  lemma QuotientInRange(x: Word, p: nat)
    requires p > 0
    ensures -TwoTo31 <= x / p < TwoTo31
    ensures x >= 0 <==> x / p >= 0
  {
    var q := x / p;
    assert x == q * p + x % p;
    if q >= 0 {
      MulMono(1, p, q);
    } else {
      MulMono(1, p, -(q + 1));
      assert (q + 1) * p == q * p + p;
      assert p * -(q + 1) == -((q + 1) * p);
    }
  }

  /** x >> n of an unsigned x. */
  function ShiftRightUnsigned(x: Word, n: nat): Word {
    Wrap(Unsigned(x) / Pow2(n))
  }

  lemma HalfOrLess(u: nat, p: nat)
    requires p >= 2
    ensures 0 <= u / p <= u / 2
  {
    var q := u / p;
    assert u == q * p + u % p;
    MulMono(2, p, q);
  }

  /** The signed and the unsigned shift differ exactly when the sign bit is set and it moves. */
  lemma ShiftsAgree(x: Word, n: nat)
    ensures ShiftRight(x, n) == ShiftRightUnsigned(x, n) <==> x >= 0 || n == 0
  {
    QuotientInRange(x, Pow2(n));
    if n == 0 {
      WrapUnsigned(x);
    } else {
      HalfOrLess(Unsigned(x), Pow2(n));
    }
  }

  // ---------------------------------------------------------------- bits

  function BitAnd(x: nat, y: nat): nat
    decreases x
  {
    if x == 0 then 0 else 2 * BitAnd(x / 2, y / 2) + (if x % 2 == 1 && y % 2 == 1 then 1 else 0)
  }

  function BitOr(x: nat, y: nat): nat
    decreases x + y
  {
    if x == 0 && y == 0 then 0 else 2 * BitOr(x / 2, y / 2) + (if x % 2 == 1 || y % 2 == 1 then 1 else 0)
  }

  function BitXor(x: nat, y: nat): nat
    decreases x + y
  {
    if x == 0 && y == 0 then 0 else 2 * BitXor(x / 2, y / 2) + (if x % 2 != y % 2 then 1 else 0)
  }

  /** The k-th bit, the lowest first. */
  predicate BitAt(x: nat, k: nat) {
    if k == 0 then x % 2 == 1 else BitAt(x / 2, k - 1)
  }

  /** The operations work bit by bit. */
  lemma {:induction false} BitwiseIsBitByBit(x: nat, y: nat, k: nat)
    ensures BitAt(BitAnd(x, y), k) <==> BitAt(x, k) && BitAt(y, k)
    ensures BitAt(BitOr(x, y), k) <==> BitAt(x, k) || BitAt(y, k)
    ensures BitAt(BitXor(x, y), k) <==> BitAt(x, k) != BitAt(y, k)
    decreases k
  {
    if k == 0 {
    } else {
      BitwiseIsBitByBit(x / 2, y / 2, k - 1);
      assert BitAnd(x, y) / 2 == BitAnd(x / 2, y / 2);
      assert BitOr(x, y) / 2 == BitOr(x / 2, y / 2);
      assert BitXor(x, y) / 2 == BitXor(x / 2, y / 2);
    }
  }

  /** The complement of a word, as an unsigned number, has the other bits. */
  lemma {:induction false} ComplementBits(u: nat, k: nat, n: nat)
    requires u < Pow2(n) && k < n
    ensures BitAt(Pow2(n) - 1 - u, k) <==> !BitAt(u, k)
    decreases k
  {
    var v := Pow2(n) - 1 - u;
    assert v / 2 == Pow2(n - 1) - 1 - u / 2;
    if k == 0 {
    } else {
      ComplementBits(u / 2, k - 1, n - 1);
    }
  }

  lemma {:induction false} BitOrBelow(x: nat, y: nat, n: nat)
    requires x < Pow2(n) && y < Pow2(n)
    ensures BitOr(x, y) < Pow2(n)
    decreases n
  {
    if n > 0 && !(x == 0 && y == 0) { BitOrBelow(x / 2, y / 2, n - 1); }
  }

  lemma {:induction false} BitOrSelf(x: nat)
    ensures BitOr(x, x) == x
  {
    if x == 0 {
    } else {
      BitOrSelf(x / 2);
    }
  }

  /** Or-ing y into x changes nothing exactly when x has every bit of y. */
  lemma {:induction false} BitOrAbsorbs(x: nat, y: nat)
    ensures BitOr(x, y) == x <==> BitAnd(y, x) == y
    ensures BitAnd(y, x) <= y && x <= BitOr(x, y)
    decreases x + y
  {
    if x > 0 || y > 0 { BitOrAbsorbs(x / 2, y / 2); }
  }

  function And(x: Word, y: Word): Word {
    Wrap(BitAnd(Unsigned(x), Unsigned(y)))
  }

  function Or(x: Word, y: Word): Word {
    Wrap(BitOr(Unsigned(x), Unsigned(y)))
  }

  function Xor(x: Word, y: Word): Word {
    Wrap(BitXor(Unsigned(x), Unsigned(y)))
  }

  function Not(x: Word): Word {
    -1 - x
  }

  lemma OrSelf(x: Word)
    ensures Or(x, x) == x
  {
    BitOrSelf(Unsigned(x));
    WrapUnsigned(x);
  }

  /** x | y is x exactly when y has no bit that x lacks. */
  lemma OrAbsorbs(x: Word, y: Word)
    ensures Or(x, y) == x <==> And(y, x) == y
  {
    var u, v := Unsigned(x), Unsigned(y);
    Pow2Of32();
    BitOrBelow(u, v, 32);
    BitOrAbsorbs(u, v);
    WrapUnsigned(x);
    WrapUnsigned(y);
    Injective(BitOr(u, v), u);
    Injective(BitAnd(v, u), v);
  }

  lemma Injective(u: nat, v: nat)
    requires u < TwoTo32 && v < TwoTo32
    ensures Wrap(u) == Wrap(v) <==> u == v
  {}
}
