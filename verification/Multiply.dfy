/** Mult of machine/mipssim.cc: 64-bit products by shifting and adding 32-bit halves. */
module Multiply {
  import opened Words

  /** The product, one bit of A at a time. */
  function Times(A: nat, B: nat): nat
    decreases A
  {
    if A == 0 then 0 else Times(A / 2, 2 * B) + (if A % 2 == 1 then B else 0)
  }

  lemma {:induction false} TimesIsProduct(A: nat, B: nat)
    ensures Times(A, B) == A * B
    decreases A
  {
    if A == 0 {
    } else {
      var h := A / 2;
      TimesIsProduct(h, 2 * B);
      assert A == 2 * h + A % 2;
      assert h * (2 * B) == 2 * (h * B);
      assert A * B == 2 * (h * B) + (A % 2) * B;
    }
  }

  /** hi:lo holds x, without its bits from 2^64 up, of which there are lost. */
  ghost predicate Holds(hi: int, lo: int, x: nat, lost: nat) {
    0 <= lo < TwoTo32 && 0 <= hi < TwoTo32 && x == hi * TwoTo32 + lo + lost * TwoTo64
  }

  lemma ModOnce(x: nat)
    requires x < 2 * TwoTo32
    ensures x % TwoTo32 == if x < TwoTo32 then x else x - TwoTo32
  {}

  /** Adding two double words held in halves, as the loop does. */
  method AddHalves(lo: nat, hi: nat, bLo: nat, bHi: nat, ghost x: nat, ghost B: nat, ghost lost: nat) returns (lo': nat, hi': nat)
    requires Holds(hi, lo, x, 0) && Holds(bHi, bLo, B, lost) && x + B < TwoTo64
    ensures Holds(hi', lo', x + B, 0)
  {
    assert lost == 0;
    lo' := (lo + bLo) % TwoTo32;
    ModOnce(lo + bLo);
    ghost var carry := if lo' < bLo then 1 else 0;
    assert hi + bHi + carry < TwoTo32 && lo + bLo == lo' + carry * TwoTo32;
    hi' := hi;
    if lo' < bLo { hi' := (hi' + 1) % TwoTo32; }
    hi' := (hi' + bHi) % TwoTo32;
  }

  method ShiftHalves(bLo: nat, bHi: nat, ghost B: nat, ghost lost: nat) returns (bLo': nat, bHi': nat, ghost lost': nat)
    requires Holds(bHi, bLo, B, lost)
    ensures Holds(bHi', bLo', 2 * B, lost')
  {
    bHi' := (2 * bHi) % TwoTo32;
    if bLo >= TwoTo31 { bHi' := bHi' + 1; }
    bLo' := (2 * bLo) % TwoTo32;
    lost' := 2 * lost + (2 * bHi) / TwoTo32;
  }

  lemma BitStep(A: nat, B: nat, acc: nat, p: nat)
    requires acc + Times(A, B) == p
    ensures var acc' := if A % 2 == 1 then acc + B else acc;
            acc' <= p && acc' + Times(A / 2, 2 * B) == p && (A == 1 ==> acc' == p)
  {}

  /** The multiplier a is shifted as a signed int, so that ones come in from the left when it is
      negative; A is what is left of its bits and top is above them. */
  ghost predicate Multiplier(a: int, A: nat, top: nat, negative: bool) {
    A < top && a == A - (if negative then top else 0)
  }

  lemma MultiplierStep(a: int, A: nat, top: nat, negative: bool)
    requires Multiplier(a, A, 2 * top, negative)
    ensures a % 2 == A % 2 && Multiplier(a / 2, A / 2, top, negative) && (a == 1 ==> A == 1)
  {}

  /** The loop: the product of the operands as unsigned numbers.  B is what bHi:bLo would be without
      the loss of its high bits; whenever it is added in, nothing has been lost. */
  method ShiftAndAdd(a0: Word, b: Word) returns (hi: nat, lo: nat)
    ensures hi < TwoTo32 && lo < TwoTo32
    ensures hi * TwoTo32 + lo == Times(Unsigned(a0), Unsigned(b))
  {
    ghost var A: nat, B: nat, lost: nat, acc: nat := Unsigned(a0), Unsigned(b), 0, 0;
    ghost var p := Times(A, B);
    TimesBound(A, B);
    Pow2Of32();
    var a: int := a0;
    var bLo, bHi := Unsigned(b), 0;
    lo, hi := 0, 0;
    for i := 0 to 32
      invariant Holds(hi, lo, acc, 0) && Holds(bHi, bLo, B, lost)
      invariant Multiplier(a, A, Pow2(32 - i), a0 < 0) && acc + Times(A, B) == p
    {
      MultiplierStep(a, A, Pow2(31 - i), a0 < 0);
      BitStep(A, B, acc, p);
      if a % 2 == 1 {
        lo, hi := AddHalves(lo, hi, bLo, bHi, acc, B, lost);
        acc := acc + B;
        if a == 1 { return; }
      }
      bLo, bHi, lost := ShiftHalves(bLo, bHi, B, lost);
      a, A, B := a / 2, A / 2, 2 * B;
    }
  }

  lemma TimesBound(x: nat, y: nat)
    requires x < TwoTo32 && y < TwoTo32
    ensures Times(x, y) < TwoTo64
  {
    TimesIsProduct(x, y);
    MulMono(x, TwoTo32 - 1, y);
  }

  function Magnitude(x: Word): nat {
    if x < 0 then -(x as int) else x
  }

  /** The two's complement of a double word. */
  method Negate(hi: nat, lo: nat) returns (hi': nat, lo': nat)
    requires hi < TwoTo32 && lo < TwoTo32 && hi + lo > 0
    ensures hi' < TwoTo32 && lo' < TwoTo32
    ensures hi' * TwoTo32 + lo' == TwoTo64 - (hi * TwoTo32 + lo)
  {
    hi', lo' := TwoTo32 - 1 - hi, TwoTo32 - 1 - lo;
    lo' := (lo' + 1) % TwoTo32;
    if lo' == 0 { hi' := (hi' + 1) % TwoTo32; }
  }

  /** The double word as an unsigned number and as a signed one. */
  lemma Halves(hi: nat, lo: nat)
    requires hi < TwoTo32 && lo < TwoTo32
    ensures Unsigned(Wrap(hi)) == hi && Unsigned(Wrap(lo)) == lo
    ensures Wrap(hi) == if hi < TwoTo31 then hi else hi - TwoTo32
  {}

  /** hi:lo is the exact product, for all operands, read as signed or unsigned numbers. */
  method Mult(a: Word, b: Word, signedArith: bool) returns (hi: Word, lo: Word)
    ensures signedArith ==> hi * TwoTo32 + Unsigned(lo) == a * b
    ensures !signedArith ==> Unsigned(hi) * TwoTo32 + Unsigned(lo) == Unsigned(a) * Unsigned(b)
  {
    if a == 0 || b == 0 { return 0, 0; }
    var negative, x, y := false, a, b;
    if signedArith {
      if a < 0 { negative, x := !negative, Wrap(-(a as int)); }
      if b < 0 { negative, y := !negative, Wrap(-(b as int)); }
      SignedProduct(a, b);
    }
    var h, l := ShiftAndAdd(x, y);
    TimesIsProduct(Unsigned(x), Unsigned(y));
    if negative { h, l := Negate(h, l); }
    Halves(h, l);
    hi, lo := Wrap(h), Wrap(l);
  }

  lemma SignedProduct(a: Word, b: Word)
    requires a != 0 && b != 0
    ensures Magnitude(a) == Unsigned(if a < 0 then Wrap(-(a as int)) else a)
    ensures Magnitude(b) == Unsigned(if b < 0 then Wrap(-(b as int)) else b)
    ensures var m := Magnitude(a) * Magnitude(b);
            0 < m <= TwoTo31 * TwoTo31 && a * b == if (a < 0) != (b < 0) then -m else m
  {
    MulMono(Magnitude(a), TwoTo31, Magnitude(b));
    MulMono(1, Magnitude(a), Magnitude(b));
    SignOfProduct(a, b);
  }
}
