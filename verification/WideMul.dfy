/**
 The 32 by 32 bit product in two longs, computed from four products of halves.
 */
module WideMul {
  import opened Basics
  const HALF := 0x1_0000

  lemma ProductBound(a: nat, b: nat)
    requires a < HALF && b < HALF
    ensures 0 <= a * b <= (HALF - 1) * (HALF - 1)
  {
    assert a * b <= (HALF - 1) * b by { Mono(a, HALF - 1, b); }
    assert (HALF - 1) * b <= (HALF - 1) * (HALF - 1);
  }

  lemma Mono(a: nat, b: nat, c: nat)
    requires a <= b
    ensures a * c <= b * c
  {
  }

  /** Schoolbook multiplication of the halves. */
  lemma Expand(xh: nat, xl: nat, yh: nat, yl: nat)
    ensures (xh * HALF + xl) * (yh * HALF + yl)
         == xh * yh * WORD32 + (xl * yh + xh * yl) * HALF + xl * yl
  {
    var x := xh * HALF + xl;
    assert x * (yh * HALF + yl) == x * yh * HALF + x * yl;
    assert x * yh == xh * yh * HALF + xl * yh;
    assert x * yl == xh * yl * HALF + xl * yl;
  }

  /** The weighted sum of the four partial products, before any truncation. */
  function Weighted(x0: nat, x1: nat, x2: nat, x3: nat): (v: nat)
  {
    x3 * WORD32 + (x1 + x2) * HALF + x0
  }

  /** No partial product exceeds the square of the largest half. */
  const MAX_PRODUCT := (HALF - 1) * (HALF - 1)

  /**
   The second half of the macro, statement by statement in 32-bit arithmetic. The first
   addition cannot carry; the second one can, and comparing the sum with an addend tells
   exactly whether it did.
   */
  method Combine(p0: nat, p1: nat, p2: nat, p3: nat) returns (hi: nat, lo: nat)
    requires p0 <= MAX_PRODUCT && p1 <= MAX_PRODUCT && p2 <= MAX_PRODUCT && p3 <= MAX_PRODUCT
    requires Weighted(p0, p1, p2, p3) < WORD32 * WORD32
    ensures hi < WORD32 && lo < WORD32
    ensures hi * WORD32 + lo == Weighted(p0, p1, p2, p3)
  {
    hide Weighted;
    var x0, x1, x2, x3 := p0, p1, p2, p3;
    var h0, l0 := x0 / HALF, x0 % HALF;
    FirstAddition(p0, p1);
    x1 := (x1 + h0) % WORD32;
    ghost var carry := if p1 + h0 + p2 < WORD32 then 0 else 1;
    CarryIsSeen(p1 + h0, p2);
    x1 := (x1 + x2) % WORD32;
    CarryFits(p3, carry);
    if x1 < x2 {
      x3 := (x3 + HALF) % WORD32;
    }
    var h1, l1 := Halves(x1);
    SumUp(p0, p1, p2, p3, h0, l0, h1, l1, carry);
    hi := Reduced(x3 + h1);
    lo := Reduced(l1 * HALF + l0);
  }

  /** The two halves of a long. */
  method Halves(x: nat) returns (h: nat, l: nat)
    ensures x == h * HALF + l && l < HALF
  {
    h, l := x / HALF, x % HALF;
  }

  /** A sum in 32-bit arithmetic; one that fits is exact. */
  method Reduced(x: nat) returns (r: nat)
    ensures r < WORD32 && (x < WORD32 ==> r == x)
  {
    r := x % WORD32;
  }

  /** Adding the high half of one product to another one does not carry. */
  lemma FirstAddition(p0: nat, p1: nat)
    requires p0 <= MAX_PRODUCT && p1 <= MAX_PRODUCT
    ensures p0 == p0 / HALF * HALF + p0 % HALF && (p1 + p0 / HALF) % WORD32 == p1 + p0 / HALF < WORD32
  {
  }

  /** The sum of two longs has carried exactly if it is less than an addend. */
  lemma CarryIsSeen(a: nat, b: nat)
    requires a < WORD32 && b < WORD32
    ensures var carry := if a + b < WORD32 then 0 else 1;
            var sum := (a + b) % WORD32;
            a + b == sum + carry * WORD32 && (sum < b <==> carry == 1)
  {
  }

  lemma CarryFits(p3: nat, carry: nat)
    requires p3 <= MAX_PRODUCT && carry <= 1
    ensures (p3 + carry * HALF) % WORD32 == p3 + carry * HALF
  {
  }

  /** Putting the halves together, carry included. */
  lemma SumUp(p0: nat, p1: nat, p2: nat, p3: nat, h0: nat, l0: nat, h1: nat, l1: nat, carry: nat)
    requires p0 == h0 * HALF + l0 && l0 < HALF && l1 < HALF
    requires p1 + h0 + p2 == h1 * HALF + l1 + carry * WORD32
    requires Weighted(p0, p1, p2, p3) < WORD32 * WORD32
    ensures Weighted(p0, p1, p2, p3) == (p3 + carry * HALF + h1) * WORD32 + (l1 * HALF + l0)
    ensures p3 + carry * HALF + h1 < WORD32 && l1 * HALF + l0 < WORD32
  {
  }

  /** Exact product: the two longs together are the product of the arguments. */
  method UMul(x: nat, y: nat) returns (hi: nat, lo: nat)
    requires x < WORD32 && y < WORD32
    ensures hi < WORD32 && lo < WORD32
    ensures hi * WORD32 + lo == x * y
  {
    var xl, xh, yl, yh := x % HALF, x / HALF, y % HALF, y / HALF;
    ProductBound(xl, yl);
    ProductBound(xl, yh);
    ProductBound(xh, yl);
    ProductBound(xh, yh);
    Expand(xh, xl, yh, yl);
    SquareBound(x, y);
    hi, lo := Combine(xl * yl, xl * yh, xh * yl, xh * yh);
  }

  lemma SquareBound(x: nat, y: nat)
    requires x < WORD32 && y < WORD32
    ensures x * y < WORD32 * WORD32
  {
    Mono(x, WORD32, y);
  }
}
