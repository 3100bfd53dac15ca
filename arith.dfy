/** Integer facts the block and buffer arithmetic rests on: multiplication is
    monotone, quotient and remainder are unique, and the index py * W + px of a
    row-major grid names each pixel once. */
module Arith {

  /** Number of blocks of size B needed to cover n cells, rounding up. */
  function CeilDiv(n: nat, B: nat): (q: nat)
    requires B > 0
  {
    (n + B - 1) / B
  }

  lemma MulMono(a: int, b: int, B: int)
    requires B >= 0 && a <= b
    ensures a * B <= b * B
  {
    assert b * B - a * B == (b - a) * B;
  }

  lemma MulSucc(k: int, n: int)
    ensures (k + 1) * n == k * n + n
  {
  }

  /** Quotient and remainder are determined by a == q * B + r with 0 <= r < B. */
  lemma DivModUnique(a: int, B: int, q: int, r: int)
    requires B > 0 && 0 <= r < B && a == q * B + r
    ensures a / B == q && a % B == r
  {
    var q0, r0 := a / B, a % B;
    assert a == q0 * B + r0;
    if q > q0 {
      MulMono(q0 + 1, q, B);
    } else if q < q0 {
      MulMono(q + 1, q0, B);
    }
  }

  /** Two distinct multiples of B are at least B apart. */
  lemma AlignedGap(a: nat, b: nat, B: nat)
    requires B > 0 && a % B == 0 && b % B == 0 && b < a
    ensures b + B <= a
  {
    var qa, qb := a / B, b / B;
    assert a == qa * B && b == qb * B;
    if qa <= qb {
      MulMono(qa, qb, B);
    } else {
      MulMono(qb + 1, qa, B);
      assert (qb + 1) * B == qb * B + B;
    }
  }

  /** Adding B keeps a multiple of B a multiple of B. */
  lemma AlignedStep(a: nat, B: nat)
    requires B > 0 && a % B == 0
    ensures (a + B) % B == 0
  {
    var q := a / B;
    assert a == q * B;
    assert a + B == (q + 1) * B + 0;
    DivModUnique(a + B, B, q + 1, 0);
  }

  /** The origin of the B-grid cell holding p is a multiple of B at most B - 1 below p. */
  lemma CellOrigin(p: nat, B: nat)
    requires B > 0
    ensures (p - p % B) % B == 0 && p - p % B <= p < p - p % B + B
  {
    var q := p / B;
    assert p - p % B == q * B + 0;
    DivModUnique(p - p % B, B, q, 0);
  }

  /** One more block of B cells adds one to the rounded-up quotient. */
  lemma CeilDivStep(n: nat, B: nat)
    requires B > 0 && n > B
    ensures CeilDiv(n, B) == 1 + CeilDiv(n - B, B)
  {
    var m := n - 1;
    var q, r := m / B, m % B;
    assert m == q * B + r;
    assert n + B - 1 == (q + 1) * B + r;
    DivModUnique(n + B - 1, B, q + 1, r);
    DivModUnique(n - B + B - 1, B, q, r);
  }

  /** Between 1 and B cells need exactly one block. */
  lemma CeilDivOne(n: nat, B: nat)
    requires B > 0 && 1 <= n <= B
    ensures CeilDiv(n, B) == 1
  {
    DivModUnique(n + B - 1, B, 1, n - 1);
  }

  /** On an axis whose last grid origin is `origin`, what remains past it is
      the axis length modulo B. */
  lemma LastExtent(origin: nat, size: nat, B: nat)
    requires B > 0 && origin % B == 0 && origin < size < origin + B
    ensures size % B == size - origin
  {
    var q := origin / B;
    assert origin == q * B;
    DivModUnique(size, B, q, size - origin);
  }

  /** Position of pixel (px, py) in a row-major grid W pixels wide. */
  function Offset(W: nat, px: nat, py: nat): (o: nat)
  {
    py * W + px
  }

  /** A pixel of a W x H grid lies inside its W * H cells. */
  lemma OffsetBound(W: nat, H: nat, px: nat, py: nat)
    requires px < W && py < H
    ensures Offset(W, px, py) < W * H
  {
    MulMono(py, H - 1, W);
    assert (H - 1) * W == H * W - W;
  }

  /** The row of an offset is its quotient by W and the column its remainder. */
  lemma OffsetInverse(W: nat, px: nat, py: nat)
    requires px < W
    ensures Offset(W, px, py) / W == py && Offset(W, px, py) % W == px
  {
    DivModUnique(Offset(W, px, py), W, py, px);
  }

  /** Every cell of a W x H grid is the offset of exactly one of its pixels. */
  lemma OffsetOf(W: nat, H: nat, p: nat)
    requires p < W * H
    ensures W > 0 && p % W < W && p / W < H && p == Offset(W, p % W, p / W)
  {
    var q := p / W;
    assert p == q * W + p % W;
    if q >= H {
      MulMono(H, q, W);
    }
  }

  /** A block no larger than B x B fits the B * B buffer, and n bands of it the
      B * B * n buffer. */
  lemma BlockFits(w: nat, h: nat, B: nat, n: nat)
    requires w <= B && h <= B
    ensures w * h <= B * B && n * (w * h) <= B * B * n
  {
    if h > 0 {
      MulMono(w, B, h);
      MulMono(h, B, B);
    }
    if n > 0 {
      MulMono(w * h, B * B, n);
    }
  }

  /** The next row down starts W cells later. */
  lemma OffsetStep(W: nat, px: nat, py: nat)
    requires py > 0
    ensures Offset(W, px, py) == W + Offset(W, px, py - 1)
  {
    assert py * W == W + (py - 1) * W;
  }

  /** A run of w pixels from (x, y) stays inside its W x H grid. */
  lemma RowInside(W: nat, H: nat, x: nat, y: nat, w: nat)
    requires x + w <= W && y < H
    ensures Offset(W, x, y) + w <= W * H
  {
    if W > 0 {
      MulMono(y + 1, H, W);
    }
  }
}
