/**
 * Integer arithmetic of the Deep Zoom pyramid: the number of levels, the size
 * of each level and the crop box of a tile (app.py lines 14, 112, 260-262, 265-267).
 */
module Levels {

  /** Side of a square tile, shared by client and server (app.py:14). */
  const TileSize: nat := 256

  function Max(a: nat, b: nat): nat
  {
    if a < b then b else a
  }

  /** 2^k. */
  function Pow2(k: nat): (p: nat)
    ensures p >= 1
  {
    if k == 0 then 1 else 2 * Pow2(k - 1)
  }

  lemma {:induction false} Pow2Monotone(i: nat, j: nat)
    requires i <= j
    ensures Pow2(i) <= Pow2(j)
    decreases j
  {
    if i < j {
      Pow2Monotone(i, j - 1);
    }
  }

  /** Pow2 is monotone, stated without a precondition so that callers can use it in both directions. */
  lemma Pow2MonotoneOn(i: nat, j: nat)
    ensures i <= j ==> Pow2(i) <= Pow2(j)
  {
    if i <= j {
      Pow2Monotone(i, j);
    }
  }

  /** The least k with n <= 2^k, computed by repeated halving rounded up. */
  function CeilLog2(n: nat): (k: nat)
    requires n >= 1
    ensures n <= Pow2(k)
    ensures k > 0 ==> Pow2(k - 1) < n
    decreases n
  {
    if n == 1 then 0 else 1 + CeilLog2((n + 1) / 2)
  }

  /** No smaller exponent than CeilLog2(n) reaches n. */
  lemma CeilLog2IsLeast(n: nat, j: nat)
    requires n >= 1
    requires n <= Pow2(j)
    ensures CeilLog2(n) <= j
  {
    var k := CeilLog2(n);
    if k > 0 {
      Pow2MonotoneOn(k - 1, j);
    }
  }

  /**
   * Number of levels of the pyramid of a `width` x `height` source:
   * ceil(log2(max(width, height))) + 1 (app.py:112).
   */
  function MaxLevel(width: nat, height: nat): (m: nat)
    requires Max(width, height) >= 1
    ensures m >= 1
    ensures width <= Pow2(m - 1) && height <= Pow2(m - 1)
    ensures m >= 2 ==> Pow2(m - 2) < Max(width, height)
  {
    CeilLog2(Max(width, height)) + 1
  }

  /** Integer ceiling of a / d. */
  function CeilDiv(a: nat, d: nat): (q: nat)
    requires d >= 1
  {
    (a + d - 1) / d
  }

  /** CeilDiv(a, d) is the least q with a <= q * d. */
  lemma CeilDivBounds(a: nat, d: nat)
    requires d >= 1
    ensures a <= CeilDiv(a, d) * d
    ensures CeilDiv(a, d) >= 1 ==> (CeilDiv(a, d) - 1) * d < a
  {
    var x := a + d - 1;
    var q, r := x / d, x % d;
    assert x == q * d + r && 0 <= r < d;
    if q >= 1 {
      assert (q - 1) * d == q * d - d;
    }
  }

  /** The ceiling of a / d lies between 1 and a for positive a. */
  lemma CeilDivRange(a: nat, d: nat)
    requires d >= 1
    ensures CeilDiv(a, d) <= a
    ensures a >= 1 ==> CeilDiv(a, d) >= 1
  {
    var q := CeilDiv(a, d);
    CeilDivBounds(a, d);
    if q >= 1 {
      MulLe(1, d, q - 1);
      assert q - 1 <= (q - 1) * d;
    }
    if q == 0 {
      assert q * d == 0;
    }
  }

  /** Any q with (q - 1) * d < a <= q * d is the ceiling of a / d. */
  lemma CeilDivUnique(a: nat, d: nat, q: nat)
    requires d >= 1
    requires a <= q * d
    requires q >= 1 ==> (q - 1) * d < a
    ensures CeilDiv(a, d) == q
  {
    var x := a + d - 1;
    if q == 0 {
      assert a == 0;
      assert x / d == 0;
    } else {
      assert (q - 1) * d == q * d - d;
      var r := x - q * d;
      assert 0 <= r < d;
      DivOfMultiplePlus(q, d, r);
    }
  }

  lemma DivOfMultiplePlus(q: nat, d: nat, r: nat)
    requires d >= 1 && r < d
    ensures (q * d + r) / d == q
  {
    var x := q * d + r;
    var q', r' := x / d, x % d;
    assert x == q' * d + r' && 0 <= r' < d;
    if q' < q {
      MulLe(q' + 1, q, d);
    } else if q' > q {
      MulLe(q + 1, q', d);
    }
  }

  lemma MulLe(a: nat, b: nat, c: nat)
    requires a <= b
    ensures a * c <= b * c
  {
    assert b * c == a * c + (b - a) * c;
  }

  /**
   * One side of level `level` of a pyramid with `maxlevel` levels whose full
   * resolution side is `dim`: ceil(dim * 0.5^(maxlevel - level - 1))
   * (app.py:260-262). The scale is an exact power of two, so the ceiling of
   * the product is the ceiling of the integer division.
   */
  function LevelDim(dim: nat, maxlevel: nat, level: nat): (d: nat)
    requires level < maxlevel
    ensures level == maxlevel - 1 ==> d == dim
    ensures d <= dim
    ensures dim >= 1 ==> d >= 1
  {
    CeilDivRange(dim, Pow2(maxlevel - 1 - level));
    CeilDiv(dim, Pow2(maxlevel - 1 - level))
  }

  /**
   * Deriving a level directly from full resolution gives the same size as
   * halving (rounding up) the next finer level: the direct derivation has no
   * cumulative rounding.
   */
  lemma LevelDimHalves(dim: nat, maxlevel: nat, level: nat)
    requires level + 1 < maxlevel
    ensures LevelDim(dim, maxlevel, level) == CeilDiv(LevelDim(dim, maxlevel, level + 1), 2)
  {
    var p := Pow2(maxlevel - 1 - (level + 1));
    assert Pow2(maxlevel - 1 - level) == 2 * p;
    CeilDivTwice(dim, p);
  }

  /** ceil(ceil(a / p) / 2) == ceil(a / (2 * p)). */
  lemma CeilDivTwice(a: nat, p: nat)
    requires p >= 1
    ensures CeilDiv(CeilDiv(a, p), 2) == CeilDiv(a, 2 * p)
  {
    var q := CeilDiv(a, p);
    var t := CeilDiv(q, 2);
    CeilDivBounds(a, p);
    CeilDivBounds(q, 2);
    assert q <= 2 * t;
    MulLe(q, 2 * t, p);
    assert a <= (2 * t) * p;
    MulAssoc(t, p);
    assert a <= t * (2 * p);
    if t >= 1 {
      assert 2 * (t - 1) <= q - 1;
      MulLe(2 * (t - 1), q - 1, p);
      MulAssoc(t - 1, p);
      assert (t - 1) * (2 * p) <= (q - 1) * p;
    }
    CeilDivUnique(a, 2 * p, t);
  }

  lemma MulAssoc(t: nat, p: nat)
    ensures (2 * t) * p == t * (2 * p)
  {
  }

  /** At level 0 every side of a positive-sized source is a single pixel. */
  lemma CoarsestLevelIsOnePixel(width: nat, height: nat)
    requires width >= 1 && height >= 1
    ensures LevelDim(width, MaxLevel(width, height), 0) == 1
    ensures LevelDim(height, MaxLevel(width, height), 0) == 1
  {
    var m := MaxLevel(width, height);
    var p := Pow2(m - 1);
    CeilDivUnique(width, p, 1);
    CeilDivUnique(height, p, 1);
  }

  /** A crop rectangle (left, upper, right, lower) in pixel coordinates, as Pillow takes it. */
  datatype Box = Box(left: int, upper: int, right: int, lower: int)

  /** Box of the tile in column `c`, row `r` (app.py:265-267). */
  function CropBox(c: int, r: int): (b: Box)
    ensures b.right - b.left == TileSize && b.lower - b.upper == TileSize
  {
    Box(c * TileSize, r * TileSize, c * TileSize + TileSize, r * TileSize + TileSize)
  }

  /**
   * Tiles partition the plane: pixel (x, y) with non-negative coordinates lies
   * in the box of tile (c, r) exactly when c = x / TileSize and r = y / TileSize.
   */
  lemma CropBoxesPartition(x: nat, y: nat, c: int, r: int)
    ensures (CropBox(c, r).left <= x < CropBox(c, r).right &&
             CropBox(c, r).upper <= y < CropBox(c, r).lower)
        <==> (c == x / TileSize && r == y / TileSize)
  {
    if c < x / TileSize {
      assert c * TileSize + TileSize <= (x / TileSize) * TileSize;
    }
    if c > x / TileSize {
      assert c * TileSize >= (x / TileSize) * TileSize + TileSize;
    }
    if r < y / TileSize {
      assert r * TileSize + TileSize <= (y / TileSize) * TileSize;
    }
    if r > y / TileSize {
      assert r * TileSize >= (y / TileSize) * TileSize + TileSize;
    }
  }
}
