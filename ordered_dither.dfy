/**
 * Ordered (Bayer) dithering, `dither_bayer`.
 *
 * Every pixel is compared with one entry of an 8x8 threshold matrix tiled
 * over the image (`x mod 8`, `y mod 8`); the output pixel is 255 when the
 * pixel exceeds the threshold and 0 otherwise. The matrix holds `k / 64` for
 * the integers `k` below; since `k / 64` is exact in binary floating point,
 * `p > k / 64` is `64 * p > k` for an integer pixel `p`, and the model works
 * on the numerators.
 */
module OrderedDither {

  /** Numerators of the Bayer matrix: the threshold at row `i`, column `j` is
    * `Bayer[i][j] / 64`. */
  const Bayer: seq<seq<int>> := [
    [0, 32, 8, 40, 2, 34, 10, 42], [48, 16, 56, 24, 50, 18, 58, 26],
    [12, 44, 4, 36, 14, 46, 6, 38], [60, 28, 52, 20, 62, 30, 54, 22],
    [3, 35, 11, 43, 1, 33, 9, 41], [51, 19, 59, 27, 49, 17, 57, 25],
    [15, 47, 7, 39, 13, 45, 5, 37], [63, 31, 55, 23, 61, 29, 53, 21]]

  /** Where each numerator sits: `k` is at row-major index
    * `Position[k / 8][k % 8]` of the matrix. */
  const Position: seq<seq<int>> := [
    [0, 36, 4, 32, 18, 54, 22, 50], [2, 38, 6, 34, 16, 52, 20, 48],
    [9, 45, 13, 41, 27, 63, 31, 59], [11, 47, 15, 43, 25, 61, 29, 57],
    [1, 37, 5, 33, 19, 55, 23, 51], [3, 39, 7, 35, 17, 53, 21, 49],
    [8, 44, 12, 40, 26, 62, 30, 58], [10, 46, 14, 42, 24, 60, 28, 56]]

  /** The numerator at row-major index `m` of the matrix. */
  function Rank(m: int): int
    requires 0 <= m < 64
  {
    Bayer[m / 8][m % 8]
  }

  /** The row-major index of the cell holding numerator `k`. */
  function Where(k: int): int
    requires 0 <= k < 64
  {
    Position[k / 8][k % 8]
  }

  /** The numerator at row `i`, column `j` lies in 0..63 and `Position`
    * leads back to that cell. */
  lemma CellRank(i: int, j: int)
    requires 0 <= i < 8 && 0 <= j < 8
    ensures 0 <= Bayer[i][j] < 64 && Position[Bayer[i][j] / 8][Bayer[i][j] % 8] == 8 * i + j
  {
    if i == 0 {
      if j == 0 {} else if j == 1 {} else if j == 2 {} else if j == 3 {} else if j == 4 {} else if j == 5 {} else if j == 6 {} else {}
    } else if i == 1 {
      if j == 0 {} else if j == 1 {} else if j == 2 {} else if j == 3 {} else if j == 4 {} else if j == 5 {} else if j == 6 {} else {}
    } else if i == 2 {
      if j == 0 {} else if j == 1 {} else if j == 2 {} else if j == 3 {} else if j == 4 {} else if j == 5 {} else if j == 6 {} else {}
    } else if i == 3 {
      if j == 0 {} else if j == 1 {} else if j == 2 {} else if j == 3 {} else if j == 4 {} else if j == 5 {} else if j == 6 {} else {}
    } else if i == 4 {
      if j == 0 {} else if j == 1 {} else if j == 2 {} else if j == 3 {} else if j == 4 {} else if j == 5 {} else if j == 6 {} else {}
    } else if i == 5 {
      if j == 0 {} else if j == 1 {} else if j == 2 {} else if j == 3 {} else if j == 4 {} else if j == 5 {} else if j == 6 {} else {}
    } else if i == 6 {
      if j == 0 {} else if j == 1 {} else if j == 2 {} else if j == 3 {} else if j == 4 {} else if j == 5 {} else if j == 6 {} else {}
    } else {
      if j == 0 {} else if j == 1 {} else if j == 2 {} else if j == 3 {} else if j == 4 {} else if j == 5 {} else if j == 6 {} else {}
    }
  }

  /** The entry of `Position` at row `i`, column `j` lies in 0..63 and the
    * matrix cell it names holds `8 * i + j`. */
  lemma PositionRank(i: int, j: int)
    requires 0 <= i < 8 && 0 <= j < 8
    ensures 0 <= Position[i][j] < 64 && Bayer[Position[i][j] / 8][Position[i][j] % 8] == 8 * i + j
  {
    if i == 0 {
      if j == 0 {} else if j == 1 {} else if j == 2 {} else if j == 3 {} else if j == 4 {} else if j == 5 {} else if j == 6 {} else {}
    } else if i == 1 {
      if j == 0 {} else if j == 1 {} else if j == 2 {} else if j == 3 {} else if j == 4 {} else if j == 5 {} else if j == 6 {} else {}
    } else if i == 2 {
      if j == 0 {} else if j == 1 {} else if j == 2 {} else if j == 3 {} else if j == 4 {} else if j == 5 {} else if j == 6 {} else {}
    } else if i == 3 {
      if j == 0 {} else if j == 1 {} else if j == 2 {} else if j == 3 {} else if j == 4 {} else if j == 5 {} else if j == 6 {} else {}
    } else if i == 4 {
      if j == 0 {} else if j == 1 {} else if j == 2 {} else if j == 3 {} else if j == 4 {} else if j == 5 {} else if j == 6 {} else {}
    } else if i == 5 {
      if j == 0 {} else if j == 1 {} else if j == 2 {} else if j == 3 {} else if j == 4 {} else if j == 5 {} else if j == 6 {} else {}
    } else if i == 6 {
      if j == 0 {} else if j == 1 {} else if j == 2 {} else if j == 3 {} else if j == 4 {} else if j == 5 {} else if j == 6 {} else {}
    } else {
      if j == 0 {} else if j == 1 {} else if j == 2 {} else if j == 3 {} else if j == 4 {} else if j == 5 {} else if j == 6 {} else {}
    }
  }

  /** The matrix is 8x8, every numerator lies in 0..63, and `Where` undoes
    * `Rank`: no two cells share a threshold. */
  lemma RankInjective(m: int)
    requires 0 <= m < 64
    ensures |Bayer| == 8 && |Bayer[m / 8]| == 8
    ensures 0 <= Rank(m) < 64 && Where(Rank(m)) == m
  {
    CellRank(m / 8, m % 8);
  }

  /** Every numerator 0..63 occurs: `Rank` undoes `Where`. Together with
    * `RankInjective`, the 64 numerators are a permutation of 0..63, so every
    * threshold is one of 0/64, ..., 63/64 and all of them are below 1. */
  lemma RankSurjective(k: int)
    requires 0 <= k < 64
    ensures 0 <= Where(k) < 64 && Rank(Where(k)) == k
  {
    PositionRank(k / 8, k % 8);
  }

  /** Cell `m` of a tile, in row-major order, is at row `m / 8` and column
    * `m % 8`, which the tiling leaves in place. */
  lemma TileIndex(m: int)
    requires 0 <= m < 64
    ensures m / 8 % 8 == m / 8 && m % 8 % 8 == m % 8
    ensures Bayer[m / 8 % 8][m % 8 % 8] == Rank(m)
  {
  }

  lemma RankBounds(m: int)
    requires 0 <= m < 64
    ensures 0 <= Rank(m) < 64
  {
    CellRank(m / 8, m % 8);
  }

  /** `dither_bayer` at one pixel: `px[x, y] > bayer[x % 8, y % 8]`. */
  function Cell(p: int, x: nat, y: nat): (o: int)
    ensures o == 0 || o == 255
  {
    if 64 * p > Bayer[x % 8][y % 8] then 255 else 0
  }

  /** The output at (x, y) depends only on the pixel there and on the
    * position inside the 8x8 tile. */
  lemma CellIsLocal(p: int, x: nat, y: nat, x': nat, y': nat)
    requires x % 8 == x' % 8 && y % 8 == y' % 8
    ensures Cell(p, x, y) == Cell(p, x', y')
  {
  }

  /** A brighter pixel at the same position is never dithered darker. */
  lemma CellMonotone(p: int, q: int, x: nat, y: nat)
    requires p <= q
    ensures Cell(p, x, y) <= Cell(q, x, y)
  {
  }

  /** Because every threshold is below 1, an integer pixel comes out white
    * exactly when it is positive: the tiled pattern never shows for pixel
    * values 0..255. */
  lemma CellIsPositivity(p: int, x: nat, y: nat)
    ensures Cell(p, x, y) == (if p > 0 then 255 else 0)
  {
    CellRank(x % 8, y % 8);
  }

  /** Cell `m` of a tile, in row-major order, is compared with numerator
    * `Rank(m)`, by the threshold as written and by the scaled one. */
  lemma TileCell(p: int, m: int)
    requires 0 <= m < 64
    ensures Cell(p, m / 8, m % 8) == (if 64 * p > Rank(m) then 255 else 0)
    ensures ScaledCell(p, m / 8, m % 8) == (if 64 * p > 255 * Rank(m) then 255 else 0)
  {
    TileIndex(m);
  }

  /** Dithering a buffer that is already black and white changes nothing. */
  lemma CellFixesBilevel(p: int, x: nat, y: nat)
    requires p == 0 || p == 255
    ensures Cell(p, x, y) == p
  {
    CellIsPositivity(p, x, y);
  }

  /** `dither_bayer`: a fresh output buffer of the input's shape, filled cell
    * by cell; the input is only read. */
  method DitherBayer(px: array2<int>) returns (o: array2<int>)
    ensures fresh(o)
    ensures o.Length0 == px.Length0 && o.Length1 == px.Length1
    ensures forall x, y :: 0 <= x < o.Length0 && 0 <= y < o.Length1 ==> o[x, y] == Cell(px[x, y], x, y)
    ensures (forall x, y :: 0 <= x < px.Length0 && 0 <= y < px.Length1 ==> px[x, y] == 0 || px[x, y] == 255) ==>
      forall x, y :: 0 <= x < o.Length0 && 0 <= y < o.Length1 ==> o[x, y] == px[x, y]
  {
    o := new int[px.Length0, px.Length1]((_, _) => 0);
    for x := 0 to px.Length0
      invariant forall x', y' :: 0 <= x' < x && 0 <= y' < px.Length1 ==> o[x', y'] == Cell(px[x', y'], x', y')
    {
      for y := 0 to px.Length1
        invariant forall x', y' :: 0 <= x' < x && 0 <= y' < px.Length1 ==> o[x', y'] == Cell(px[x', y'], x', y')
        invariant forall y' :: 0 <= y' < y ==> o[x, y'] == Cell(px[x, y'], x, y')
      {
        if 64 * px[x, y] > Bayer[x % 8][y % 8] {
          o[x, y] := 255;
        } else {
          o[x, y] := 0;
        }
      }
    }
    forall x, y | 0 <= x < o.Length0 && 0 <= y < o.Length1 && (px[x, y] == 0 || px[x, y] == 255)
      ensures o[x, y] == px[x, y]
    {
      CellFixesBilevel(px[x, y], x, y);
    }
  }

  // How much of a tile a uniform grey level turns white.

  /** The number of the first `n` cells of a tile (row-major) whose numerator
    * is below `t`. */
  function CountBelow(t: int, n: int): nat
    requires 0 <= n <= 64
  {
    if n == 0 then 0 else CountBelow(t, n - 1) + (if Rank(n - 1) < t then 1 else 0)
  }

  lemma {:induction false} CountBelowStep(t: int, n: int)
    requires 0 <= t < 64 && 0 <= n <= 64
    ensures CountBelow(t + 1, n) == CountBelow(t, n) + (if Where(t) < n then 1 else 0)
  {
    if n > 0 {
      var m := n - 1;
      CountBelowStep(t, m);
      RankInjective(m);
      RankSurjective(t);
      var r := Rank(m);
      assert r == t <==> Where(t) == m;
      assert CountBelow(t + 1, n) == CountBelow(t + 1, m) + (if r < t + 1 then 1 else 0);
      assert CountBelow(t, n) == CountBelow(t, m) + (if r < t then 1 else 0);
    }
  }

  /** A threshold level `t` in 0..64 is passed by exactly `t` cells of the
    * tile: each numerator occurs once. */
  lemma {:induction false} CountBelowIsLevel(t: int)
    requires 0 <= t <= 64
    ensures CountBelow(t, 64) == t
  {
    if t == 0 {
      forall n | 0 <= n <= 64 ensures CountBelow(0, n) == 0 {
        CountBelowZero(n);
      }
    } else {
      CountBelowIsLevel(t - 1);
      CountBelowStep(t - 1, 64);
      RankSurjective(t - 1);
    }
  }

  lemma {:induction false} CountBelowZero(n: int)
    requires 0 <= n <= 64
    ensures CountBelow(0, n) == 0
  {
    if n > 0 {
      CountBelowZero(n - 1);
      RankInjective(n - 1);
    }
  }

  /** The number of white cells among the first `n` cells of a tile when
    * every pixel of the tile has the value `p`, under `dither_bayer`. */
  function WhiteInTile(p: int, n: int): nat
    requires 0 <= n <= 64
  {
    if n == 0 then 0
    else WhiteInTile(p, n - 1) + (if Cell(p, (n - 1) / 8, (n - 1) % 8) == 255 then 1 else 0)
  }

  lemma {:induction false} WhiteInTileCounts(p: int, n: int)
    requires 0 <= n <= 64
    ensures WhiteInTile(p, n) == CountBelow(if p <= 0 then 0 else 64, n)
  {
    if n > 0 {
      var m := n - 1;
      WhiteInTileCounts(p, m);
      TileCell(p, m);
      RankBounds(m);
    }
  }

  /** As written, a uniform grey tile turns entirely white for every level
    * from 1 up: mid-grey 128 gives 64 white cells out of 64. */
  lemma AsWrittenTileWhiteCount(p: int)
    ensures WhiteInTile(p, 64) == if p <= 0 then 0 else 64
  {
    WhiteInTileCounts(p, 64);
    CountBelowIsLevel(if p <= 0 then 0 else 64);
  }

  /** The threshold scaled to the 0..255 pixel range: white when
    * `p > 255 * k / 64`, i.e. `p / 255 > k / 64`. */
  function ScaledCell(p: int, x: nat, y: nat): (o: int)
    ensures o == 0 || o == 255
  {
    if 64 * p > 255 * Bayer[x % 8][y % 8] then 255 else 0
  }

  /** The number of white cells among the first `n` cells of a uniform tile
    * under the scaled threshold. */
  function ScaledWhiteInTile(p: int, n: int): nat
    requires 0 <= n <= 64
  {
    if n == 0 then 0
    else ScaledWhiteInTile(p, n - 1) + (if ScaledCell(p, (n - 1) / 8, (n - 1) % 8) == 255 then 1 else 0)
  }

  /** The level a uniform grey `p` in 0..255 reaches on the 64-step scale:
    * the number of numerators `k` with `255 * k < 64 * p`. */
  function Level(p: int): int
    requires 0 <= p <= 255
  {
    (64 * p + 254) / 255
  }

  /** `Level(p)` counts the numerators the scaled threshold lets through. */
  lemma LevelPasses(p: int, k: int)
    requires 0 <= p <= 255 && 0 <= k < 64
    ensures 0 <= Level(p) <= 64
    ensures 64 * p > 255 * k <==> k < Level(p)
  {
    if 64 * p > 255 * k {
      assert 64 * p + 254 >= 255 * (k + 1);
    } else {
      assert 64 * p + 254 < 255 * (k + 1);
    }
  }

  lemma {:induction false} ScaledWhiteInTileCounts(p: int, n: int)
    requires 0 <= p <= 255 && 0 <= n <= 64
    ensures ScaledWhiteInTile(p, n) == CountBelow(Level(p), n)
  {
    if n > 0 {
      var m := n - 1;
      ScaledWhiteInTileCounts(p, m);
      TileCell(p, m);
      RankBounds(m);
      LevelPasses(p, Rank(m));
    }
  }

  /** With the threshold scaled, the share of white in a uniform tile follows
    * the grey level: `ceil(64 * p / 255)` of the 64 cells, from 0 for black
    * to 64 for white, 33 for mid-grey 128. */
  lemma ScaledTileWhiteCount(p: int)
    requires 0 <= p <= 255
    ensures ScaledWhiteInTile(p, 64) == Level(p)
    ensures 64 * p <= 255 * Level(p) < 64 * p + 255
  {
    ScaledWhiteInTileCounts(p, 64);
    LevelPasses(p, 0);
    CountBelowIsLevel(Level(p));
  }
}
