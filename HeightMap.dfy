/**
 * The XLand map utilities (environments/xland/src/xland/utils/utils.py): `decode_rgb`, which turns
 * an RGB image into a grid of integer heights, expanding each pixel into a 2x2 tile whose slope
 * channel 1 selects, and `get_bounds`, the extent of a primitive object.
 */
module XlandUtils {
  import opened Wrappers

  /** One colour channel of an 8-bit image. */
  type Channel = x: int | 0 <= x < 256

  /** A pixel: channel 0 is the height, channel 1 the tile code; channel 2 is not read. */
  datatype Pixel = Pixel(r: Channel, g: Channel, b: Channel)

  /**
   * The height `decode_rgb` gives cell (dr, dc) of the tile of pixel `p`, or `None` when the tile
   * code is none of 0..4 and the tile is not written at all.
   * Code 0 is flat; codes 1 and 3 rise by one towards the bottom and the top row; codes 2 and 4
   * rise by one towards the right and the left column.
   */
  function TileCell(p: Pixel, dr: int, dc: int): Option<int>
    requires 0 <= dr < 2 && 0 <= dc < 2
  {
    var h := p.r;
    if p.g == 0 then Some(h)
    else if p.g == 1 then Some(if dr == 0 then h else h + 1)
    else if p.g == 2 then Some(if dc == 0 then h else h + 1)
    else if p.g == 3 then Some(if dr == 0 then h + 1 else h)
    else if p.g == 4 then Some(if dc == 0 then h + 1 else h)
    else None
  }

  /** Every written cell holds the pixel's height or one more; a flat tile holds the height alone. */
  lemma TileCellRange(p: Pixel, dr: int, dc: int)
    requires 0 <= dr < 2 && 0 <= dc < 2
    ensures TileCell(p, dr, dc).Some? <==> 0 <= p.g <= 4
    ensures TileCell(p, dr, dc).Some? ==>
      p.r <= TileCell(p, dr, dc).value <= p.r + 1
    ensures p.g == 0 ==> TileCell(p, dr, dc) == Some(p.r)
  {
  }

  /**
   * Every sloped tile has one low and one high side: the four sloped codes are one tile turned.
   * Code 3 is code 1 upside down, code 4 is code 2 mirrored, and code 2 is code 1 transposed.
   */
  lemma TileCodesAreTurns(h: Channel, b: Channel, dr: int, dc: int)
    requires 0 <= dr < 2 && 0 <= dc < 2
    ensures TileCell(Pixel(h, 3, b), dr, dc) == TileCell(Pixel(h, 1, b), 1 - dr, dc)
    ensures TileCell(Pixel(h, 4, b), dr, dc) == TileCell(Pixel(h, 2, b), dr, 1 - dc)
    ensures TileCell(Pixel(h, 2, b), dr, dc) == TileCell(Pixel(h, 1, b), dc, dr)
  {
  }

  /** The cells of tile (i, j) of an output grid. */
  predicate InTile(r: int, c: int, i: int, j: int) {
    r / 2 == i && c / 2 == j
  }

  /** The height grid after the tiles of all pixels before (i, j) in row-major order are written. */
  ghost predicate TilesUpTo(img: array2<Pixel>, m: array2<int>, i: int, j: int)
    requires m.Length0 == 2 * img.Length0 && m.Length1 == 2 * img.Length1
    reads img, m
  {
    forall r, c :: 0 <= r < m.Length0 && 0 <= c < m.Length1 ==>
      m[r, c] == if r / 2 < i || (r / 2 == i && c / 2 < j)
                 then TileCell(img[r / 2, c / 2], r % 2, c % 2).GetOr(0)
                 else 0
  }

  /**
   * One iteration of the inner loop of `decode_rgb`: write the tile of pixel (i, j), two rows or
   * two columns at a time as the slice assignments do. No cell outside the tile changes, and a
   * tile with an unknown code is left as it was.
   */
  method WriteTile(img: array2<Pixel>, m: array2<int>, i: int, j: int)
    requires 0 <= i < img.Length0 && 0 <= j < img.Length1
    requires m.Length0 == 2 * img.Length0 && m.Length1 == 2 * img.Length1
    modifies m
    ensures forall r, c :: 0 <= r < m.Length0 && 0 <= c < m.Length1 ==>
      m[r, c] == if InTile(r, c, i, j) then TileCell(img[i, j], r % 2, c % 2).GetOr(old(m[r, c]))
                 else old(m[r, c])
  {
    var h: int, code: int := img[i, j].r, img[i, j].g;
    var top, left := 2 * i, 2 * j;
    if code == 0 {
      m[top, left], m[top, left + 1] := h, h;
      m[top + 1, left], m[top + 1, left + 1] := h, h;
    } else if code == 1 {
      m[top, left], m[top, left + 1] := h, h;
      m[top + 1, left], m[top + 1, left + 1] := h + 1, h + 1;
    } else if code == 2 {
      m[top, left], m[top + 1, left] := h, h;
      m[top, left + 1], m[top + 1, left + 1] := h + 1, h + 1;
    } else if code == 3 {
      m[top, left], m[top, left + 1] := h + 1, h + 1;
      m[top + 1, left], m[top + 1, left + 1] := h, h;
    } else if code == 4 {
      m[top, left], m[top + 1, left] := h + 1, h + 1;
      m[top, left + 1], m[top + 1, left + 1] := h, h;
    }
  }

  /**
   * The tile path of `decode_rgb`: a zero grid twice the image's height and width, then every
   * pixel's tile written in row-major order. Each cell is therefore decided by the one pixel whose
   * tile holds it, and a tile with an unknown code stays zero.
   */
  method DecodeTiles(img: array2<Pixel>) returns (m: array2<int>)
    ensures m.Length0 == 2 * img.Length0 && m.Length1 == 2 * img.Length1
    ensures forall r, c :: 0 <= r < m.Length0 && 0 <= c < m.Length1 ==>
      m[r, c] == TileCell(img[r / 2, c / 2], r % 2, c % 2).GetOr(0)
  {
    m := new int[2 * img.Length0, 2 * img.Length1]((r, c) => 0);
    for i := 0 to img.Length0
      invariant TilesUpTo(img, m, i, 0)
    {
      for j := 0 to img.Length1
        invariant TilesUpTo(img, m, i, j)
      {
        WriteTile(img, m, i, j);
      }
      assert TilesUpTo(img, m, i + 1, 0);
    }
  }

  /**
   * `decode_rgb`: with neither `specific_map` nor `sample_from` given, the heights are channel 0
   * of the image at the image's own size; otherwise they are the 2x2-tile expansion.
   */
  method DecodeRgb(img: array2<Pixel>, specificMapGiven: bool, sampleFromGiven: bool) returns (m: array2<int>)
    ensures !specificMapGiven && !sampleFromGiven ==>
      && m.Length0 == img.Length0 && m.Length1 == img.Length1
      && forall r, c :: 0 <= r < m.Length0 && 0 <= c < m.Length1 ==> m[r, c] == img[r, c].r
    ensures specificMapGiven || sampleFromGiven ==>
      && m.Length0 == 2 * img.Length0 && m.Length1 == 2 * img.Length1
      && forall r, c :: 0 <= r < m.Length0 && 0 <= c < m.Length1 ==>
           m[r, c] == TileCell(img[r / 2, c / 2], r % 2, c % 2).GetOr(0)
  {
    if !specificMapGiven && !sampleFromGiven {
      m := new int[img.Length0, img.Length1]((r, c) reads img =>
        if 0 <= r < img.Length0 && 0 <= c < img.Length1 then img[r, c].r else 0);
    } else {
      m := DecodeTiles(img);
    }
  }

  /** The extent `get_bounds` gives: minimum and maximum along x, y and z. */
  datatype Bounds = Bounds(xMin: real, xMax: real, yMin: real, yMax: real, zMin: real, zMax: real)

  /** `get_bounds` raises `NotImplementedError` for every shape but a cube. */
  datatype BoundsError = NotImplemented(objectType: string)

  /**
   * `get_bounds`: a "Cube" of size s spans [0, s] along each of the three axes; no other shape is
   * supported.
   */
  function GetBounds(objectType: string, objectSize: real): (r: Result<Bounds, BoundsError>)
    ensures r.Ok? <==> objectType == "Cube"
    ensures r.Ok? ==> r.value.xMin == r.value.yMin == r.value.zMin == 0.0
    ensures r.Ok? ==>
      r.value.xMax - r.value.xMin == r.value.yMax - r.value.yMin == r.value.zMax - r.value.zMin == objectSize
    ensures r.Err? ==> r.error == NotImplemented(objectType)
  {
    if objectType == "Cube" then Ok(Bounds(0.0, objectSize, 0.0, objectSize, 0.0, objectSize))
    else Err(NotImplemented(objectType))
  }
}
