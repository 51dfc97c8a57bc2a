/**
 * The image of the handwritten-digit classifier: a grid of brightness
 * values read by (column, row) position, built either from a supplied grid
 * or, synthetically, from draws of a random source.
 */
module Pictures {
  import opened Wrappers
  import DivMod

  /** A pixel grid, indexed [row][column]. */
  type Grid = seq<seq<int>>

  /** A pixel position: `x` is the column and `y` the row. */
  datatype Pos = Pos(x: int, y: int)

  /**
   * An image; its fields are assigned once, by the constructor. `tag` is the
   * digit class the image shows, `index` its position in its dataset.
   */
  datatype Picture = Picture(
    pixels: Grid,
    width: int,
    height: int,
    tag: Option<int>,
    index: Option<int>)

  datatype ConstructError =
    /** The arguments are neither a non-empty grid alone nor two non-zero dimensions. */
    | InvalidArguments
    /** The synthetic branch draws from a random source the module never defines. */
    | UndefinedRandomSource

  /** Python truthiness of an optional integer argument. */
  predicate Truthy(v: Option<int>) {
    v.Some? && v.value != 0
  }

  /** The number of iterations of `range(n)`. */
  function RangeLen(n: int): nat {
    if n > 0 then n else 0
  }

  /** Every row of `g` has `width` columns. */
  predicate Rectangular(g: Grid, width: int) {
    forall r :: 0 <= r < |g| ==> |g[r]| == width
  }

  /** The shape the rest of the classifier expects of an image. */
  predicate WellFormed(p: Picture) {
    && p.width >= 1
    && p.height >= 1
    && |p.pixels| == p.height
    && Rectangular(p.pixels, p.width)
  }

  /** Two well-formed images of the same dimensions. */
  predicate SameShape(p: Picture, q: Picture) {
    WellFormed(p) && WellFormed(q) && p.width == q.width && p.height == q.height
  }

  /** `pos` addresses a pixel of `p` without Python's negative-index wrap-around. */
  predicate InBounds(p: Picture, pos: Pos) {
    0 <= pos.y < |p.pixels| && 0 <= pos.x < |p.pixels[pos.y]|
  }

  /** The value at column `pos.x` of row `pos.y`. */
  function Brightness(p: Picture, pos: Pos): int
    requires InBounds(p, pos)
  {
    p.pixels[pos.y][pos.x]
  }

  /** The two ways of building a picture the constructor accepts. */
  predicate SyntheticRequest(width: Option<int>, height: Option<int>, pixels: Option<Grid>) {
    pixels.None? && Truthy(width) && Truthy(height)
  }

  predicate GridRequest(width: Option<int>, height: Option<int>, pixels: Option<Grid>) {
    pixels.Some? && pixels.value != [] && width.None? && height.None?
  }

  /**
   * The constructor as written: the synthetic branch calls a random source
   * that the module never defines, so it raises as soon as it draws a
   * value, that is whenever both dimensions are positive. With a negative
   * dimension `range` is empty and a picture of empty rows results.
   */
  function Construct(
    width: Option<int>, height: Option<int>, pixels: Option<Grid>,
    tag: Option<int>, index: Option<int>): (r: Result<Picture, ConstructError>)
    ensures r == Err(InvalidArguments) <==>
              !SyntheticRequest(width, height, pixels) && !GridRequest(width, height, pixels)
    ensures r == Err(UndefinedRandomSource) <==>
              SyntheticRequest(width, height, pixels) && width.value > 0 && height.value > 0
    ensures GridRequest(width, height, pixels) ==>
              && r.Ok?
              && r.value.pixels == pixels.value
              && r.value.height == |pixels.value|
              && r.value.width == |pixels.value[0]|
              && r.value.tag == tag && r.value.index == index
  {
    if SyntheticRequest(width, height, pixels) then
      if height.value > 0 && width.value > 0 then
        Err(UndefinedRandomSource)
      else
        Ok(Picture(seq(RangeLen(height.value), _ => []), width.value, height.value, tag, index))
    else if GridRequest(width, height, pixels) then
      Ok(Picture(pixels.value, |pixels.value[0]|, |pixels.value|, tag, index))
    else
      Err(InvalidArguments)
  }

  /** Row `r` of a synthetic grid: the `r`-th run of `width` draws. */
  function RandomRow(draws: seq<int>, width: nat, height: nat, r: nat): seq<int>
    requires r < height && height * width <= |draws|
  {
    DivMod.MulMonotone(r + 1, height, width);
    draws[r * width .. (r + 1) * width]
  }

  /**
   * The grid the synthetic branch builds when `draws` is the stream of
   * values its random source returns: `height` rows of `width` draws each,
   * taken row after row.
   */
  function RandomGrid(width: int, height: int, draws: seq<int>): Grid
    requires RangeLen(height) * RangeLen(width) <= |draws|
  {
    seq(RangeLen(height), r requires 0 <= r < RangeLen(height) =>
      RandomRow(draws, RangeLen(width), RangeLen(height), r))
  }

  /**
   * The constructor with its random source passed in: the synthetic branch
   * fills the grid from `draws`; every other branch is as written.
   */
  function ConstructWithSource(
    width: Option<int>, height: Option<int>, pixels: Option<Grid>,
    tag: Option<int>, index: Option<int>, draws: seq<int>): (r: Result<Picture, ConstructError>)
    requires SyntheticRequest(width, height, pixels) ==>
               RangeLen(height.value) * RangeLen(width.value) <= |draws|
    ensures r != Err(UndefinedRandomSource)
    ensures r == Err(InvalidArguments) <==>
              !SyntheticRequest(width, height, pixels) && !GridRequest(width, height, pixels)
    ensures !SyntheticRequest(width, height, pixels) ==>
              r == Construct(width, height, pixels, tag, index)
  {
    if SyntheticRequest(width, height, pixels) then
      Ok(Picture(RandomGrid(width.value, height.value, draws), width.value, height.value, tag, index))
    else
      Construct(width, height, pixels, tag, index)
  }

  /**
   * The nested loops of the synthetic branch: each row is built by
   * appending one draw per column, and `next` is the position of the
   * random source in its stream.
   */
  method RandomPixels(width: int, height: int, draws: seq<int>) returns (pixels: Grid)
    requires RangeLen(height) * RangeLen(width) <= |draws|
    ensures pixels == RandomGrid(width, height, draws)
  {
    ghost var g := RandomGrid(width, height, draws);
    ghost var w := RangeLen(width);
    pixels := [];
    var next := 0;
    var rowNum := 0;
    while rowNum < height
      invariant 0 <= rowNum <= RangeLen(height)
      invariant next == rowNum * w
      invariant pixels == g[..rowNum]
    {
      var row := [];
      var colNum := 0;
      DivMod.MulMonotone(rowNum + 1, RangeLen(height), w);
      while colNum < width
        invariant 0 <= colNum <= w
        invariant next == rowNum * w + colNum
        invariant row == draws[rowNum * w .. next]
      {
        row := row + [draws[next]];
        next := next + 1;
        colNum := colNum + 1;
      }
      assert (rowNum + 1) * w == rowNum * w + w;
      assert row == g[rowNum];
      pixels := pixels + [row];
      rowNum := rowNum + 1;
    }
  }

  /** Column `c` of row `r` of a synthetic grid is draw number r * width + c. */
  lemma RandomGridLayout(width: int, height: int, draws: seq<int>)
    requires RangeLen(height) * RangeLen(width) <= |draws|
    ensures |RandomGrid(width, height, draws)| == RangeLen(height)
    ensures Rectangular(RandomGrid(width, height, draws), RangeLen(width))
    ensures forall r, c :: 0 <= r < RangeLen(height) && 0 <= c < RangeLen(width) ==>
              RandomGrid(width, height, draws)[r][c] == draws[r * RangeLen(width) + c]
  {
    var g, w := RandomGrid(width, height, draws), RangeLen(width);
    forall r | 0 <= r < |g|
      ensures |g[r]| == w
      ensures forall c :: 0 <= c < w ==> g[r][c] == draws[r * w + c]
    {
      assert (r + 1) * w == r * w + w;
    }
  }

  /**
   * With positive dimensions and a random source that returns values of
   * `randrange(width * height)`, the synthetic picture is well formed and
   * every brightness lies in [0, width * height).
   */
  lemma SyntheticPictureWellFormed(width: int, height: int, draws: seq<int>, tag: Option<int>, index: Option<int>)
    requires width > 0 && height > 0 && height * width <= |draws|
    requires forall i :: 0 <= i < |draws| ==> 0 <= draws[i] < width * height
    ensures var r := ConstructWithSource(Some(width), Some(height), None, tag, index, draws);
              && r.Ok? && WellFormed(r.value)
              && forall pos :: InBounds(r.value, pos) ==>
                   0 <= Brightness(r.value, pos) < width * height
  {
    var r := ConstructWithSource(Some(width), Some(height), None, tag, index, draws);
    RandomGridLayout(width, height, draws);
    forall pos | InBounds(r.value, pos)
      ensures 0 <= Brightness(r.value, pos) < width * height
    {
      DivMod.MixedRadixBound(pos.y, pos.x, height, width);
    }
  }

  /**
   * A picture built from a non-empty rectangular grid is well formed, and
   * `brightness((x, y))` reads column x of row y of that grid.
   */
  lemma GridPictureReadsColumnThenRow(g: Grid, tag: Option<int>, index: Option<int>)
    requires g != [] && |g[0]| >= 1 && Rectangular(g, |g[0]|)
    ensures var r := Construct(None, None, Some(g), tag, index);
              && r.Ok? && WellFormed(r.value)
              && forall x, y :: 0 <= y < |g| && 0 <= x < |g[0]| ==>
                   InBounds(r.value, Pos(x, y)) && Brightness(r.value, Pos(x, y)) == g[y][x]
  {
  }

  /**
   * Rows of unequal length are not rejected: the width is taken from the
   * first row alone and the picture is not well formed.
   */
  lemma RaggedGridAccepted(g: Grid, row: int, tag: Option<int>, index: Option<int>)
    requires g != [] && 0 <= row < |g| && |g[row]| != |g[0]|
    ensures var r := Construct(None, None, Some(g), tag, index);
              && r.Ok? && r.value.pixels == g
              && r.value.width == |g[0]| && r.value.height == |g|
              && !WellFormed(r.value)
  {
    var p := Construct(None, None, Some(g), tag, index).value;
    assert |p.pixels[row]| != p.width;
  }

  /** As written, asking for a synthetic picture of positive size always raises. */
  lemma SyntheticConstructionRaises(width: int, height: int, tag: Option<int>, index: Option<int>)
    requires width > 0 && height > 0
    ensures Construct(Some(width), Some(height), None, tag, index) == Err(UndefinedRandomSource)
  {
  }
}
