/**
 * The decoder of the digit dataset's binary files, over the bytes of a file
 * held in memory. An image file is a 16-byte header of four big-endian
 * unsigned 32-bit fields (magic, size, nrows, ncols) followed by the pixel
 * bytes; a label file is an 8-byte header (magic, count) followed by one
 * byte per label.
 */
module MnistLoader {
  import opened Wrappers
  import DivMod

  newtype byte = x: int | 0 <= x < 256

  /** One image: `nrows` rows of `ncols` pixel bytes. */
  type Image = seq<seq<byte>>

  datatype LoadError =
    /** A header read returned fewer bytes than the fields it unpacks. */
    | TruncatedHeader
    /** The pixel bytes do not number exactly size * nrows * ncols, so the reshape fails. */
    | ShapeMismatch

  const U32Limit: int := 0x1_0000_0000

  /** A big-endian unsigned 32-bit field. */
  function BigEndianU32(b: seq<byte>): (v: nat)
    requires |b| == 4
    ensures v < U32Limit
  {
    ((b[0] as nat * 256 + b[1] as nat) * 256 + b[2] as nat) * 256 + b[3] as nat
  }

  /** The four bytes that write `v` big-endian: the encoder the decoding inverts. */
  function U32Bytes(v: nat): (b: seq<byte>)
    requires v < U32Limit
    ensures |b| == 4
  {
    [(v / 0x100_0000) as byte, (v / 0x1_0000 % 256) as byte, (v / 256 % 256) as byte, (v % 256) as byte]
  }

  lemma BigEndianDecodesEncoding(v: nat)
    requires v < U32Limit
    ensures BigEndianU32(U32Bytes(v)) == v
  {
  }

  lemma BigEndianEncodesDecoding(b: seq<byte>)
    requires |b| == 4
    ensures U32Bytes(BigEndianU32(b)) == b
  {
    var b0, b1, b2, b3 := b[0] as int, b[1] as int, b[2] as int, b[3] as int;
    var v := BigEndianU32(b);
    assert v == b0 * 0x100_0000 + ((b1 * 256 + b2) * 256 + b3);
    DivMod.DivModUnique(v, b0, (b1 * 256 + b2) * 256 + b3, 0x100_0000);
    assert v == (b0 * 256 + b1) * 0x1_0000 + (b2 * 256 + b3);
    DivMod.DivModUnique(v, b0 * 256 + b1, b2 * 256 + b3, 0x1_0000);
    DivMod.DivModUnique(b0 * 256 + b1, b0, b1, 256);
    DivMod.DivModUnique(v, (b0 * 256 + b1) * 256 + b2, b3, 256);
    DivMod.DivModUnique((b0 * 256 + b1) * 256 + b2, b0 * 256 + b1, b2, 256);
  }

  /** The header of an image file; the magic number is decoded but never checked. */
  datatype ImageHeader = ImageHeader(magic: nat, size: nat, nrows: nat, ncols: nat)

  function HeaderOf(file: seq<byte>): ImageHeader
    requires |file| >= 16
  {
    ImageHeader(BigEndianU32(file[0..4]), BigEndianU32(file[4..8]),
                BigEndianU32(file[8..12]), BigEndianU32(file[12..16]))
  }

  /** Every image has `nrows` rows of `ncols` bytes. */
  predicate Shaped(images: seq<Image>, nrows: nat, ncols: nat) {
    forall i :: 0 <= i < |images| ==>
      |images[i]| == nrows && forall r :: 0 <= r < nrows ==> |images[i][r]| == ncols
  }

  /** The sequences of `xs`, one after the other. */
  function Concat<T>(xs: seq<seq<T>>): seq<T> {
    if xs == [] then [] else xs[0] + Concat(xs[1..])
  }

  /** The pixel bytes of `images` in file order: image by image, row by row. */
  function Flatten(images: seq<Image>): seq<byte> {
    Concat(seq(|images|, i requires 0 <= i < |images| => Concat(images[i])))
  }

  /** The position of pixel (r, c) of image i in a row-major byte stream. */
  function PixelIndex(nrows: nat, ncols: nat, i: nat, r: nat, c: nat): nat {
    (i * nrows + r) * ncols + c
  }

  lemma PixelIndexBound(size: nat, nrows: nat, ncols: nat, i: nat, r: nat, c: nat)
    requires i < size && r < nrows && c < ncols
    ensures PixelIndex(nrows, ncols, i, r, c) < size * nrows * ncols
  {
    DivMod.MixedRadixBound(i, r, size, nrows);
    DivMod.MixedRadixBound(i * nrows + r, c, size * nrows, ncols);
  }

  function Pixel(pixels: seq<byte>, size: nat, nrows: nat, ncols: nat, i: nat, r: nat, c: nat): byte
    requires |pixels| == size * nrows * ncols && i < size && r < nrows && c < ncols
  {
    PixelIndexBound(size, nrows, ncols, i, r, c);
    pixels[PixelIndex(nrows, ncols, i, r, c)]
  }

  /** numpy's `reshape((size, nrows, ncols))` in C order. */
  function Reshape(pixels: seq<byte>, size: nat, nrows: nat, ncols: nat): seq<Image>
    requires |pixels| == size * nrows * ncols
  {
    seq(size, i requires 0 <= i < size =>
      seq(nrows, r requires 0 <= r < nrows =>
        seq(ncols, c requires 0 <= c < ncols => Pixel(pixels, size, nrows, ncols, i, r, c))))
  }

  lemma {:induction false} ConcatLength<T>(xs: seq<seq<T>>, k: nat)
    requires forall i :: 0 <= i < |xs| ==> |xs[i]| == k
    ensures |Concat(xs)| == |xs| * k
  {
    if xs != [] {
      ConcatLength(xs[1..], k);
      assert |xs| * k == k + (|xs| - 1) * k;
    }
  }

  /** Concatenating k-long pieces puts element j of piece i at i * k + j. */
  lemma {:induction false} ConcatAt<T>(xs: seq<seq<T>>, k: nat, i: nat, j: nat)
    requires forall i :: 0 <= i < |xs| ==> |xs[i]| == k
    requires i < |xs| && j < k
    ensures i * k + j < |Concat(xs)| && Concat(xs)[i * k + j] == xs[i][j]
  {
    ConcatLength(xs, k);
    DivMod.MixedRadixBound(i, j, |xs|, k);
    if i > 0 {
      ConcatAt(xs[1..], k, i - 1, j);
      assert i * k + j == k + ((i - 1) * k + j);
    }
  }

  lemma PixelIndexRegrouped(nrows: nat, ncols: nat, i: nat, r: nat, c: nat)
    ensures PixelIndex(nrows, ncols, i, r, c) == i * (nrows * ncols) + (r * ncols + c)
    ensures i * (nrows * ncols) == i * nrows * ncols
  {
  }

  /** Flattening row-major and reshaping gives the images back. */
  lemma {:induction false} ReshapeFlatten(images: seq<Image>, nrows: nat, ncols: nat)
    requires Shaped(images, nrows, ncols)
    ensures |Flatten(images)| == |images| * nrows * ncols
    ensures Reshape(Flatten(images), |images|, nrows, ncols) == images
  {
    var size := |images|;
    var inner := seq(size, i requires 0 <= i < size => Concat(images[i]));
    forall i | 0 <= i < size
      ensures |inner[i]| == nrows * ncols
    {
      ConcatLength(images[i], ncols);
    }
    ConcatLength(inner, nrows * ncols);
    PixelIndexRegrouped(nrows, ncols, size, 0, 0);
    var back := Reshape(Flatten(images), size, nrows, ncols);
    forall i | 0 <= i < size
      ensures back[i] == images[i]
    {
      forall r | 0 <= r < nrows
        ensures back[i][r] == images[i][r]
      {
        forall c | 0 <= c < ncols
          ensures back[i][r][c] == images[i][r][c]
        {
          ConcatAt(images[i], ncols, r, c);
          DivMod.MixedRadixBound(r, c, nrows, ncols);
          ConcatAt(inner, nrows * ncols, i, r * ncols + c);
          PixelIndexRegrouped(nrows, ncols, i, r, c);
        }
      }
    }
  }

  /** Two byte streams that reshape to the same images are the same stream. */
  lemma {:induction false} ReshapeInjective(p: seq<byte>, q: seq<byte>, size: nat, nrows: nat, ncols: nat)
    requires |p| == size * nrows * ncols && |q| == size * nrows * ncols
    requires Reshape(p, size, nrows, ncols) == Reshape(q, size, nrows, ncols)
    ensures p == q
  {
    forall j | 0 <= j < |p|
      ensures p[j] == q[j]
    {
      assert ncols > 0 && nrows > 0;
      var c := j % ncols;
      var k := j / ncols;
      var r := k % nrows;
      var i := k / nrows;
      DivMod.QuotientBound(j, size * nrows, ncols);
      DivMod.QuotientBound(k, size, nrows);
      assert j == (i * nrows + r) * ncols + c;
      assert Reshape(p, size, nrows, ncols)[i][r][c] == p[j];
      assert Reshape(q, size, nrows, ncols)[i][r][c] == q[j];
    }
  }

  /** Reshaping row-major and flattening gives the bytes back. */
  lemma FlattenReshape(pixels: seq<byte>, size: nat, nrows: nat, ncols: nat)
    requires |pixels| == size * nrows * ncols
    ensures Shaped(Reshape(pixels, size, nrows, ncols), nrows, ncols)
    ensures Flatten(Reshape(pixels, size, nrows, ncols)) == pixels
  {
    var images := Reshape(pixels, size, nrows, ncols);
    ReshapeFlatten(images, nrows, ncols);
    ReshapeInjective(Flatten(images), pixels, size, nrows, ncols);
  }

  /**
   * `get_data`: decode the header, then split the remaining bytes row-major
   * into `size` images of `nrows` by `ncols`. A short header and a pixel
   * count other than size * nrows * ncols are errors.
   */
  function GetData(file: seq<byte>): (r: Result<seq<Image>, LoadError>)
    ensures |file| < 16 <==> r == Err(TruncatedHeader)
    ensures |file| >= 16 ==>
              var h := HeaderOf(file);
              (r.Ok? <==> |file| - 16 == h.size * h.nrows * h.ncols) &&
              (r.Ok? ==> |r.value| == h.size && Shaped(r.value, h.nrows, h.ncols))
    ensures r.Ok? ==> Flatten(r.value) == file[16..]
  {
    if |file| < 16 then
      Err(TruncatedHeader)
    else
      var h := HeaderOf(file);
      if |file| - 16 != h.size * h.nrows * h.ncols then
        Err(ShapeMismatch)
      else
        FlattenReshape(file[16..], h.size, h.nrows, h.ncols);
        Ok(Reshape(file[16..], h.size, h.nrows, h.ncols))
  }

  /** The bytes of an image file holding `images`, each `nrows` by `ncols`. */
  function ImageFile(magic: nat, nrows: nat, ncols: nat, images: seq<Image>): seq<byte>
    requires magic < U32Limit && |images| < U32Limit && nrows < U32Limit && ncols < U32Limit
  {
    U32Bytes(magic) + U32Bytes(|images|) + U32Bytes(nrows) + U32Bytes(ncols) + Flatten(images)
  }

  /** Decoding an encoded image file gives back its images, whatever its magic number. */
  lemma GetDataRoundTrip(magic: nat, nrows: nat, ncols: nat, images: seq<Image>)
    requires magic < U32Limit && |images| < U32Limit && nrows < U32Limit && ncols < U32Limit
    requires Shaped(images, nrows, ncols)
    ensures GetData(ImageFile(magic, nrows, ncols, images)) == Ok(images)
  {
    var file := ImageFile(magic, nrows, ncols, images);
    ReshapeFlatten(images, nrows, ncols);
    assert file[0..4] == U32Bytes(magic);
    assert file[4..8] == U32Bytes(|images|);
    assert file[8..12] == U32Bytes(nrows);
    assert file[12..16] == U32Bytes(ncols);
    assert file[16..] == Flatten(images);
    BigEndianDecodesEncoding(magic);
    BigEndianDecodesEncoding(|images|);
    BigEndianDecodesEncoding(nrows);
    BigEndianDecodesEncoding(ncols);
  }

  /** The magic number is never validated: the first four bytes do not affect the result. */
  lemma GetDataIgnoresMagic(file: seq<byte>, other: seq<byte>)
    requires |file| >= 4 && |other| == |file| && other[4..] == file[4..]
    ensures GetData(other) == GetData(file)
  {
    if |file| >= 16 {
      assert other[4..8] == file[4..8] && other[8..12] == file[8..12] && other[12..16] == file[12..16];
      assert other[16..] == file[16..];
    }
  }

  /** `grid` holds the integer values of `image`, in the same shape. */
  predicate SameValues(grid: seq<seq<int>>, image: Image) {
    && |grid| == |image|
    && forall r :: 0 <= r < |image| ==>
         |grid[r]| == |image[r]| && forall c :: 0 <= c < |image[r]| ==> grid[r][c] == image[r][c] as int
  }

  function ToInts(image: Image): seq<seq<int>> {
    seq(|image|, r requires 0 <= r < |image| =>
      seq(|image[r]|, c requires 0 <= c < |image[r]| => image[r][c] as int))
  }

  /**
   * How many images `data_to_lists` keeps of `n`: the loop stops when the
   * image number equals `max_items`, which only a number in [0, n) can.
   */
  function DataCount(n: nat, maxItems: Option<int>): nat {
    if maxItems.Some? && 0 <= maxItems.value < n then maxItems.value else n
  }

  /** `data_to_lists`: the first images of `data` as integer grids, stopping at image number `max_items`. */
  method DataToLists(data: seq<Image>, maxItems: Option<int>) returns (dataList: seq<seq<seq<int>>>)
    ensures |dataList| == DataCount(|data|, maxItems)
    ensures forall i :: 0 <= i < |dataList| ==> SameValues(dataList[i], data[i])
  {
    dataList := [];
    var charNum := 0;
    while charNum < |data|
      invariant 0 <= charNum <= |data|
      invariant |dataList| == charNum
      invariant forall i :: 0 <= i < charNum ==> SameValues(dataList[i], data[i])
      invariant maxItems.Some? && 0 <= maxItems.value ==> charNum <= maxItems.value
    {
      if maxItems == Some(charNum) {
        break;
      }
      dataList := dataList + [ToInts(data[charNum])];
      charNum := charNum + 1;
    }
  }

  /** `get_py_data`: decode an image file, then keep what `data_to_lists` keeps. */
  method GetPyData(file: seq<byte>, maxItems: Option<int>) returns (r: Result<seq<seq<seq<int>>>, LoadError>)
    ensures r.Err? <==> GetData(file).Err?
    ensures r.Err? ==> r.error == GetData(file).error
    ensures r.Ok? ==> |r.value| == DataCount(HeaderOf(file).size, maxItems)
    ensures r.Ok? ==> forall i :: 0 <= i < |r.value| ==> SameValues(r.value[i], GetData(file).value[i])
  {
    var data := GetData(file);
    if data.Err? {
      return Err(data.error);
    }
    var lists := DataToLists(data.value, maxItems);
    r := Ok(lists);
  }

  /**
   * How many labels `get_labels` yields from `n` label bytes: all of them
   * without a limit; otherwise it stops once the count reaches `max_items`,
   * a test made only after a label has been yielded, so a limit of one or
   * less still yields one label.
   */
  function LabelCount(n: nat, maxItems: Option<int>): nat {
    if n == 0 then 0
    else if maxItems.None? then n
    else if maxItems.value <= 1 then 1
    else if maxItems.value < n then maxItems.value
    else n
  }

  /**
   * `get_labels`: skip the 8-byte header (count included: it does not bound
   * the reading), then yield one label per byte until the data ends or the
   * count reaches `max_items`.
   */
  method GetLabels(file: seq<byte>, maxItems: Option<int>) returns (r: Result<seq<int>, LoadError>)
    ensures |file| < 8 ==> r == Err(TruncatedHeader)
    ensures |file| >= 8 ==> r.Ok?
    ensures r.Ok? ==> |r.value| == LabelCount(|file| - 8, maxItems)
    ensures r.Ok? ==> forall i :: 0 <= i < |r.value| ==> r.value[i] == file[8 + i] as int
  {
    if |file| < 8 {
      return Err(TruncatedHeader);
    }
    var labels := [];
    var pos := 8;
    var count := 0;
    while true
      invariant 8 <= pos <= |file|
      invariant count == pos - 8 == |labels|
      invariant forall i :: 0 <= i < count ==> labels[i] == file[8 + i] as int
      invariant maxItems.Some? && count > 0 ==> count < maxItems.value
      decreases |file| - pos
    {
      if pos == |file| {
        break;
      }
      var num := file[pos] as int;
      pos := pos + 1;
      labels := labels + [num];
      count := count + 1;
      if maxItems.Some? && count >= maxItems.value {
        break;
      }
    }
    r := Ok(labels);
  }

  /** At a limit of zero the two truncations part ways: no image, but one label. */
  lemma TruncationsDifferAtZero(n: nat)
    requires n >= 1
    ensures DataCount(n, Some(0)) == 0 && LabelCount(n, Some(0)) == 1
  {
  }

  /**
   * Images and labels are truncated to the same length exactly when there is
   * no limit, the limit is positive, or a negative limit meets a single item.
   */
  lemma TruncationsAgree(n: nat, maxItems: Option<int>)
    requires n >= 1
    ensures DataCount(n, maxItems) == LabelCount(n, maxItems) <==>
              maxItems.None? || maxItems.value >= 1 || (maxItems.value < 0 && n == 1)
  {
  }
}
