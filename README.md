# Pairwise pixel micro-tests and the digit-dataset decoder, in Dafny

This project models the core of a handwritten-digit classifier that compares
images by the direction of brightness between pairs of pixels. It has three parts.

- **Pictures** (`pictures.dfy`). An image is an immutable grid of brightness values.
  It is read at a (column, row) position. It is built either from a supplied grid or
  synthetically from a random source. The constructor is modelled as written, with both
  of its error paths. The synthetic branch's nested loops are an imperative method.
- **Micro-tests** (`microtests.dfy`). The Minchinton comparison is the brightness
  difference between two positions, clamped to [-1, 1]. A micro-test asks whether a
  hypothesis image and the model image agree on that comparison. The micro-test space of
  a model image holds `(width * height) ** 2` tests. It decodes an integer key into an
  ordered pair of positions in mixed radix, with bases `[width, height, width, height]`.
  The least significant digit is the row of the second position. The decoding uses
  Python's flooring `//` and `%` (`divmod.dfy`). It is proved to be a bijection from
  `[0, len)` onto position pairs, with an explicit inverse. It is also proved periodic
  in `len`, because the key is never range-checked.
- **Dataset decoder** (`mnist_loader.dfy`). This works over the bytes of a file held in
  memory. The image file header is four big-endian unsigned 32-bit fields. The pixel
  bytes that follow are reshaped row-major into `size` images of `nrows x ncols`.
  `data_to_lists` and `get_labels` are loops that truncate at `max_items`. Their two
  truncation rules differ, and the model proves exactly where.

The code raises no error in these cases, and the model follows it:

- A grid with rows of unequal length is accepted. The width is taken from the first row
  (`RaggedGridAccepted`).
- A micro-test key outside `[0, len)` is not rejected. It addresses the same test as the
  key `len` further along (`GetItemPeriodic`, `DecodeKeyPeriodic`).
- A hypothesis image is never checked against the model's dimensions. A test only needs
  both of its positions to exist in both images (`Comparable`). A hypothesis of another
  size that meets this is run like any other: a 3 x 3 hypothesis tested against a 2 x 2
  model at (0, 0) and (1, 1) gives a verdict.

## Model

| member | source | states |
|---|---|---|
| `Pictures.Construct` | image_similarity.py:26-57 | Supplying a grid together with a dimension, an empty or absent grid without two non-zero dimensions, or any other mixed combination fails with the invalid-arguments error (both directions). A synthetic request with both dimensions positive fails because the random source is undefined. A non-empty grid alone sets height to the number of rows and width to the length of the first row, and keeps the tag and index. |
| `Pictures.SyntheticConstructionRaises` | image_similarity.py:28-40 | As written, every synthetic picture of positive size raises instead of being built. |
| `Pictures.ConstructWithSource` | image_similarity.py:28-51 | With the random source passed in, the constructor never fails for lack of it. Its invalid-argument cases are the same as the original's, and its non-synthetic branches agree with `Construct`. |
| `Pictures.RandomPixels` | image_similarity.py:30-40 | The nested loops that append one draw per column, row after row, build exactly `RandomGrid(width, height, draws)`. |
| `Pictures.RandomGridLayout` | image_similarity.py:32-40 | A synthetic grid has `len(range(height))` rows of `len(range(width))` values. Column c of row r is draw number `r * width + c`. |
| `Pictures.SyntheticPictureWellFormed` | image_similarity.py:36-38 | With positive dimensions and draws from `randrange(width * height)`, the synthetic picture is well formed and every brightness lies in `[0, width * height)`. |
| `Pictures.GridPictureReadsColumnThenRow` | image_similarity.py:42-61 | The contract of `brightness`. A picture built from a non-empty rectangular grid is well formed, and `brightness((x, y))` is `pixels[y][x]` of that grid: `x` picks the column, `y` the row. |
| `Pictures.RaggedGridAccepted` | image_similarity.py:42-45 | Any non-empty grid in which some row differs in length from the first is accepted unchanged. Its height is the number of rows, its width the length of the first row, and the result is not well formed. |
| `DivMod.FloorMod` | image_similarity.py:115-118 | Python's `%`: `a == d * (a // d) + a % d`, with the remainder in `[0, d)` for a positive divisor and in `(d, 0]` for a negative one. |
| `Microtests.Minchinton` | image_similarity.py:80-89 | The clamped difference always lies in {-1, 0, 1}. It equals the sign of `brightness(b) - brightness(a)`. |
| `Microtests.MinchintonReflexive` | image_similarity.py:85-89 | A position compared with itself gives 0. |
| `Microtests.MinchintonAntisymmetric` | image_similarity.py:85-89 | Swapping the two positions negates the comparison. |
| `Microtests.Microtest` | image_similarity.py:91-96 | A hypothesis passes exactly when it orders the brightness at `a` and `b` the same way as the model: brighter at `b` in both, darker at `b` in both, or equal in both. |
| `Microtests.MicrotestReflexive` | image_similarity.py:91-96 | An image passes every test against itself. |
| `Microtests.MicrotestSymmetricInImages` | image_similarity.py:91-96 | Exchanging the hypothesis and the model does not change the verdict. |
| `Microtests.MicrotestSymmetricInPositions` | image_similarity.py:91-96 | Exchanging the two positions does not change the verdict. |
| `Microtests.MicrotestIgnoresUniformShift` | image_similarity.py:80-96 | Adding a constant to every brightness of the hypothesis does not change any verdict. |
| `Microtests.NewMicrotestList` | image_similarity.py:98-107 | The space copies the model's width and height and keeps the model. For a well-formed model it is non-empty and indexing it never divides by zero, whatever the key. |
| `Microtests.Run` | image_similarity.py:91-122 | Calling the test that indexing returns on a hypothesis passes exactly when the hypothesis orders the brightness at the two bound positions the same way as the bound model. |
| `Microtests.Len` | image_similarity.py:109-111 | The number of tests is non-negative. It is zero exactly when one of the copied dimensions is zero. |
| `Microtests.DecodeKey` | image_similarity.py:113-120 | For positive dimensions, any integer key decodes to two positions with `x < width` and `y < height`. |
| `Microtests.GetItem` | image_similarity.py:113-122 | Indexing succeeds exactly when both dimensions are non-zero; otherwise it divides by zero. The test it returns is bound to the model image and to in-grid positions. |
| `Microtests.KeyOfDecodeKey` | image_similarity.py:113-120 | Every key in `[0, (w*h)**2)` equals `((x1*h + y1)*w + x2)*h + y2` of the pair it decodes to. |
| `Microtests.DecodeKeyOf` | image_similarity.py:113-120 | Every ordered pair of in-grid positions has a key in `[0, (w*h)**2)`, and that key decodes to the pair. |
| `Microtests.DecodeKeyPeriodic` | image_similarity.py:113-120 | `key` and `key + (w*h)**2` decode to the same pair, for every integer key. |
| `Microtests.GetItemBijective` | image_similarity.py:98-122 | On a well-formed model, the tests at keys `0 .. len - 1` are the tests of all ordered position pairs. Each key is the key of its own pair, and each pair is reached from its key. |
| `Microtests.GetItemInjective` | image_similarity.py:113-122 | Two keys in `[0, len)` that give the same test are equal. |
| `Microtests.GetItemPeriodic` | image_similarity.py:109-122 | Without a range check, `key + len` gives the same test as `key`. |
| `Microtests.SelfAgreement` | image_similarity.py:103-122 | On a well-formed model, every key gives a test whose positions lie in the model, and the model passes that test. |
| `Microtests.RunSymmetric` | image_similarity.py:91-122 | For two images of the same shape, running the test at any key of the model's space on the hypothesis gives the same verdict as running the hypothesis's space's test at that key on the model. |
| `MnistLoader.BigEndianU32` | mnist_loader.py:36-37 | A header field decoded from four bytes is an unsigned 32-bit value. |
| `MnistLoader.BigEndianDecodesEncoding` | mnist_loader.py:36-37 | Decoding the big-endian bytes of any 32-bit value gives that value back. |
| `MnistLoader.BigEndianEncodesDecoding` | mnist_loader.py:36-37 | Any four bytes are the big-endian encoding of the value they decode to, so the decoding is one-to-one. |
| `MnistLoader.GetData` | mnist_loader.py:34-40 | A file shorter than the 16-byte header fails. Otherwise decoding succeeds exactly when the remaining bytes number `size * nrows * ncols`. It then yields `size` images of `nrows` rows of `ncols` bytes, whose row-major concatenation is exactly the bytes after the header. |
| `MnistLoader.FlattenReshape` | mnist_loader.py:38-39 | Reshaping `size * nrows * ncols` bytes gives images of that shape, which flatten back to the same bytes. |
| `MnistLoader.ReshapeFlatten` | mnist_loader.py:38-39 | Images of a common shape, flattened row-major and reshaped, come back unchanged. |
| `MnistLoader.GetDataRoundTrip` | mnist_loader.py:34-40 | Decoding an image file written from any images of a common shape returns those images, whatever the magic number. |
| `MnistLoader.GetDataIgnoresMagic` | mnist_loader.py:36-40 | The magic number is never validated: files that differ only in their first four bytes decode alike. |
| `MnistLoader.DataToLists` | mnist_loader.py:48-55 | It returns the first `max_items` images when `max_items` is in `[0, n)`, and all `n` otherwise (none, negative, or at least `n`). Each output has the shape and integer values of its input image, in order. |
| `MnistLoader.GetPyData` | mnist_loader.py:43-45 | Loading fails exactly when decoding fails, with the same error. Otherwise it returns the `data_to_lists` truncation of the decoded images. |
| `MnistLoader.GetLabels` | mnist_loader.py:58-70 | A file shorter than the 8-byte header fails. Otherwise the labels are the bytes after the header in file order, as integers. With no limit all of them are yielded, ignoring the header count. With a limit `m` and `n` bytes, `min(n, m)` are yielded when `m >= 1`, and one label when `m <= 0` and data is present. |
| `MnistLoader.TruncationsDifferAtZero` | mnist_loader.py:48-70 | With at least one item and `max_items = 0`, no image is kept but one label is yielded. |
| `MnistLoader.TruncationsAgree` | mnist_loader.py:48-70 | For `n >= 1` items, images and labels are truncated to the same count exactly when there is no limit, the limit is at least 1, or the limit is negative and `n == 1`. |

## Findings

| source | as written | input that shows it | evidently intended | confidence | as-written member | corrected member |
|---|---|---|---|---|---|---|
| image_similarity.py:38 | The synthetic branch calls `rng.randrange`, but the module defines no `rng`. The functions that have a random source take it as a parameter or create it locally (`get_hypotheses_and_microtests`, `example`, `standard_sds`, `experiment`, `main`), but none of them passes it to `Picture`. So the branch raises `NameError` as soon as it draws. | `Picture(width=2, height=2)` | Fill the grid from a random source passed to the constructor, each cell a value of `randrange(width * height)` | high; not executed | `Pictures.Construct` | `Pictures.ConstructWithSource` |

`Pictures.Construct` models the constructor as written, and
`Pictures.SyntheticConstructionRaises` exhibits the failure. `Pictures.ConstructWithSource`
is the corrected constructor, and `Pictures.RandomPixels` holds its loops.
`Pictures.SyntheticPictureWellFormed` proves the intended property of the corrected
constructor: the picture is well formed, with values in `[0, width * height)`.

## Left out

- `Picture.__str__` is diagnostic text formatting only.
- The `log.debug` call in `minchinton` is logging.
- Orchestration is not modelled: `get_hypotheses_and_microtests`, `example`,
  `standard_sds`, `experiment` and `main`. They drive an external swarm-search library
  that is not part of this model, and they use randomness, clocks, JSON file output,
  floating-point accuracy figures and `sys.argv` dispatch.
- Only `__len__` and `__getitem__` with integer keys are modelled from the list base
  class. Iteration, slicing and the uninitialised list contents are not.
- A test whose positions lie outside the hypothesis or the model is excluded by the
  precondition `Comparable`, and `Brightness` likewise requires an in-bounds position.
  Python's `IndexError` and negative-index wrap-around are not modelled.
- File handling is not modelled: `open`, `np.fromfile`, and the fixed dataset paths in
  `get_60k_data` and `get_10k_data`. The decoder works on the file's bytes as a
  sequence. A short header read (`struct.error`) is the `TruncatedHeader` error.
- Constructor arguments are optional integers: the tag (the image's label) and index are
  `Option<int>`. Python truthiness of non-integer arguments is not modelled.
- The key-decoding properties are proved for positive dimensions only. A picture with a
  negative dimension can only come from the synthetic branch. It decodes with Python's
  flooring operators, but nothing further is proved about it.
- `get_labels` is a generator. The model returns the whole sequence it yields, as
  `list(...)` consumes it. A consumer that stops early is not modelled.
