/**
 * The space of Minchinton micro-tests on a model image: every ordered pair
 * of pixel positions gives one boolean test asking whether a hypothesis
 * image agrees with the model on the direction of brightness from the first
 * position to the second. Tests are addressed by an integer key decoded in
 * mixed radix with digit bases [width, height, width, height], the row of
 * the second position being the least significant digit.
 */
module Microtests {
  import opened Wrappers
  import opened Pictures
  import opened DivMod

  /** The sign of `d`, the reference the clamped difference is checked against. */
  function Sign(d: int): int {
    if d > 0 then 1 else if d < 0 then -1 else 0
  }

  function Min(a: int, b: int): int {
    if a <= b then a else b
  }

  function Max(a: int, b: int): int {
    if a >= b then a else b
  }

  /**
   * The Minchinton comparison: the brightness difference from `a` to `b`,
   * clamped to [-1, 1]. It is the sign of that difference: -1 when the
   * image gets darker from `a` to `b`, 0 when flat, 1 when brighter.
   */
  function Minchinton(img: Picture, a: Pos, b: Pos): (r: int)
    requires InBounds(img, a) && InBounds(img, b)
    ensures -1 <= r <= 1
    ensures r == Sign(Brightness(img, b) - Brightness(img, a))
  {
    Min(Max(Brightness(img, b) - Brightness(img, a), -1), 1)
  }

  /** Both images have pixels at both positions. */
  predicate Comparable(hyp: Picture, a: Pos, b: Pos, model: Picture) {
    InBounds(hyp, a) && InBounds(hyp, b) && InBounds(model, a) && InBounds(model, b)
  }

  /**
   * One micro-test: the hypothesis passes when it orders the brightness at
   * `a` and `b` the same way the model does (both brighter at `b`, both
   * darker at `b`, or both equal).
   */
  predicate Microtest(hyp: Picture, a: Pos, b: Pos, model: Picture)
    requires Comparable(hyp, a, b, model)
    ensures Microtest(hyp, a, b, model) <==>
              && (Brightness(hyp, a) < Brightness(hyp, b) <==> Brightness(model, a) < Brightness(model, b))
              && (Brightness(hyp, b) < Brightness(hyp, a) <==> Brightness(model, b) < Brightness(model, a))
  {
    Minchinton(hyp, a, b) == Minchinton(model, a, b)
  }

  /** A position compared with itself is flat. */
  lemma MinchintonReflexive(img: Picture, p: Pos)
    requires InBounds(img, p)
    ensures Minchinton(img, p, p) == 0
  {
  }

  /** Swapping the positions negates the comparison. */
  lemma MinchintonAntisymmetric(img: Picture, a: Pos, b: Pos)
    requires InBounds(img, a) && InBounds(img, b)
    ensures Minchinton(img, a, b) == -Minchinton(img, b, a)
  {
  }

  /** An image always passes a test against itself. */
  lemma MicrotestReflexive(img: Picture, a: Pos, b: Pos)
    requires InBounds(img, a) && InBounds(img, b)
    ensures Microtest(img, a, b, img)
  {
  }

  /** Hypothesis and model play symmetric roles. */
  lemma MicrotestSymmetricInImages(hyp: Picture, a: Pos, b: Pos, model: Picture)
    requires Comparable(hyp, a, b, model)
    ensures Microtest(hyp, a, b, model) == Microtest(model, a, b, hyp)
  {
  }

  /** The order of the two positions does not matter to a test. */
  lemma MicrotestSymmetricInPositions(hyp: Picture, a: Pos, b: Pos, model: Picture)
    requires Comparable(hyp, a, b, model)
    ensures Microtest(hyp, a, b, model) == Microtest(hyp, b, a, model)
  {
    MinchintonAntisymmetric(hyp, a, b);
    MinchintonAntisymmetric(model, a, b);
  }

  /** The image with `shift` added to every brightness value. */
  function Shifted(p: Picture, shift: int): (q: Picture)
    ensures |q.pixels| == |p.pixels|
    ensures forall r :: 0 <= r < |p.pixels| ==> |q.pixels[r]| == |p.pixels[r]|
  {
    p.(pixels := seq(|p.pixels|, r requires 0 <= r < |p.pixels| =>
                   seq(|p.pixels[r]|, c requires 0 <= c < |p.pixels[r]| => p.pixels[r][c] + shift)))
  }

  /** A uniformly brighter or darker hypothesis passes exactly the same tests. */
  lemma MicrotestIgnoresUniformShift(hyp: Picture, shift: int, a: Pos, b: Pos, model: Picture)
    requires Comparable(hyp, a, b, model)
    ensures Comparable(Shifted(hyp, shift), a, b, model)
    ensures Microtest(Shifted(hyp, shift), a, b, model) == Microtest(hyp, a, b, model)
  {
    var h := Shifted(hyp, shift);
    assert Brightness(h, a) == Brightness(hyp, a) + shift;
    assert Brightness(h, b) == Brightness(hyp, b) + shift;
  }

  /**
   * The test space of one model image; `width` and `height` are copied from
   * the model when the space is created.
   */
  datatype MicrotestList = MicrotestList(width: int, height: int, model: Picture)

  function NewMicrotestList(model: Picture): (t: MicrotestList)
    ensures t.model == model && t.width == model.width && t.height == model.height
    ensures WellFormed(model) ==> Len(t) > 0 && forall key :: GetItem(t, key).Ok?
  {
    MicrotestList(model.width, model.height, model)
  }

  /** The number of tests: `(width * height) ** 2`. */
  function Len(t: MicrotestList): (n: int)
    ensures n >= 0
    ensures n == 0 <==> t.width == 0 || t.height == 0
  {
    (t.width * t.height) * (t.width * t.height)
  }

  /** A test with the model image and both positions bound; it awaits a hypothesis. */
  datatype BoundTest = BoundTest(model: Picture, a: Pos, b: Pos)

  /** Running a bound test on a hypothesis image. */
  predicate Run(test: BoundTest, hyp: Picture)
    requires Comparable(hyp, test.a, test.b, test.model)
    ensures Run(test, hyp) <==>
              && (Brightness(hyp, test.a) < Brightness(hyp, test.b) <==> Brightness(test.model, test.a) < Brightness(test.model, test.b))
              && (Brightness(hyp, test.b) < Brightness(hyp, test.a) <==> Brightness(test.model, test.b) < Brightness(test.model, test.a))
  {
    Microtest(hyp, test.a, test.b, test.model)
  }

  /** Decoding a key divides by the dimensions, which raises when one is zero. */
  datatype ListError = ZeroDivision

  /**
   * The positions `(x1, y1)` and `(x2, y2)` a key addresses, using Python's
   * flooring `//` and `%`, so that any integer key, negative or past the
   * end, decodes to positions inside the grid.
   */
  function DecodeKey(width: int, height: int, key: int): (pair: (Pos, Pos))
    requires width != 0 && height != 0
    ensures width > 0 && height > 0 ==>
              && 0 <= pair.0.x < width && 0 <= pair.0.y < height
              && 0 <= pair.1.x < width && 0 <= pair.1.y < height
  {
    var y2 := FloorMod(key, height);
    var x2 := FloorMod(FloorDiv(key, height), width);
    var y1 := FloorMod(FloorDiv(key, height * width), height);
    var x1 := FloorMod(FloorDiv(key, height * width * height), width);
    (Pos(x1, y1), Pos(x2, y2))
  }

  /** `__getitem__`: the test the key addresses, with no check that the key is in range. */
  function GetItem(t: MicrotestList, key: int): (r: Result<BoundTest, ListError>)
    ensures r.Ok? <==> t.width != 0 && t.height != 0
    ensures r.Ok? ==> r.value.model == t.model
    ensures r.Ok? && t.width > 0 && t.height > 0 ==>
              && 0 <= r.value.a.x < t.width && 0 <= r.value.a.y < t.height
              && 0 <= r.value.b.x < t.width && 0 <= r.value.b.y < t.height
  {
    if t.height == 0 || t.width == 0 then
      Err(ZeroDivision)
    else
      var (a, b) := DecodeKey(t.width, t.height, key);
      Ok(BoundTest(t.model, a, b))
  }

  /** The key of a pair of positions: the inverse of the decoding. */
  function KeyOf(width: int, height: int, a: Pos, b: Pos): int {
    ((a.x * height + a.y) * width + b.x) * height + b.y
  }

  predicate InGrid(width: int, height: int, p: Pos) {
    0 <= p.x < width && 0 <= p.y < height
  }

  /** For positive dimensions the flooring operators are Dafny's own. */
  lemma DecodeKeyPositive(width: int, height: int, key: int)
    requires width > 0 && height > 0
    ensures DecodeKey(width, height, key) ==
              (Pos(key / (height * width * height) % width, key / (height * width) % height),
               Pos(key / height % width, key % height))
  {
    var w, h := width, height;
    FloorAgreesForPositive(key, h);
    FloorAgreesForPositive(key / h, w);
    FloorAgreesForPositive(key, h * w);
    FloorAgreesForPositive(key / (h * w), h);
    FloorAgreesForPositive(key, h * w * h);
    FloorAgreesForPositive(key / (h * w * h), w);
  }

  /** One mixed-radix step: a number is its quotient times the base plus its digit. */
  lemma Split(k: int, n: int)
    requires n > 0
    ensures k == (k / n) * n + k % n
  {
  }

  /** Every key in [0, len) is the key of the pair it decodes to. */
  lemma {:induction false} KeyOfDecodeKey(width: int, height: int, key: int)
    requires width > 0 && height > 0 && 0 <= key < (width * height) * (width * height)
    ensures KeyOf(width, height, DecodeKey(width, height, key).0, DecodeKey(width, height, key).1) == key
  {
    var w, h := width, height;
    var hw, hwh := h * w, h * w * h;
    DecodeKeyPositive(w, h, key);
    var q1 := key / h;
    var q2 := q1 / w;
    var q3 := q2 / h;
    DivDiv(key, h, w);
    assert q2 == key / hw;
    DivDiv(key, hw, h);
    assert q3 == key / hwh;
    assert 0 <= q3 < w by {
      SquareRegrouped(w, h);
      QuotientBound(key, w, hwh);
    }
    assert q3 % w == q3 by {
      DivModUnique(q3, 0, q3, w);
    }
    var (a, b) := DecodeKey(w, h, key);
    assert a == Pos(q3, q2 % h) && b == Pos(q1 % w, key % h);
    Split(q2, h);
    Split(q1, w);
    Split(key, h);
    calc {
      KeyOf(w, h, a, b);
      ((q3 * h + q2 % h) * w + q1 % w) * h + key % h;
      (q2 * w + q1 % w) * h + key % h;
      q1 * h + key % h;
      key;
    }
  }

  /** Every pair of in-grid positions has a key in [0, len) that decodes to it. */
  lemma {:induction false} DecodeKeyOf(width: int, height: int, a: Pos, b: Pos)
    requires width > 0 && height > 0 && InGrid(width, height, a) && InGrid(width, height, b)
    ensures 0 <= KeyOf(width, height, a, b) < (width * height) * (width * height)
    ensures DecodeKey(width, height, KeyOf(width, height, a, b)) == (a, b)
  {
    var w, h := width, height;
    var hw, hwh := h * w, h * w * h;
    var k := KeyOf(w, h, a, b);
    var q2 := a.x * h + a.y;
    var q1 := q2 * w + b.x;
    assert k == q1 * h + b.y;
    assert 0 <= k < (w * h) * (w * h) by {
      MixedRadixBound(a.x, a.y, w, h);
      MixedRadixBound(q2, b.x, w * h, w);
      MixedRadixBound(q1, b.y, w * h * w, h);
      SquareRegrouped(w, h);
    }
    DivModUnique(k, q1, b.y, h);
    DivModUnique(q1, q2, b.x, w);
    DivModUnique(q2, a.x, a.y, h);
    DivModUnique(a.x, 0, a.x, w);
    DivDiv(k, h, w);
    assert k / hw == q2;
    DivDiv(k, hw, h);
    assert k / hwh == a.x;
    DecodeKeyPositive(w, h, k);
  }

  /** The key is not range-checked: a key and the key one length further address the same test. */
  lemma {:induction false} DecodeKeyPeriodic(width: int, height: int, key: int)
    requires width > 0 && height > 0
    ensures DecodeKey(width, height, key + (width * height) * (width * height)) ==
            DecodeKey(width, height, key)
  {
    var w, h := width, height;
    var hw, hwh := h * w, h * w * h;
    var n := (w * h) * (w * h);
    var k := key + n;
    SquareRegrouped(w, h);
    assert k / h % w == key / h % w && k % h == key % h by {
      AddMultiple(key, w * h * w, h);
      AddMultiple(key / h, w * h, w);
    }
    assert k / hw % h == key / hw % h by {
      AddMultiple(key, w * h, hw);
      AddMultiple(key / hw, w, h);
    }
    assert k / hwh % w == key / hwh % w by {
      AddMultiple(key, w, hwh);
      AddMultiple(key / hwh, 1, w);
    }
    DecodeKeyPositive(w, h, k);
    DecodeKeyPositive(w, h, key);
  }

  /**
   * On a well-formed model every key yields a test whose positions lie in
   * the model, and the model passes that test.
   */
  lemma SelfAgreement(model: Picture, key: int)
    requires WellFormed(model)
    ensures var r := GetItem(NewMicrotestList(model), key);
              && r.Ok?
              && Comparable(model, r.value.a, r.value.b, model)
              && Run(r.value, model)
  {
    var r := GetItem(NewMicrotestList(model), key);
    assert InBounds(model, r.value.a) && InBounds(model, r.value.b);
  }

  /**
   * The tests at keys 0 .. len - 1 are exactly the tests of all ordered
   * position pairs, each once: every such key is the key of its pair, and
   * every pair is reached from its key.
   */
  lemma GetItemBijective(model: Picture)
    requires WellFormed(model)
    ensures var t := NewMicrotestList(model);
              forall key :: 0 <= key < Len(t) ==>
                GetItem(t, key).Ok? && KeyOf(t.width, t.height, GetItem(t, key).value.a, GetItem(t, key).value.b) == key
    ensures var t := NewMicrotestList(model);
              forall a, b :: InBounds(model, a) && InBounds(model, b) ==>
                && 0 <= KeyOf(t.width, t.height, a, b) < Len(t)
                && GetItem(t, KeyOf(t.width, t.height, a, b)) == Ok(BoundTest(model, a, b))
  {
    var t := NewMicrotestList(model);
    forall key | 0 <= key < Len(t)
      ensures KeyOf(t.width, t.height, GetItem(t, key).value.a, GetItem(t, key).value.b) == key
    {
      KeyOfDecodeKey(t.width, t.height, key);
    }
    forall a, b | InBounds(model, a) && InBounds(model, b)
      ensures 0 <= KeyOf(t.width, t.height, a, b) < Len(t)
      ensures GetItem(t, KeyOf(t.width, t.height, a, b)) == Ok(BoundTest(model, a, b))
    {
      DecodeKeyOf(t.width, t.height, a, b);
    }
  }

  /** Two keys in [0, len) that address the same pair are the same key. */
  lemma GetItemInjective(model: Picture, k1: int, k2: int)
    requires WellFormed(model)
    requires 0 <= k1 < Len(NewMicrotestList(model)) && 0 <= k2 < Len(NewMicrotestList(model))
    requires GetItem(NewMicrotestList(model), k1) == GetItem(NewMicrotestList(model), k2)
    ensures k1 == k2
  {
    var t := NewMicrotestList(model);
    KeyOfDecodeKey(t.width, t.height, k1);
    KeyOfDecodeKey(t.width, t.height, k2);
  }

  /** Keys past the end wrap around: key + len addresses the same test as key. */
  lemma GetItemPeriodic(model: Picture, key: int)
    requires WellFormed(model)
    ensures var t := NewMicrotestList(model);
              GetItem(t, key + Len(t)) == GetItem(t, key)
  {
    DecodeKeyPeriodic(model.width, model.height, key);
  }

  /**
   * Exchanging the hypothesis and the model of a test space leaves every
   * test's verdict unchanged, for images of the same shape.
   */
  lemma RunSymmetric(hyp: Picture, model: Picture, key: int)
    requires SameShape(hyp, model)
    ensures var r := GetItem(NewMicrotestList(model), key);
            var s := GetItem(NewMicrotestList(hyp), key);
              && r.Ok? && s.Ok?
              && Comparable(hyp, r.value.a, r.value.b, model)
              && Run(r.value, hyp) == Run(s.value, model)
  {
    var r := GetItem(NewMicrotestList(model), key);
    assert InBounds(model, r.value.a) && InBounds(model, r.value.b);
    assert InBounds(hyp, r.value.a) && InBounds(hyp, r.value.b);
    MicrotestSymmetricInImages(hyp, r.value.a, r.value.b, model);
  }
}
