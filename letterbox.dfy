/** The image normaliser of the rice-disease service: `resize_and_pad` scales a
    decoded image by one uniform factor so that it fits the target box, pastes it
    centred on a white canvas, and `preprocess_image` turns the 256x256 canvas into
    a (1, 256, 256, 3) tensor of channel values divided by 255.

    Sizes and offsets are computed in exact arithmetic (`real` for the ratio,
    `.Floor` for Python's `int(...)` on a non-negative value). The resampling
    filter is not modelled: the resized image is given by `sample`, an arbitrary
    function from a pixel position (x, y) of the resized image to its colour. */
module Letterbox {

  newtype byte = x: int | 0 <= x < 256

  datatype Pixel = Pixel(r: byte, g: byte, b: byte)

  /** The padding colour `(255, 255, 255)` of `Image.new("RGB", target_size, ...)`. */
  const White := Pixel(255, 255, 255)

  /** The size of the tensor the classifier takes: `(256, 256)`. */
  const ModelSide := 256

  /** `ratio = min(target_w / w, target_h / h)` over the rationals. */
  function Ratio(w: int, h: int, tw: int, th: int): (r: real)
    requires w > 0 && h > 0
  {
    var fw, fh := tw as real / w as real, th as real / h as real;
    if fw <= fh then fw else fh
  }

  /** `new_size = tuple(int(x * ratio) for x in old_size)`. The scaled image fits
      the target box, and at least one side fills its target dimension. */
  function ScaledSize(w: int, h: int, tw: nat, th: nat): (s: (int, int))
    requires w > 0 && h > 0
    ensures 0 <= s.0 <= tw && 0 <= s.1 <= th
    ensures s.0 == tw || s.1 == th
  {
    var ratio := Ratio(w, h, tw, th);
    ScaledSizeFits(w, h, tw, th);
    ((w as real * ratio).Floor, (h as real * ratio).Floor)
  }

  /** The bounds `ScaledSize` promises, on the floored products themselves. */
  lemma ScaledSizeFits(w: int, h: int, tw: nat, th: nat)
    requires w > 0 && h > 0
    ensures var ratio := Ratio(w, h, tw, th);
      var s := ((w as real * ratio).Floor, (h as real * ratio).Floor);
      0 <= s.0 <= tw && 0 <= s.1 <= th && (s.0 == tw || s.1 == th)
  {
    if tw * h <= th * w {
      WidthLimited(w, h, tw, th);
      QuotientAtMost(h * tw, w, th);
    } else {
      HeightLimited(w, h, tw, th);
      QuotientAtMost(w * th, h, tw);
    }
  }

  /** A non-negative quotient `a / b` is at most `t` when `a <= t * b`. */
  lemma QuotientAtMost(a: int, b: int, t: int)
    requires a >= 0 && b > 0 && a <= t * b
    ensures 0 <= a / b <= t
  {
    var q := a / b;
    DivBounds(a, b);
    if q > t {
      MulMono(t + 1, q, b);
    }
  }

  lemma MulMono(x: int, y: int, b: int)
    requires x <= y && b >= 0
    ensures x * b <= y * b
  {
    assert y * b - x * b == (y - x) * b;
  }

  /** For non-negative `a` and positive `b`, the floor of the rational `a / b` is
      the integer quotient. */
  lemma FloorOfQuotient(a: int, b: int)
    requires a >= 0 && b > 0
    ensures (a as real / b as real).Floor == a / b
  {
    var q, m := a / b, a % b;
    assert a == q * b + m;
    assert a as real == q as real * b as real + m as real;
    assert a as real / b as real == q as real + m as real / b as real;
    assert 0.0 <= m as real / b as real < 1.0;
  }

  /** Comparing two fractions with positive denominators by cross-multiplying. */
  lemma CrossMultiply(a: real, b: real, c: real, d: real)
    requires b > 0.0 && d > 0.0
    ensures a / b <= c / d <==> a * d <= c * b
  {
    assert (a / b) * (b * d) == a * d;
    assert (c / d) * (b * d) == c * b;
  }

  /** `x * (y / d)` is the fraction `(x * y) / d`. */
  lemma ScaleFraction(x: real, y: real, d: real)
    requires d > 0.0
    ensures x * (y / d) == (x * y) / d
  {
  }

  lemma CastProduct(a: int, b: int)
    ensures (a * b) as real == a as real * b as real
  {
  }

  /** The ratio picks the width's factor exactly when `tw * h <= th * w`. */
  lemma RatioChoice(w: int, h: int, tw: nat, th: nat)
    requires w > 0 && h > 0
    ensures Ratio(w, h, tw, th) == if tw * h <= th * w then tw as real / w as real else th as real / h as real
  {
    CrossMultiply(tw as real, w as real, th as real, h as real);
    CastProduct(tw, h);
    CastProduct(th, w);
  }

  /** A side of length `a` scaled by `t / d` is `floor(a * t / d)` pixels long. */
  lemma ScaledSide(a: int, t: int, d: int)
    requires a >= 0 && t >= 0 && d > 0
    ensures (a as real * (t as real / d as real)).Floor == a * t / d
  {
    ScaleFraction(a as real, t as real, d as real);
    CastProduct(a, t);
    FloorOfQuotient(a * t, d);
  }

  /** A side scaled by its own factor `t / a` becomes exactly `t` pixels long. */
  lemma LimitingSide(a: int, t: int)
    requires a > 0
    ensures (a as real * (t as real / a as real)).Floor == t
  {
    assert a as real * (t as real / a as real) == t as real;
  }

  /** The side whose ratio is the smaller one scales to exactly its target, and
      the other side to the floor of the exact scaled length. */
  lemma ScaledSizeIsExact(w: int, h: int, tw: nat, th: nat)
    requires w > 0 && h > 0
    ensures var ratio := Ratio(w, h, tw, th);
      var s := ((w as real * ratio).Floor, (h as real * ratio).Floor);
      (tw * h <= th * w ==> s.0 == tw && s.1 == h * tw / w) &&
      (tw * h > th * w ==> s.0 == w * th / h && s.1 == th)
  {
    if tw * h <= th * w {
      WidthLimited(w, h, tw, th);
    } else {
      HeightLimited(w, h, tw, th);
    }
  }

  lemma WidthLimited(w: int, h: int, tw: nat, th: nat)
    requires w > 0 && h > 0 && tw * h <= th * w
    ensures var ratio := Ratio(w, h, tw, th);
      (w as real * ratio).Floor == tw && (h as real * ratio).Floor == h * tw / w
  {
    RatioChoice(w, h, tw, th);
    LimitingSide(w, tw);
    ScaledSide(h, tw, w);
  }

  lemma HeightLimited(w: int, h: int, tw: nat, th: nat)
    requires w > 0 && h > 0 && tw * h > th * w
    ensures var ratio := Ratio(w, h, tw, th);
      (h as real * ratio).Floor == th && (w as real * ratio).Floor == w * th / h
  {
    RatioChoice(w, h, tw, th);
    LimitingSide(h, th);
    ScaledSide(w, th, h);
  }

  /** Aspect preservation: when the width limits, the new height `nh` is the
      largest height with `nh / tw <= h / w`; symmetrically when the height
      limits. */
  lemma {:induction false} ScaledSizeKeepsAspect(w: int, h: int, tw: nat, th: nat)
    requires w > 0 && h > 0
    ensures var s := ScaledSize(w, h, tw, th);
      (tw * h <= th * w ==> s.0 == tw && s.1 * w <= h * tw < (s.1 + 1) * w) &&
      (tw * h > th * w ==> s.1 == th && s.0 * h <= w * th < (s.0 + 1) * h)
  {
    ScaledSizeIsExact(w, h, tw, th);
    var s := ScaledSize(w, h, tw, th);
    if tw * h <= th * w {
      assert s.1 == h * tw / w;
      DivBounds(h * tw, w);
    } else {
      assert s.0 == w * th / h;
      DivBounds(w * th, h);
    }
  }

  lemma DivBounds(a: int, b: int)
    requires a >= 0 && b > 0
    ensures (a / b) * b <= a < (a / b + 1) * b
  {
    assert a == (a / b) * b + a % b;
  }

  /** Python's `(target - size) // 2`: floor division, which for a positive
      divisor is Dafny's Euclidean division. When the pasted side fits, the
      offset is non-negative, the pasted span ends inside the canvas, and the
      leftover pixel of an odd margin goes to the right or bottom. */
  function PasteOffset(target: int, size: int): (o: int)
    ensures 2 * o <= target - size <= 2 * o + 1
    ensures size <= target ==> 0 <= o && o + size <= target && o <= target - size - o <= o + 1
  {
    (target - size) / 2
  }

  /** The colour at row `y`, column `x` of the letterboxed canvas: inside the
      pasted rectangle, the resized image's pixel; elsewhere white. */
  function LetterboxAt(w: int, h: int, sample: (int, int) -> Pixel, tw: nat, th: nat, y: int, x: int): Pixel
    requires w > 0 && h > 0
  {
    var s := ScaledSize(w, h, tw, th);
    var ox, oy := PasteOffset(tw, s.0), PasteOffset(th, s.1);
    if ox <= x < ox + s.0 && oy <= y < oy + s.1 then sample(x - ox, y - oy) else White
  }

  /** Where the resized image sits on the canvas: its top-left corner is at the
      centring offsets, the whole rectangle lies inside the canvas, and the
      margins on either side differ by at most the one leftover pixel, which is
      on the right or at the bottom. */
  lemma PastedRectangleFits(w: int, h: int, tw: nat, th: nat)
    requires w > 0 && h > 0
    ensures var s := ScaledSize(w, h, tw, th);
      var ox, oy := PasteOffset(tw, s.0), PasteOffset(th, s.1);
      0 <= ox && ox + s.0 <= tw && 0 <= oy && oy + s.1 <= th &&
      ox <= tw - s.0 - ox <= ox + 1 && oy <= th - s.1 - oy <= oy + 1
  {
  }

  /** Every pixel of the resized image appears on the canvas, shifted by the
      centring offsets. */
  lemma LetterboxShowsWholeImage(w: int, h: int, sample: (int, int) -> Pixel, tw: nat, th: nat, y: int, x: int)
    requires w > 0 && h > 0
    requires 0 <= y < ScaledSize(w, h, tw, th).1 && 0 <= x < ScaledSize(w, h, tw, th).0
    ensures var s := ScaledSize(w, h, tw, th);
      var ox, oy := PasteOffset(tw, s.0), PasteOffset(th, s.1);
      0 <= oy + y < th && 0 <= ox + x < tw &&
      LetterboxAt(w, h, sample, tw, th, oy + y, ox + x) == sample(x, y)
  {
    PastedRectangleFits(w, h, tw, th);
  }

  /** Every canvas pixel outside the pasted rectangle is white. */
  lemma LetterboxPadsWithWhite(w: int, h: int, sample: (int, int) -> Pixel, tw: nat, th: nat, y: int, x: int)
    requires w > 0 && h > 0
    requires var s := ScaledSize(w, h, tw, th);
      var ox, oy := PasteOffset(tw, s.0), PasteOffset(th, s.1);
      !(ox <= x < ox + s.0 && oy <= y < oy + s.1)
    ensures LetterboxAt(w, h, sample, tw, th, y, x) == White
  {
  }

  /** `Image.new("RGB", (width, height), color)`: a `height` x `width` canvas
      (indexed row, column), filled with one colour. */
  method NewImage(width: nat, height: nat, color: Pixel) returns (img: array2<Pixel>)
    ensures fresh(img) && img.Length0 == height && img.Length1 == width
    ensures forall y, x :: 0 <= y < height && 0 <= x < width ==> img[y, x] == color
  {
    img := new Pixel[height, width];
    var y := 0;
    while y < height
      invariant 0 <= y <= height
      invariant forall i, j :: 0 <= i < y && 0 <= j < width ==> img[i, j] == color
    {
      var x := 0;
      while x < width
        invariant 0 <= x <= width
        invariant forall i, j :: 0 <= i < y && 0 <= j < width ==> img[i, j] == color
        invariant forall j :: 0 <= j < x ==> img[y, j] == color
      {
        img[y, x] := color;
        x := x + 1;
      }
      y := y + 1;
    }
  }

  function Max(a: int, b: int): int
  {
    if a >= b then a else b
  }

  function Min(a: int, b: int): int
  {
    if a <= b then a else b
  }

  /** `canvas.paste(image, (ox, oy))` for a `width` x `height` image whose
      pixel (x, y) is `sample(x, y)`: where the image overlaps the canvas its
      pixels replace the canvas's; the parts of the image that fall outside are
      clipped, and the rest of the canvas keeps its colour. */
  method Paste(canvas: array2<Pixel>, sample: (int, int) -> Pixel, width: int, height: int, ox: int, oy: int)
    modifies canvas
    ensures forall y, x :: 0 <= y < canvas.Length0 && 0 <= x < canvas.Length1 ==>
      canvas[y, x] == if ox <= x < ox + width && oy <= y < oy + height then sample(x - ox, y - oy) else old(canvas[y, x])
  {
    var y0, x0 := Max(0, oy), Max(0, ox);
    var y1, x1 := Max(y0, Min(canvas.Length0, oy + height)), Max(x0, Min(canvas.Length1, ox + width));
    var y := y0;
    while y < y1
      invariant y0 <= y <= y1
      invariant forall i, j :: 0 <= i < canvas.Length0 && 0 <= j < canvas.Length1 ==>
        canvas[i, j] == if y0 <= i < y && x0 <= j < x1 then sample(j - ox, i - oy) else old(canvas[i, j])
    {
      var x := x0;
      while x < x1
        invariant x0 <= x <= x1
        invariant forall i, j :: 0 <= i < canvas.Length0 && 0 <= j < canvas.Length1 ==>
          canvas[i, j] == if (y0 <= i < y && x0 <= j < x1) || (i == y && x0 <= j < x)
                          then sample(j - ox, i - oy) else old(canvas[i, j])
      {
        canvas[y, x] := sample(x - ox, y - oy);
        x := x + 1;
      }
      y := y + 1;
    }
  }

  /** `image.resize(new_size, ...)` raises `ValueError` when a side of
      `new_size` is 0: the image is so elongated that the short side scales
      below one pixel. */
  predicate ResizeFails(w: int, h: int, tw: nat, th: nat)
    requires w > 0 && h > 0
  {
    var s := ScaledSize(w, h, tw, th);
    s.0 == 0 || s.1 == 0
  }

  /** Into a non-empty box, the resize fails exactly when the short side, scaled
      by the limiting factor, stays below one pixel. */
  lemma ResizeFailsExactly(w: int, h: int, tw: nat, th: nat)
    requires w > 0 && h > 0 && tw > 0 && th > 0
    ensures ResizeFails(w, h, tw, th) <==>
      (tw * h <= th * w && h * tw < w) || (tw * h > th * w && w * th < h)
  {
    var s := ScaledSize(w, h, tw, th);
    if tw * h <= th * w {
      WidthLimited(w, h, tw, th);
      assert s == (tw, h * tw / w);
      DivIsZero(h * tw, w);
    } else {
      HeightLimited(w, h, tw, th);
      assert s == (w * th / h, th);
      DivIsZero(w * th, h);
    }
  }

  lemma DivIsZero(a: int, b: int)
    requires a >= 0 && b > 0
    ensures a / b == 0 <==> a < b
  {
    if a >= b {
      assert a / b >= 1 by { DivBounds(a, b); }
    }
  }

  /** Into the model's 256 x 256 box, the resize fails exactly when one side is
      more than 256 times the other. */
  lemma ModelResizeFailsExactly(w: int, h: int)
    requires w > 0 && h > 0
    ensures ResizeFails(w, h, ModelSide, ModelSide) <==> ModelSide * h < w || ModelSide * w < h
  {
    ResizeFailsExactly(w, h, ModelSide, ModelSide);
  }

  /** An image exactly 256 times as wide as it is high still resizes in exact
      arithmetic: 12544 x 49 becomes 256 x 1. */
  lemma ExactAspectLimitResizes()
    ensures !ResizeFails(12544, 49, ModelSide, ModelSide)
    ensures ScaledSize(12544, 49, ModelSide, ModelSide) == (256, 1)
  {
    ModelResizeFailsExactly(12544, 49);
    ScaledSizeIsExact(12544, 49, ModelSide, ModelSide);
  }

  /** `resize_and_pad(image, target_size)`: a `th` x `tw` canvas holding the
      resized image centred on white, or `null` when the resize raises. */
  method ResizeAndPad(w: int, h: int, sample: (int, int) -> Pixel, tw: nat, th: nat) returns (img: array2?<Pixel>)
    requires w > 0 && h > 0
    ensures img == null <==> ResizeFails(w, h, tw, th)
    ensures img != null ==> fresh(img) && img.Length0 == th && img.Length1 == tw
    ensures img != null ==>
      forall y, x :: 0 <= y < th && 0 <= x < tw ==> img[y, x] == LetterboxAt(w, h, sample, tw, th, y, x)
  {
    var size := ScaledSize(w, h, tw, th);
    if size.0 == 0 || size.1 == 0 {
      return null;
    }
    img := NewImage(tw, th, White);
    Paste(img, sample, size.0, size.1, PasteOffset(tw, size.0), PasteOffset(th, size.1));
  }

  /** A pixel as three channel values in [0, 1]: `astype(float32) / 255.0`,
      taken here over the rationals. */
  function Channels(p: Pixel): (c: seq<real>)
    ensures |c| == 3 && forall k :: 0 <= k < 3 ==> 0.0 <= c[k] <= 1.0
    ensures c == [1.0, 1.0, 1.0] <==> p == White
  {
    [p.r as real / 255.0, p.g as real / 255.0, p.b as real / 255.0]
  }

  /** `np.expand_dims(np.array(image), axis=0)`: the canvas as an array of shape
      (1, rows, columns, 3). */
  function ToTensor(img: array2<Pixel>): seq<seq<seq<seq<real>>>>
    reads img
  {
    [seq(img.Length0, y requires 0 <= y < img.Length0 reads img =>
       seq(img.Length1, x requires 0 <= x < img.Length1 reads img => Channels(img[y, x])))]
  }

  /** The result of `preprocess_image`: the tensor, or the `ValueError` of the
      resize, which `predict` reports as an HTTP 500. */
  datatype Preprocessed = ResizeError | Tensor(values: seq<seq<seq<seq<real>>>>)

  /** `preprocess_image`: unless the resize raises, the result has shape
      (1, 256, 256, 3) whatever the source image's width and height, every value
      lies in [0, 1], and each pixel is the normalised letterbox pixel. */
  method PreprocessImage(w: int, h: int, sample: (int, int) -> Pixel) returns (r: Preprocessed)
    requires w > 0 && h > 0
    ensures r.ResizeError? <==> ModelSide * h < w || ModelSide * w < h
    ensures r.Tensor? ==> |r.values| == 1 && |r.values[0]| == ModelSide
    ensures r.Tensor? ==> forall y :: 0 <= y < ModelSide ==> |r.values[0][y]| == ModelSide
    ensures r.Tensor? ==> forall y, x :: 0 <= y < ModelSide && 0 <= x < ModelSide ==>
      |r.values[0][y][x]| == 3 && forall k :: 0 <= k < 3 ==> 0.0 <= r.values[0][y][x][k] <= 1.0
    ensures r.Tensor? ==> forall y, x :: 0 <= y < ModelSide && 0 <= x < ModelSide ==>
      r.values[0][y][x] == Channels(LetterboxAt(w, h, sample, ModelSide, ModelSide, y, x))
  {
    ModelResizeFailsExactly(w, h);
    var img := ResizeAndPad(w, h, sample, ModelSide, ModelSide);
    if img == null {
      return ResizeError;
    }
    r := Tensor(ToTensor(img));
  }
}
