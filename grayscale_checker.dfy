/**
 * GrayscaleChecker.cs: an image is reported grayscale when few of its pixels
 * have two colour channels far apart. Only pixels with an even column and an
 * even row are inspected.
 */
module GrayscaleChecker {

  /** A byte channel value. */
  type Byte = x: int | 0 <= x < 256

  /** An Rgba32 pixel. */
  datatype Rgba32 = Rgba32(r: Byte, g: Byte, b: Byte, a: Byte)

  /** DifferentColorNumber: `|left - right| >> 5 > 0`. */
  function DifferentColorNumber(rgbValueLeft: Byte, rgbValueRight: Byte): (r: bool)
    ensures r <==> rgbValueLeft - rgbValueRight >= 32 || rgbValueRight - rgbValueLeft >= 32
  {
    var diff := rgbValueLeft - rgbValueRight;
    (if diff < 0 then -diff else diff) / 32 > 0
  }

  /** The test applied to a sampled pixel; the alpha channel takes no part. */
  predicate Colourful(p: Rgba32)
  {
    DifferentColorNumber(p.r, p.g) || DifferentColorNumber(p.g, p.b) || DifferentColorNumber(p.r, p.b)
  }

  /** The pixel at column `x`, row `y` is one the checker inspects. */
  predicate Sampled(x: int, y: int)
  {
    x % 2 == 0 && y % 2 == 0
  }

  /**
   * The number of colourful inspected pixels of row `y` among the columns
   * `0..x-1` of the image. The image is indexed `image[x, y]`: `Length0` is
   * the width and `Length1` the height.
   */
  function RowCount(image: array2<Rgba32>, y: int, x: nat): (c: nat)
    reads image
    requires 0 <= y < image.Length1
    ensures c <= (x + 1) / 2
    decreases x
  {
    if x == 0 then 0
    else
      RowCount(image, y, x - 1)
      + (if x - 1 < image.Length0 && Sampled(x - 1, y) && Colourful(image[x - 1, y]) then 1 else 0)
  }

  /** The number of colourful inspected pixels among the rows `0..y-1` of the image. */
  function Count(image: array2<Rgba32>, y: nat): (c: nat)
    reads image
    decreases y
  {
    if y == 0 then 0
    else Count(image, y - 1) + (if y - 1 < image.Length1 && (y - 1) % 2 == 0 then RowCount(image, y - 1, image.Length0) else 0)
  }

  /**
   * What IsImageGrayscale answers: fewer colourful inspected pixels than
   * `totalPixelCount >> 10` (an arithmetic shift, which is floor division by
   * 1024, as Dafny's `/` is for a positive divisor).
   */
  predicate IsGrayscale(image: array2<Rgba32>, totalPixelCount: int)
    reads image
  {
    Count(image, image.Length1) < totalPixelCount / 1024
  }

  lemma RowStep(image: array2<Rgba32>, y: int, x: int)
    requires 0 <= y < image.Length1 && y % 2 == 0 && 0 <= x < image.Length0 && x % 2 == 0
    ensures RowCount(image, y, x + 2) == RowCount(image, y, x) + (if Colourful(image[x, y]) then 1 else 0)
  {
    assert RowCount(image, y, x + 2) == RowCount(image, y, x + 1);
  }

  lemma RowEnd(image: array2<Rgba32>, y: int, x: int)
    requires 0 <= y < image.Length1 && image.Length0 <= x <= image.Length0 + 1
    ensures RowCount(image, y, x) == RowCount(image, y, image.Length0)
  {
  }

  lemma CountStep(image: array2<Rgba32>, y: int)
    requires 0 <= y < image.Length1 && y % 2 == 0
    ensures Count(image, y + 2) == Count(image, y) + RowCount(image, y, image.Length0)
  {
    assert Count(image, y + 2) == Count(image, y + 1);
  }

  lemma CountEnd(image: array2<Rgba32>, y: int)
    requires image.Length1 <= y <= image.Length1 + 1
    ensures Count(image, y) == Count(image, image.Length1)
  {
  }

  /** IsImageGrayscale: counts the colourful pixels at even columns of even rows. */
  method IsImageGrayscale(image: array2<Rgba32>, totalPixelCount: int) returns (grayscale: bool)
    ensures grayscale == IsGrayscale(image, totalPixelCount)
  {
    var differentPixelCount := 0;
    var y := 0;
    while y < image.Length1
      invariant 0 <= y <= image.Length1 + 1 && y % 2 == 0
      invariant differentPixelCount == Count(image, y)
      decreases image.Length1 - y
    {
      var x := 0;
      while x < image.Length0
        invariant 0 <= x <= image.Length0 + 1 && x % 2 == 0
        invariant differentPixelCount == Count(image, y) + RowCount(image, y, x)
        decreases image.Length0 - x
      {
        var pixel := image[x, y];
        RowStep(image, y, x);
        if DifferentColorNumber(pixel.r, pixel.g)
           || DifferentColorNumber(pixel.g, pixel.b)
           || DifferentColorNumber(pixel.r, pixel.b)
        {
          differentPixelCount := differentPixelCount + 1;
        }
        x := x + 2;
      }
      RowEnd(image, y, x);
      CountStep(image, y);
      y := y + 2;
    }
    CountEnd(image, y);
    grayscale := differentPixelCount < totalPixelCount / 1024;
  }

  /** At most one pixel in every two-by-two block is counted. */
  lemma {:induction false} CountBound(image: array2<Rgba32>, y: nat)
    ensures Count(image, y) <= ((y + 1) / 2) * ((image.Length0 + 1) / 2)
    decreases y
  {
    if y > 0 {
      CountBound(image, y - 1);
      var w := (image.Length0 + 1) / 2;
      if (y - 1) % 2 == 0 {
        assert (y + 1) / 2 == y / 2 + 1;
        assert (y / 2 + 1) * w == (y / 2) * w + w;
      } else {
        assert (y + 1) / 2 == y / 2;
      }
    }
  }

  /** The count for the whole image never exceeds ceil(H/2) * ceil(W/2). */
  lemma CountWithinSamples(image: array2<Rgba32>)
    ensures Count(image, image.Length1) <= ((image.Length1 + 1) / 2) * ((image.Length0 + 1) / 2)
  {
    CountBound(image, image.Length1);
  }

  /** An image of fewer than 1024 pixels is never reported grayscale. */
  lemma SmallImageNotGrayscale(image: array2<Rgba32>, totalPixelCount: int)
    requires totalPixelCount < 1024
    ensures !IsGrayscale(image, totalPixelCount)
  {
  }

  /** Two images of one size whose inspected pixels agree on R, G and B get the same count. */
  lemma {:induction false} OnlySamplesMatter(image: array2<Rgba32>, other: array2<Rgba32>, y: nat)
    requires image.Length0 == other.Length0 && image.Length1 == other.Length1
    requires forall i, j :: 0 <= i < image.Length0 && 0 <= j < image.Length1 && Sampled(i, j) ==>
               image[i, j].r == other[i, j].r && image[i, j].g == other[i, j].g && image[i, j].b == other[i, j].b
    ensures Count(image, y) == Count(other, y)
    decreases y
  {
    if y > 0 {
      OnlySamplesMatter(image, other, y - 1);
      if y - 1 < image.Length1 && (y - 1) % 2 == 0 {
        RowsAgree(image, other, y - 1, image.Length0);
      }
    }
  }

  lemma {:induction false} RowsAgree(image: array2<Rgba32>, other: array2<Rgba32>, y: int, x: int)
    requires image.Length0 == other.Length0 && image.Length1 == other.Length1
    requires 0 <= y < image.Length1 && 0 <= x
    requires forall i, j :: 0 <= i < image.Length0 && 0 <= j < image.Length1 && Sampled(i, j) ==>
               image[i, j].r == other[i, j].r && image[i, j].g == other[i, j].g && image[i, j].b == other[i, j].b
    ensures RowCount(image, y, x) == RowCount(other, y, x)
    decreases x
  {
    if x > 0 {
      RowsAgree(image, other, y, x - 1);
      if x - 1 < image.Length0 && Sampled(x - 1, y) {
        assert Colourful(image[x - 1, y]) == Colourful(other[x - 1, y]);
      }
    }
  }

  /** With R = G = B at every pixel nothing is counted. */
  lemma {:induction false} GrayRowsCountNothing(image: array2<Rgba32>, y: nat)
    requires forall i, j :: 0 <= i < image.Length0 && 0 <= j < image.Length1 ==>
               image[i, j].r == image[i, j].g == image[i, j].b
    ensures Count(image, y) == 0
    decreases y
  {
    if y > 0 {
      GrayRowsCountNothing(image, y - 1);
      if y - 1 < image.Length1 && (y - 1) % 2 == 0 {
        GrayRowCountsNothing(image, y - 1, image.Length0);
      }
    }
  }

  lemma {:induction false} GrayRowCountsNothing(image: array2<Rgba32>, y: int, x: int)
    requires forall i, j :: 0 <= i < image.Length0 && 0 <= j < image.Length1 ==>
               image[i, j].r == image[i, j].g == image[i, j].b
    requires 0 <= y < image.Length1 && 0 <= x
    ensures RowCount(image, y, x) == 0
    decreases x
  {
    if x > 0 {
      GrayRowCountsNothing(image, y, x - 1);
      if x - 1 < image.Length0 {
        assert !Colourful(image[x - 1, y]);
      }
    }
  }

  /** An image with R = G = B everywhere and at least 1024 pixels is reported grayscale. */
  lemma UniformGrayIsGrayscale(image: array2<Rgba32>, totalPixelCount: int)
    requires forall i, j :: 0 <= i < image.Length0 && 0 <= j < image.Length1 ==>
               image[i, j].r == image[i, j].g == image[i, j].b
    requires totalPixelCount >= 1024
    ensures IsGrayscale(image, totalPixelCount)
  {
    GrayRowsCountNothing(image, image.Length1);
  }
}
