/**
 * The thumbnail dimension rule of the art editor: before a picked picture is
 * stored, it is rescaled so that its longer side is exactly a bound (300 in
 * the editor) and the aspect ratio is kept, the shorter side being truncated.
 *
 * The source computes the ratio in double precision; here it is an exact
 * rational (`real`), and Kotlin's `toInt()` on a non-negative value is `Floor`.
 */
module Thumbnail {

  newtype byte = x: int | 0 <= x < 256

  /** A decoded raster image: its size and an opaque pixel payload. */
  datatype Bitmap = Bitmap(width: nat, height: nat, pixels: seq<byte>)

  datatype Dimensions = Dimensions(width: nat, height: nat)

  /** The bound the editor passes when it shrinks a picked picture. */
  const ThumbnailBound: nat := 300

  /** The source's `bitmapRatio`, width over height, computed exactly. */
  function AspectRatio(width: nat, height: nat): real
    requires height > 0
  {
    width as real / height as real
  }

  /** The landscape test `bitmapRatio > 1` is the test "wider than tall". */
  lemma RatioAboveOneIffWider(width: nat, height: nat)
    requires height > 0
    ensures AspectRatio(width, height) > 1.0 <==> width > height
  {
    var ratio := AspectRatio(width, height);
    assert ratio * height as real == width as real;
    if width > height {
      assert ratio * height as real > 1.0 * height as real;
    } else {
      assert ratio * height as real <= 1.0 * height as real;
    }
  }

  /** Truncating an exact quotient of naturals is integer division. */
  lemma FloorOfQuotient(n: nat, d: nat)
    requires d > 0
    ensures (n as real / d as real).Floor == n / d
  {
    EuclidAsReal(n, d);
    FloorOfSplit(n as real, d as real, n / d, (n % d) as real);
  }

  lemma EuclidAsReal(n: nat, d: nat)
    requires d > 0
    ensures n as real == (n / d) as real * d as real + (n % d) as real
  {
    assert n == (n / d) * d + n % d;
    CastMul(n / d, d);
  }

  lemma FloorOfSplit(x: real, d: real, q: int, r: real)
    requires d > 0.0 && 0.0 <= r < d && x == q as real * d + r
    ensures (x / d).Floor == q
  {
    DivSplit(q as real, r, d);
    FracBelowOne(r, d);
    FloorBetween(x / d, q);
  }

  lemma FloorBetween(x: real, q: int)
    requires q as real <= x < q as real + 1.0
    ensures x.Floor == q
  {}

  lemma CastMul(a: int, b: int)
    ensures (a * b) as real == a as real * b as real
  {}

  lemma FracBelowOne(r: real, d: real)
    requires 0.0 <= r < d
    ensures 0.0 <= r / d < 1.0
  {}

  lemma DivSplit(q: real, r: real, d: real)
    requires d > 0.0
    ensures (q * d + r) / d == q + r / d
  {}

  lemma MulMono(a: int, b: int, c: int)
    requires a <= b && c >= 0
    ensures a * c <= b * c
  {}

  lemma ZeroMultiple(k: int, d: int)
    requires d > 0 && -d < k * d < d
    ensures k == 0
  {
    if k >= 1 {
      MulMono(1, k, d);
    } else if k <= -1 {
      MulMono(k, -1, d);
    }
  }

  /** Integer division is determined by any quotient/remainder pair. */
  lemma DivUnique(n: int, d: int, q: int, r: int)
    requires d > 0 && 0 <= r < d && n == q * d + r
    ensures n / d == q
  {
    var q', r' := n / d, n % d;
    assert q' * d + r' == n;
    assert (q' - q) * d == q' * d - q * d;
    ZeroMultiple(q' - q, d);
  }

  /** `maxSize / ratio` is `maxSize * height / width` as a rational. */
  lemma DivideByRatio(maxSize: nat, width: nat, height: nat)
    requires width > 0 && height > 0
    ensures maxSize as real / AspectRatio(width, height) == (maxSize * height) as real / width as real
  {
    var ratio := AspectRatio(width, height);
    assert ratio * height as real == width as real;
    var lhs := maxSize as real / ratio;
    assert lhs * ratio == maxSize as real;
    assert lhs * width as real == lhs * ratio * height as real;
    assert lhs * width as real == (maxSize * height) as real;
  }

  /** `maxSize * ratio` is `maxSize * width / height` as a rational. */
  lemma MultiplyByRatio(maxSize: nat, width: nat, height: nat)
    requires height > 0
    ensures maxSize as real * AspectRatio(width, height) == (maxSize * width) as real / height as real
  {
    var ratio := AspectRatio(width, height);
    assert ratio * height as real == width as real;
    var lhs := maxSize as real * ratio;
    assert lhs * height as real == (maxSize * width) as real;
  }

  /**
   * The size `makeSmallerBitmap` asks for: the landscape branch pins the width
   * to `maxSize` and truncates `maxSize / ratio`; the other branch (portrait
   * or square) pins the height and truncates `maxSize * ratio`.
   */
  function ScaledSize(width: nat, height: nat, maxSize: nat): (r: Dimensions)
    requires width > 0 && height > 0
    ensures width > height ==> r.width == maxSize && r.height == (maxSize * height) / width
    ensures width <= height ==> r.height == maxSize && r.width == (maxSize * width) / height
  {
    RatioAboveOneIffWider(width, height);
    var ratio := AspectRatio(width, height);
    if ratio > 1.0 then
      DivideByRatio(maxSize, width, height);
      FloorOfQuotient(maxSize * height, width);
      Dimensions(maxSize, (maxSize as real / ratio).Floor)
    else
      MultiplyByRatio(maxSize, width, height);
      FloorOfQuotient(maxSize * width, height);
      Dimensions((maxSize as real * ratio).Floor, maxSize)
  }

  /**
   * `makeSmallerBitmap`: the picture rescaled to `ScaledSize`. The pixel
   * interpolation of `Bitmap.createScaledBitmap` is a foreign call and is the
   * parameter `resample`.
   */
  function MakeSmallerBitmap(image: Bitmap, maxSize: nat, resample: (Bitmap, Dimensions) -> seq<byte>): (r: Bitmap)
    requires image.width > 0 && image.height > 0
    ensures Dimensions(r.width, r.height) == ScaledSize(image.width, image.height, maxSize)
  {
    var size := ScaledSize(image.width, image.height, maxSize);
    Bitmap(size.width, size.height, resample(image, size))
  }

  /** In the landscape branch the new height stays strictly below the bound. */
  lemma LandscapeHeightBelowBound(width: nat, height: nat, maxSize: nat)
    requires width > height > 0 && maxSize > 0
    ensures ScaledSize(width, height, maxSize).height < maxSize
  {
    assert maxSize * height < maxSize * width;
    DivBelow(maxSize * height, width, maxSize);
  }

  /** In the portrait-or-square branch the new width never exceeds the bound. */
  lemma PortraitWidthWithinBound(width: nat, height: nat, maxSize: nat)
    requires 0 < width <= height
    ensures ScaledSize(width, height, maxSize).width <= maxSize
  {
    assert maxSize * width <= maxSize * height;
    DivAtMost(maxSize * width, height, maxSize);
  }

  lemma DivBelow(n: nat, d: nat, k: nat)
    requires d > 0 && n < k * d
    ensures n / d < k
  {
    assert (n / d) * d <= n;
  }

  lemma DivAtMost(n: nat, d: nat, k: nat)
    requires d > 0 && n <= k * d
    ensures n / d <= k
  {
    assert (n / d) * d <= n;
  }

  /** A square picture becomes exactly `maxSize` by `maxSize`. */
  lemma SquareBecomesBoundSquare(side: nat, maxSize: nat)
    requires side > 0
    ensures ScaledSize(side, side, maxSize) == Dimensions(maxSize, maxSize)
  {
    DivUnique(maxSize * side, side, maxSize, 0);
  }

  /**
   * The longer side always becomes exactly the bound, whatever the original
   * size: small pictures are upscaled, large ones downscaled.
   */
  lemma LongSideIsBound(width: nat, height: nat, maxSize: nat)
    requires width > 0 && height > 0
    ensures var r := ScaledSize(width, height, maxSize);
      (if r.width >= r.height then r.width else r.height) == maxSize
  {
    if width > height {
      if maxSize > 0 {
        LandscapeHeightBelowBound(width, height, maxSize);
      }
    } else {
      PortraitWidthWithinBound(width, height, maxSize);
    }
  }

  /**
   * The aspect ratio is kept up to truncation: the short side is the largest
   * whole number of pixels not exceeding the exact proportional length.
   */
  lemma AspectKeptUpToTruncation(width: nat, height: nat, maxSize: nat)
    requires width > 0 && height > 0
    ensures var r := ScaledSize(width, height, maxSize);
      if width > height then
        r.height * width <= maxSize * height < (r.height + 1) * width
      else
        r.width * height <= maxSize * width < (r.width + 1) * height
  {
    if width > height {
      FloorDivBounds(maxSize * height, width);
    } else {
      FloorDivBounds(maxSize * width, height);
    }
  }

  lemma FloorDivBounds(n: nat, d: nat)
    requires d > 0
    ensures (n / d) * d <= n < (n / d + 1) * d
  {
    assert n == (n / d) * d + n % d;
  }

  /**
   * The short side is zero exactly when the long side exceeds `maxSize` times
   * the short side; `Bitmap.createScaledBitmap` rejects such a size.
   */
  lemma ZeroSideIff(width: nat, height: nat, maxSize: nat)
    requires width > 0 && height > 0 && maxSize > 0
    ensures var r := ScaledSize(width, height, maxSize);
      (r.width == 0 || r.height == 0) <==>
      (if width > height then maxSize * height < width else maxSize * width < height)
  {
    if width > height {
      ZeroQuotientIff(maxSize * height, width);
    } else {
      ZeroQuotientIff(maxSize * width, height);
    }
  }

  lemma ZeroQuotientIff(n: nat, d: nat)
    requires d > 0
    ensures n / d == 0 <==> n < d
  {
    if n < d {
      DivUnique(n, d, 0, n);
    } else {
      assert n - d >= 0;
      DivUnique(n, d, (n - d) / d + 1, (n - d) % d);
    }
  }

  /** A 500 by 400 picture becomes 300 by 240 (landscape branch, ratio 1.25). */
  lemma LandscapeExample()
    ensures ScaledSize(500, 400, ThumbnailBound) == Dimensions(300, 240)
  {
    assert (300 * 400) / 500 == 240;
  }

  /** A 100 by 50 picture, smaller than the bound, is upscaled to 300 by 150. */
  lemma UpscaleExample()
    ensures ScaledSize(100, 50, ThumbnailBound) == Dimensions(300, 150)
  {
    assert (300 * 50) / 100 == 150;
  }

  /** 700 by 300: the exact height 128.57... is truncated to 128, not rounded to 129. */
  lemma TruncatesExample()
    ensures ScaledSize(700, 300, ThumbnailBound) == Dimensions(300, 128)
  {
    assert (300 * 300) / 700 == 128;
  }
}
