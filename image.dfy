/**
 * `ImageProcessor`: shrinks an uploaded picture so that its dominant side fits a
 * box, keeping the aspect ratio, and re-encodes it in the file's own type.
 *
 * Canvas, `Image` and `FileReader` are not modelled: what they report (a 2D context
 * or none, a read or a read error, a decoded size or a load error, a blob or `null`)
 * is a parameter.
 */
module ImageProcessing {
  import opened Wrappers
  import opened Types

  const NoContext := "Не удалось получить контекст 2D"
  const ReadFailed := "Ошибка при чтении файла"
  const LoadFailed := "Ошибка при загрузке изображения"
  const BlobFailed := "Не удалось создать Blob из изображения"

  /** `q` is `Math.round(n / d)`: the nearest integer to `n / d`, a half rounded up. */
  predicate IsRounded(q: int, n: int, d: int)
    requires d > 0
  {
    2 * d * q <= 2 * n + d < 2 * d * (q + 1)
  }

  function RoundDiv(n: int, d: int): (q: int)
    requires d > 0
    ensures IsRounded(q, n, d)
  {
    var m := 2 * d;
    var q := (2 * n + d) / m;
    assert m * q + (2 * n + d) % m == 2 * n + d;
    q
  }

  /** Scaling `a` by `b / d` with `0 <= b < d` gives a result between 0 and `a`. */
  lemma RoundDivShrinks(a: nat, b: int, d: int)
    requires 0 <= b < d
    ensures 0 <= RoundDiv(a * b, d) <= a
  {
    var q := RoundDiv(a * b, d);
    var n := a * b;
    assert 0 <= n <= a * d - a by {
      var k := d - 1 - b;
      assert a * d - a - n == a * k;
      assert 0 <= a * k && 0 <= a * b;
    }
    if q > a {
      AboveBound(a, d, q);
    }
    if q < 0 {
      BelowZero(d, q);
    }
  }

  lemma AboveBound(a: int, d: int, q: int)
    requires d > 0 && q > a
    ensures 2 * d * q >= 2 * (a * d) + 2 * d
  {
    var m, k := 2 * d, q - a - 1;
    assert 0 <= m * k;
    assert m * k == 2 * d * q - 2 * (a * d) - 2 * d;
  }

  lemma BelowZero(d: int, q: int)
    requires d > 0 && q < 0
    ensures 2 * d * q <= -2 * d
  {
    var m, k := 2 * d, -(q + 1);
    assert 0 <= m * k;
    assert m * k == -(2 * d * q) - 2 * d;
  }

  /**
   * The size the picture is drawn at: a landscape picture wider than the box is
   * scaled to the box's width; any other picture (squares included) taller than the
   * box is scaled to the box's height; everything else keeps its size. The other side
   * is scaled by the same factor and rounded to the nearest integer.
   */
  function Fit(width: nat, height: nat, maxWidth: nat, maxHeight: nat): (r: (int, int))
    ensures 0 <= r.0 <= width && 0 <= r.1 <= height
    ensures width > height && width > maxWidth ==>
              r.0 == maxWidth && IsRounded(r.1, height * maxWidth, width)
    ensures width <= height && height > maxHeight ==>
              r.1 == maxHeight && IsRounded(r.0, width * maxHeight, height)
    ensures !(width > height && width > maxWidth) && !(width <= height && height > maxHeight) ==>
              r == (width, height)
  {
    if width > height then
      if width > maxWidth then
        RoundDivShrinks(height, maxWidth, width);
        (maxWidth, RoundDiv(height * maxWidth, width))
      else (width, height)
    else
      if height > maxHeight then
        RoundDivShrinks(width, maxHeight, height);
        (RoundDiv(width * maxHeight, height), maxHeight)
      else (width, height)
  }

  /** The browser's answers while resizing. */
  datatype Browser = Browser(
    hasContext: bool,            // `canvas.getContext('2d')` is not null
    readOk: bool,                // `FileReader` loaded the file
    decoded: Option<(nat, nat)>, // the picture's width and height, or a load error
    encoded: Option<nat>)        // the byte length of the blob `toBlob` produced, or `null`

  /** A re-encoded picture: its MIME type, the size it was drawn at, its length in bytes. */
  datatype Blob = Blob(mime: string, width: int, height: int, size: nat)

  /**
   * What `resizeImage` settles with: the first failure among missing context, read
   * error, load error and missing blob rejects with its message; otherwise it resolves
   * with a blob of the file's type drawn at the fitted size.
   */
  function Resize(file: File, browser: Browser, maxWidth: nat, maxHeight: nat): (r: Result<Blob>)
    ensures r.Success? <==> browser.hasContext && browser.readOk && browser.decoded.Some? && browser.encoded.Some?
    ensures r.Success? ==>
              && r.value.mime == file.mime
              && r.value.size == browser.encoded.value
              && (r.value.width, r.value.height) == Fit(browser.decoded.value.0, browser.decoded.value.1, maxWidth, maxHeight)
    ensures !browser.hasContext ==> r == Failure(NoContext)
    ensures browser.hasContext && !browser.readOk ==> r == Failure(ReadFailed)
    ensures browser.hasContext && browser.readOk && browser.decoded.None? ==> r == Failure(LoadFailed)
    ensures browser.hasContext && browser.readOk && browser.decoded.Some? && browser.encoded.None? ==>
              r == Failure(BlobFailed)
  {
    if !browser.hasContext then Failure(NoContext)
    else if !browser.readOk then Failure(ReadFailed)
    else if browser.decoded.None? then Failure(LoadFailed)
    else if browser.encoded.None? then Failure(BlobFailed)
    else
      var size := Fit(browser.decoded.value.0, browser.decoded.value.1, maxWidth, maxHeight);
      Success(Blob(file.mime, size.0, size.1, browser.encoded.value))
  }

  class ImageProcessor {
    var maxWidth: nat
    var maxHeight: nat

    constructor(maxWidth: nat, maxHeight: nat)
      ensures this.maxWidth == maxWidth && this.maxHeight == maxHeight
    {
      this.maxWidth := maxWidth;
      this.maxHeight := maxHeight;
    }

    /** The dimension rule of `img.onload`, reassigning `width` and `height` in turn. */
    method NewDimensions(imageWidth: nat, imageHeight: nat) returns (width: int, height: int)
      ensures (width, height) == Fit(imageWidth, imageHeight, maxWidth, maxHeight)
    {
      width, height := imageWidth, imageHeight;
      if width > height {
        if width > maxWidth {
          height := RoundDiv(height * maxWidth, width);
          width := maxWidth;
        }
      } else {
        if height > maxHeight {
          width := RoundDiv(width * maxHeight, height);
          height := maxHeight;
        }
      }
    }

    /** `resizeImage(file)`: each failure rejects and returns at once. */
    method ResizeImage(file: File, browser: Browser) returns (r: Result<Blob>)
      ensures r == Resize(file, browser, maxWidth, maxHeight)
    {
      if !browser.hasContext {
        return Failure(NoContext);
      }
      if !browser.readOk {
        return Failure(ReadFailed);
      }
      if browser.decoded.None? {
        return Failure(LoadFailed);
      }
      var width, height := NewDimensions(browser.decoded.value.0, browser.decoded.value.1);
      if browser.encoded.None? {
        return Failure(BlobFailed);
      }
      return Success(Blob(file.mime, width, height, browser.encoded.value));
    }
  }

  /** The form's 320×240 box: a wide and a tall picture, and a landscape one that already fits. */
  lemma FitExamples()
    ensures Fit(1000, 500, 320, 240) == (320, 160)
    ensures Fit(500, 1000, 320, 240) == (120, 240)
    ensures Fit(300, 250, 320, 240) == (300, 250)
    ensures Fit(500, 500, 320, 240) == (240, 240)
  {
  }

  /**
   * Only the dominant side is bounded: a landscape picture can end up taller than the
   * box, and a square one is bounded by the height.
   */
  lemma OnlyDominantSideBounded()
    ensures Fit(1000, 900, 320, 240) == (320, 288)
  {
  }
}
