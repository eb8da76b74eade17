/**
 * Crop geometry and padded output of the auto-crop: the part of
 * `_crop_and_visualize` that computes the crop window and builds the canvas.
 */
module Cropper {
  import opened Outcomes
  import opened Borders

  /** One colour sample of the 3-channel image, in the BGR order OpenCV loads. */
  datatype Pixel = Pixel(b: int, g: int, r: int)

  /** The fill colour of a fresh canvas: 255 in every channel. */
  const White: Pixel := Pixel(255, 255, 255)

  /** The crop window `(x_left, x_right, y_top, y_bottom)`; copied as `[y_top, y_bottom) × [x_left, x_right)`. */
  datatype Window = Window(xLeft: int, xRight: int, yTop: int, yBottom: int)

  /** Number of image rows the slice `y_top:y_bottom` selects. */
  function Rows(w: Window): int { w.yBottom - w.yTop }

  /** Number of image columns the slice `x_left:x_right` selects. */
  function Cols(w: Window): int { w.xRight - w.xLeft }

  /** What detection guarantees about its borders for a `height × width` image. */
  predicate BordersInImage(b: BorderSet, height: int, width: int)
  {
    0 <= b.left.x <= b.right.x < width && 0 <= b.top.y <= b.bottom.y < height
  }

  predicate WindowInImage(w: Window, height: int, width: int)
  {
    0 <= w.xLeft <= w.xRight <= width && 0 <= w.yTop <= w.yBottom <= height
  }

  /**
   * The crop window: each border pushed outwards by `margin` and clamped to the
   * image, whose last column is `width - 1` and last row `height - 1`.
   */
  function CropWindow(b: BorderSet, margin: nat, height: int, width: int): (w: Window)
    requires BordersInImage(b, height, width)
    ensures 0 <= w.xLeft <= b.left.x && b.right.x <= w.xRight <= width - 1
    ensures 0 <= w.yTop <= b.top.y && b.bottom.y <= w.yBottom <= height - 1
    ensures w.xLeft >= b.left.x - margin && (w.xLeft > b.left.x - margin ==> w.xLeft == 0)
    ensures w.xRight <= b.right.x + margin && (w.xRight < b.right.x + margin ==> w.xRight == width - 1)
    ensures w.yTop >= b.top.y - margin && (w.yTop > b.top.y - margin ==> w.yTop == 0)
    ensures w.yBottom <= b.bottom.y + margin && (w.yBottom < b.bottom.y + margin ==> w.yBottom == height - 1)
    ensures WindowInImage(w, height, width)
  {
    var xLeft := if b.left.x - margin > 0 then b.left.x - margin else 0;
    var xRight := if width - 1 < b.right.x + margin then width - 1 else b.right.x + margin;
    var yTop := if b.top.y - margin > 0 then b.top.y - margin else 0;
    var yBottom := if height - 1 < b.bottom.y + margin then height - 1 else b.bottom.y + margin;
    Window(xLeft, xRight, yTop, yBottom)
  }

  /**
   * Whether numpy accepts `padded[m:-m, m:-m] = window`. For `m > 0` the target
   * has exactly the window's shape. For `m == 0` the target is the empty slice
   * `0:0` in both axes, and numpy broadcasts a source axis onto it only when
   * that axis has length 0 or 1; otherwise it raises ValueError.
   */
  predicate CopyFits(w: Window, margin: nat)
  {
    margin > 0 || (Rows(w) <= 1 && Cols(w) <= 1)
  }

  /** Whether canvas cell `(i, j)` receives a pixel of the window. */
  predicate InInterior(w: Window, margin: nat, i: int, j: int)
  {
    margin > 0 && margin <= i < margin + Rows(w) && margin <= j < margin + Cols(w)
  }

  /**
   * `out` is the padded crop of `image`: `Rows + 2*margin` by `Cols + 2*margin`,
   * the window copied in at offset `(margin, margin)`, and white everywhere else.
   */
  ghost predicate IsPaddedCrop(out: array2<Pixel>, image: array2<Pixel>, w: Window, margin: nat)
    requires WindowInImage(w, image.Length0, image.Length1)
    reads out, image
  {
    && out.Length0 == Rows(w) + 2 * margin
    && out.Length1 == Cols(w) + 2 * margin
    && forall i, j :: 0 <= i < out.Length0 && 0 <= j < out.Length1 ==>
         out[i, j] == if InInterior(w, margin, i, j)
                      then image[w.yTop + i - margin, w.xLeft + j - margin]
                      else White
  }

  /**
   * Builds the padded output: allocates a white canvas two margins larger than
   * the window in each direction and copies the window into its interior. The
   * source image is only read.
   */
  method PadAndCopy(image: array2<Pixel>, w: Window, margin: nat) returns (r: Outcome<array2<Pixel>>)
    requires WindowInImage(w, image.Length0, image.Length1)
    ensures r.Raised? <==> !CopyFits(w, margin)
    ensures r.Raised? ==> r.error == ValueError
    ensures r.Ok? ==> fresh(r.value) && IsPaddedCrop(r.value, image, w, margin)
  {
    var padded := new Pixel[Rows(w) + 2 * margin, Cols(w) + 2 * margin]((i, j) => White);
    if margin == 0 {
      // the target slice is 0 x 0: nothing is written, and the assignment
      // succeeds only when every axis of the window broadcasts onto 0
      if Rows(w) > 1 || Cols(w) > 1 {
        return Raised(ValueError);
      }
      return Ok(padded);
    }
    var i := 0;
    while i < Rows(w)
      invariant 0 <= i <= Rows(w)
      invariant forall a, c :: 0 <= a < padded.Length0 && 0 <= c < padded.Length1 ==>
        padded[a, c] == if InInterior(w, margin, a, c) && a < margin + i
                        then image[w.yTop + a - margin, w.xLeft + c - margin]
                        else White
    {
      var j := 0;
      while j < Cols(w)
        invariant 0 <= j <= Cols(w)
        invariant forall a, c :: 0 <= a < padded.Length0 && 0 <= c < padded.Length1 ==>
          padded[a, c] == if InInterior(w, margin, a, c) && (a < margin + i || (a == margin + i && c < margin + j))
                          then image[w.yTop + a - margin, w.xLeft + c - margin]
                          else White
      {
        padded[margin + i, margin + j] := image[w.yTop + i, w.xLeft + j];
        j := j + 1;
      }
      i := i + 1;
    }
    return Ok(padded);
  }

  /**
   * `_crop_and_visualize` without the preview: the window from the borders,
   * the padded copy, and the write, which raises on an empty canvas (cv2.imwrite
   * asserts that its image is not empty). Whether the file is written is not
   * modelled.
   */
  method CropAndWrite(image: array2<Pixel>, b: BorderSet, margin: nat) returns (r: Outcome<array2<Pixel>>)
    requires BordersInImage(b, image.Length0, image.Length1)
    ensures var w := CropWindow(b, margin, image.Length0, image.Length1);
      r.Ok? <==> CopyFits(w, margin) && Rows(w) + 2 * margin > 0 && Cols(w) + 2 * margin > 0
    ensures r.Raised? ==> r.error == ValueError || r.error == OtherException
    ensures var w := CropWindow(b, margin, image.Length0, image.Length1);
      !CopyFits(w, margin) ==> r == Raised(ValueError)
    ensures var w := CropWindow(b, margin, image.Length0, image.Length1);
      CopyFits(w, margin) && (Rows(w) + 2 * margin == 0 || Cols(w) + 2 * margin == 0) ==>
        r == Raised(OtherException)
    ensures r.Ok? ==>
      && fresh(r.value)
      && IsPaddedCrop(r.value, image, CropWindow(b, margin, image.Length0, image.Length1), margin)
  {
    var w := CropWindow(b, margin, image.Length0, image.Length1);
    var padded := PadAndCopy(image, w, margin);
    if padded.Raised? {
      return Raised(padded.error);
    }
    if padded.value.Length0 == 0 || padded.value.Length1 == 0 {
      return Raised(OtherException);
    }
    return Ok(padded.value);
  }

  // ---------------------------------------------------------------------------
  // What the padded output contains
  // ---------------------------------------------------------------------------

  /** The ring of width `margin` around the copied window stays white. */
  lemma RingStaysWhite(out: array2<Pixel>, image: array2<Pixel>, w: Window, margin: nat, i: int, j: int)
    requires WindowInImage(w, image.Length0, image.Length1)
    requires IsPaddedCrop(out, image, w, margin)
    requires 0 <= i < out.Length0 && 0 <= j < out.Length1
    requires i < margin || i >= out.Length0 - margin || j < margin || j >= out.Length1 - margin
    ensures out[i, j] == White
  {
  }

  /** With a positive margin, canvas cell `(margin + i, margin + j)` is window pixel `(i, j)`. */
  lemma InteriorIsWindow(out: array2<Pixel>, image: array2<Pixel>, w: Window, margin: nat, i: int, j: int)
    requires WindowInImage(w, image.Length0, image.Length1)
    requires IsPaddedCrop(out, image, w, margin)
    requires margin > 0 && 0 <= i < Rows(w) && 0 <= j < Cols(w)
    ensures out[margin + i, margin + j] == image[w.yTop + i, w.xLeft + j]
  {
    assert InInterior(w, margin, margin + i, margin + j);
  }

  /**
   * With margin 0 the copy never writes: a non-empty canvas that the copy
   * accepts is a single white pixel.
   */
  lemma ZeroMarginCopiesNothing(out: array2<Pixel>, image: array2<Pixel>, w: Window)
    requires WindowInImage(w, image.Length0, image.Length1)
    requires IsPaddedCrop(out, image, w, 0)
    requires CopyFits(w, 0) && out.Length0 > 0 && out.Length1 > 0
    ensures out.Length0 == 1 && out.Length1 == 1 && out[0, 0] == White
  {
  }

  /** With margin 0 the window is exactly the detected extent: nothing is widened or clamped. */
  lemma ZeroMarginWindow(b: BorderSet, height: int, width: int)
    requires BordersInImage(b, height, width)
    ensures CropWindow(b, 0, height, width) == Window(b.left.x, b.right.x, b.top.y, b.bottom.y)
  {
  }

  /**
   * The margin is applied twice: once to widen the window and once to pad the
   * canvas. When the widened window stays inside the image, the canvas is
   * `4 * margin` larger than the detected extent in each direction.
   */
  lemma UnclampedCanvasSize(b: BorderSet, margin: nat, height: int, width: int)
    requires BordersInImage(b, height, width)
    requires margin <= b.left.x && b.right.x + margin <= width - 1
    requires margin <= b.top.y && b.bottom.y + margin <= height - 1
    ensures var w := CropWindow(b, margin, height, width);
      && Rows(w) + 2 * margin == b.bottom.y - b.top.y + 4 * margin
      && Cols(w) + 2 * margin == b.right.x - b.left.x + 4 * margin
  {
  }

  /**
   * A 100 × 100 grayscale image whose foreground is exactly the square of rows
   * and columns 40 to 59, cropped with threshold 255 and margin 5: detection
   * finds left (40, 40), right (59, 40), top (40, 40) and bottom (40, 59), the
   * window is columns and rows 35 to 64, and the canvas is 39 × 39 (29 window
   * rows and columns plus two margins of 5).
   */
  lemma SquareExample(gray: seq<seq<int>>)
    requires |gray| == 100 && forall y :: 0 <= y < 100 ==> |gray[y]| == 100
    requires ForegroundIsRectangle(gray, 255, 40, 59, 40, 59)
    ensures var px := NonWhitePixels(gray, 255);
      && |px| > 0
      && Detected(px) == BorderSet(Point(40, 40), Point(59, 40), Point(40, 40), Point(40, 59))
      && CropWindow(Detected(px), 5, 100, 100) == Window(35, 64, 35, 64)
      && Rows(CropWindow(Detected(px), 5, 100, 100)) + 2 * 5 == 39
      && Cols(CropWindow(Detected(px), 5, 100, 100)) + 2 * 5 == 39
  {
    RectangleBorders(gray, 255, 40, 59, 40, 59);
  }

  /**
   * With a positive margin, a pixel inside the detected borders reaches the
   * canvas exactly when it is not on the image's last row or last column: the
   * window is clamped to `height - 1` and `width - 1` but its end is exclusive.
   * When it is copied, it sits at its offset from the window's corner.
   */
  lemma CopiedUnlessOnLastRowOrColumn(out: array2<Pixel>, image: array2<Pixel>, b: BorderSet, margin: nat, p: Point)
    requires BordersInImage(b, image.Length0, image.Length1)
    requires margin > 0
    requires b.left.x <= p.x <= b.right.x && b.top.y <= p.y <= b.bottom.y
    requires IsPaddedCrop(out, image, CropWindow(b, margin, image.Length0, image.Length1), margin)
    ensures var w := CropWindow(b, margin, image.Length0, image.Length1);
      && (InInterior(w, margin, margin + p.y - w.yTop, margin + p.x - w.xLeft)
          <==> p.y < image.Length0 - 1 && p.x < image.Length1 - 1)
      && (p.y < image.Length0 - 1 && p.x < image.Length1 - 1 ==>
            out[margin + p.y - w.yTop, margin + p.x - w.xLeft] == image[p.y, p.x])
  {
    var w := CropWindow(b, margin, image.Length0, image.Length1);
    if p.y < image.Length0 - 1 && p.x < image.Length1 - 1 {
      InteriorIsWindow(out, image, w, margin, p.y - w.yTop, p.x - w.xLeft);
    }
  }
}
