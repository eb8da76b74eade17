/**
 * The public entry point `crop_image`: validation, border detection, cropping,
 * and the handlers that turn every failure into `None`.
 */
module SmartCropping {
  import opened Outcomes
  import opened Borders
  import opened Cropper
  import opened Validator

  /** `gray` has the shape of a `height × width` image, as the grayscale conversion produces it. */
  predicate GrayOfShape(gray: seq<seq<int>>, height: int, width: int)
  {
    |gray| == height && forall y :: 0 <= y < |gray| ==> |gray[y]| == width
  }

  /** Borders detected on a grayscale image lie inside that image and are ordered. */
  lemma DetectedInImage(gray: seq<seq<int>>, threshold: int, height: int, width: int)
    requires GrayOfShape(gray, height, width)
    requires |NonWhitePixels(gray, threshold)| > 0
    ensures BordersInImage(Detected(NonWhitePixels(gray, threshold)), height, width)
  {
    BordersEncloseForeground(gray, threshold);
  }

  /** The crop window `_crop_and_visualize` computes from the detected borders. */
  ghost function PlannedWindow(gray: seq<seq<int>>, threshold: int, margin: nat, height: int, width: int): Window
    requires GrayOfShape(gray, height, width)
    requires |NonWhitePixels(gray, threshold)| > 0
  {
    DetectedInImage(gray, threshold, height, width);
    CropWindow(Detected(NonWhitePixels(gray, threshold)), margin, height, width)
  }

  /**
   * When detection and cropping return an image for a validated margin: some
   * pixel is foreground, numpy accepts the slice assignment, and the canvas is
   * not empty (cv2.imwrite refuses an empty image).
   */
  ghost predicate CropSucceeds(gray: seq<seq<int>>, threshold: int, margin: nat, height: int, width: int)
    requires GrayOfShape(gray, height, width)
  {
    && |NonWhitePixels(gray, threshold)| > 0
    && (var w := PlannedWindow(gray, threshold, margin, height, width);
        CopyFits(w, margin) && Rows(w) + 2 * margin > 0 && Cols(w) + 2 * margin > 0)
  }

  /** When `crop_image` returns an image: validation passes, the file decodes, and the crop succeeds. */
  ghost predicate Succeeds(inputIsFile: bool, outputPath: Option<string>, outputDirExists: bool,
                           margin: MarginArg, threshold: int, readable: bool,
                           gray: seq<seq<int>>, height: int, width: int)
    requires GrayOfShape(gray, height, width)
  {
    var v := Validate(inputIsFile, outputPath, outputDirExists, margin);
    v.Ok? && readable && CropSucceeds(gray, threshold, v.value, height, width)
  }

  /**
   * The steps of `crop_image` after loading: the mask, the borders, the
   * `all(borders.values())` test and `_crop_and_visualize`.
   */
  method DetectAndCrop(image: array2<Pixel>, gray: seq<seq<int>>, threshold: int, margin: nat)
    returns (r: Outcome<array2<Pixel>>)
    requires GrayOfShape(gray, image.Length0, image.Length1)
    ensures (forall p :: !IsForeground(gray, threshold, p)) ==> r == Raised(ValueError)
    ensures r.Raised? ==> r.error == ValueError || r.error == OtherException
    ensures r.Ok? <==> CropSucceeds(gray, threshold, margin, image.Length0, image.Length1)
    ensures r.Ok? ==>
      && fresh(r.value)
      && IsPaddedCrop(r.value, image, PlannedWindow(gray, threshold, margin, image.Length0, image.Length1), margin)
  {
    var px := NonWhitePixels(gray, threshold);
    var found := CalculateBorders(px);
    if found.Raised? {
      return Raised(found.error);
    }
    assert IsForeground(gray, threshold, px[0]);
    var borders := found.value;
    BordersFromMap(px, borders);
    if !AllTruthy(borders) {
      return Raised(NoBordersDetectedError);
    }
    var b := BorderSet(borders["left"].value, borders["right"].value,
                       borders["top"].value, borders["bottom"].value);
    DetectedInImage(gray, threshold, image.Length0, image.Length1);
    r := CropAndWrite(image, b, margin);
  }

  /**
   * The body of `crop_image`'s `try` block. `readable` says whether cv2.imread
   * decoded the file; `image` is what it decoded and `gray` its grayscale
   * conversion.
   */
  method TryCrop(inputIsFile: bool, outputPath: Option<string>, outputDirExists: bool,
                 margin: MarginArg, threshold: int, readable: bool,
                 image: array2<Pixel>, gray: seq<seq<int>>)
    returns (r: Outcome<array2<Pixel>>)
    requires GrayOfShape(gray, image.Length0, image.Length1)
    ensures Validate(inputIsFile, outputPath, outputDirExists, margin).Raised? ==>
      r == Raised(Validate(inputIsFile, outputPath, outputDirExists, margin).error)
    ensures Validate(inputIsFile, outputPath, outputDirExists, margin).Ok? && !readable ==>
      r == Raised(OtherException)
    ensures (&& Validate(inputIsFile, outputPath, outputDirExists, margin).Ok? && readable
             && forall p :: !IsForeground(gray, threshold, p)) ==> r == Raised(ValueError)
    ensures r.Raised? ==> r.error != NoBordersDetectedError
    ensures r.Ok? <==> Succeeds(inputIsFile, outputPath, outputDirExists, margin, threshold, readable,
                                gray, image.Length0, image.Length1)
    ensures r.Ok? ==>
      var m := Validate(inputIsFile, outputPath, outputDirExists, margin).value;
      && fresh(r.value)
      && IsPaddedCrop(r.value, image, PlannedWindow(gray, threshold, m, image.Length0, image.Length1), m)
  {
    var v := Validate(inputIsFile, outputPath, outputDirExists, margin);
    if v.Raised? {
      return Raised(v.error);
    }
    if !readable {
      // cv2.imread returned None and cv2.cvtColor raises cv2.error
      return Raised(OtherException);
    }
    r := DetectAndCrop(image, gray, threshold, v.value);
  }

  /**
   * `crop_image`: every handler prints its message and returns `None`, so the
   * caller sees either the padded crop or `None`.
   */
  method CropImage(inputIsFile: bool, outputPath: Option<string>, outputDirExists: bool,
                   margin: MarginArg, threshold: int, readable: bool,
                   image: array2<Pixel>, gray: seq<seq<int>>)
    returns (result: Option<array2<Pixel>>)
    requires GrayOfShape(gray, image.Length0, image.Length1)
    ensures result.Some? <==> Succeeds(inputIsFile, outputPath, outputDirExists, margin, threshold, readable,
                                       gray, image.Length0, image.Length1)
    ensures result.Some? ==>
      var m := Validate(inputIsFile, outputPath, outputDirExists, margin).value;
      fresh(result.value) &&
      IsPaddedCrop(result.value, image, PlannedWindow(gray, threshold, m, image.Length0, image.Length1), m)
  {
    var r := TryCrop(inputIsFile, outputPath, outputDirExists, margin, threshold, readable, image, gray);
    result := if r.Ok? then Some(r.value) else None;
  }

  // ---------------------------------------------------------------------------
  // When crop_image returns an image
  // ---------------------------------------------------------------------------

  /** With a positive margin, every decodable image with a foreground pixel is cropped. */
  lemma PositiveMarginAlwaysCrops(inputIsFile: bool, outputPath: Option<string>, outputDirExists: bool,
                                   margin: MarginArg, threshold: int,
                                   gray: seq<seq<int>>, height: int, width: int, p: Point)
    requires GrayOfShape(gray, height, width)
    requires Validate(inputIsFile, outputPath, outputDirExists, margin).Ok?
    requires Validate(inputIsFile, outputPath, outputDirExists, margin).value > 0
    requires IsForeground(gray, threshold, p)
    ensures Succeeds(inputIsFile, outputPath, outputDirExists, margin, threshold, true, gray, height, width)
  {
    var px := NonWhitePixels(gray, threshold);
    assert p in px;
    var m := Validate(inputIsFile, outputPath, outputDirExists, margin).value;
    DetectedInImage(gray, threshold, height, width);
    var w := PlannedWindow(gray, threshold, m, height, width);
    assert Rows(w) >= 0 && Cols(w) >= 0;
  }

  /**
   * With margin 0 the target slice `0:-0` is empty, so `crop_image` returns an
   * image only when the foreground spans exactly two rows and two columns, and
   * that image is a single white pixel. A lone foreground pixel gives `None`.
   */
  lemma ZeroMarginCropsOnlyTwoByTwoExtent(gray: seq<seq<int>>, threshold: int, height: int, width: int)
    requires GrayOfShape(gray, height, width)
    requires |NonWhitePixels(gray, threshold)| > 0
    ensures var b := Detected(NonWhitePixels(gray, threshold));
      (CropSucceeds(gray, threshold, 0, height, width) <==>
        (b.bottom.y - b.top.y == 1 && b.right.x - b.left.x == 1))
  {
    DetectedInImage(gray, threshold, height, width);
    var b := Detected(NonWhitePixels(gray, threshold));
    var w := PlannedWindow(gray, threshold, 0, height, width);
    ZeroMarginWindow(b, height, width);
    assert Rows(w) == b.bottom.y - b.top.y && Cols(w) == b.right.x - b.left.x;
    if b.bottom.y - b.top.y == 1 && b.right.x - b.left.x == 1 {
      assert CropSucceeds(gray, threshold, 0, height, width);
    } else {
      assert !CopyFits(w, 0) || Rows(w) == 0 || Cols(w) == 0;
    }
  }

  /** An image with no foreground pixel never yields an image. */
  lemma NoForegroundNeverCrops(inputIsFile: bool, outputPath: Option<string>, outputDirExists: bool,
                                margin: MarginArg, threshold: int, readable: bool,
                                gray: seq<seq<int>>, height: int, width: int)
    requires GrayOfShape(gray, height, width)
    requires forall p :: !IsForeground(gray, threshold, p)
    ensures !Succeeds(inputIsFile, outputPath, outputDirExists, margin, threshold, readable, gray, height, width)
  {
    NoForegroundRaises(gray, threshold, "left");
  }
}
