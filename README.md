# White-border auto-crop, modelled in Dafny

This project models the auto-crop of `smart_cropping.py`. The crop takes an
image with a white margin around its content. It finds the pixels darker than
a threshold and the four extreme ones among them (left, right, top, bottom).
It widens that box by a margin and clamps it to the image. It then returns a
fresh white canvas with the window copied in, inset by the margin.
`crop_image` turns every failure into `None`.

Modules, one per component of the source file:

- `Outcomes`: `Option`, the exception classes `crop_image` handles (`Error`),
  and `Outcome` (a value or a raised exception).
- `Borders`: the foreground mask (`_get_non_white_pixels`), numpy's
  `min`/`max`/`argmin`/`argmax`, `_find_border` and `_calculate_borders`.
- `Cropper`: the geometry and padded copy of `_crop_and_visualize`.
- `Validator`: `_validate_input`.
- `SmartCropping`: the control flow of `crop_image`.

Representation choices:

- The grayscale image is a `seq<seq<int>>`. The colour image and the output are
  `array2<Pixel>`, where `Pixel` holds the three channels.
- The mask that `np.where` returns (a row array and a column array) is one
  sequence of `Point(x, y)` in the same row-major order. `Xs` and `Ys` give the
  two arrays back.
- Border directions stay strings, as in the source. An unknown direction gives
  `None`.
- `margin` is a `MarginArg`: a Python `int`, a `bool` (which `isinstance(_, int)`
  accepts) or anything else.
- `crop_image`'s defaults (`output_path=None`, `margin=10`, `threshold=255`)
  are not modelled: callers of `CropImage` pass every argument explicitly,
  `None` for the output path being `Outcomes.None`.

Behaviour of the code that the proofs make explicit:

- Where the docstring of `crop_image` and the code disagree, the model follows
  the code. Foreground pixels are those strictly below the threshold
  (smart_cropping.py:89), not above it as smart_cropping.py:155-157 says. The
  image is written even without an output path, to
  `output_images/cropped_image.jpg` (smart_cropping.py:137), although
  smart_cropping.py:151-152 says nothing is saved.

- An image with no foreground pixel never reaches `NoBordersDetectedError`.
  `.min()` on the empty mask raises `ValueError` inside `_find_border` first.
  Once borders exist, every entry is a non-empty tuple, so
  `all(borders.values())` always holds (`BordersFromMap`).
- With `margin = 0` the target slice `0:-0` is empty. numpy accepts the
  assignment only when the window is at most one row and one column. An empty
  canvas then makes `cv2.imwrite` raise. So `crop_image` returns an image only
  when the foreground spans exactly two rows and two columns, and that image is
  one white pixel (`ZeroMarginCropsOnlyTwoByTwoExtent`, `ZeroMarginCopiesNothing`).
- The window is clamped to `width - 1` and `height - 1`, but its slice end is
  exclusive. So the image's last row and last column are never copied
  (`CopiedUnlessOnLastRowOrColumn`).
- The margin is applied twice. The canvas is `4 * margin` larger than the
  detected extent when nothing is clamped (`UnclampedCanvasSize`).
- For a 100 × 100 image whose foreground is the square of rows and columns
  40 to 59, threshold 255 and margin 5, detection finds the square's corners
  and the code produces a 39 × 39 canvas (`SquareExample`). Applying the margin
  once, with an inclusive window, would give 30 × 30; the code widens the
  window by the margin, pads by it again, and drops the window's last row and
  column.

## Model

| member | source | states |
|---|---|---|
| `Borders.ScanRow` | smart_cropping.py:87-89 | the foreground pixels of one row, left to right: exactly the columns whose value is strictly below the threshold |
| `Borders.ScanRows` | smart_cropping.py:87-89 | the foreground pixels of the remaining rows are listed in strict row-major order, and every foreground pixel of those rows is listed |
| `Borders.NonWhitePixels` | smart_cropping.py:87-89 | a pixel is in the mask iff it lies in the image and its gray value is strictly below the threshold (a value equal to the threshold is background); the mask is in row-major order |
| `Borders.Min` | smart_cropping.py:22 | `.min()` of a non-empty array is an element and is at most every element |
| `Borders.Max` | smart_cropping.py:25 | `.max()` of a non-empty array is an element and is at least every element |
| `Borders.ArgMin` | smart_cropping.py:23 | `.argmin()` is the first index holding the minimum: no element is smaller, and every earlier element is strictly larger |
| `Borders.ArgMax` | smart_cropping.py:26 | `.argmax()` is the first index holding the maximum: no element is larger, and every earlier element is strictly smaller |
| `Borders.LeftmostPixel` | smart_cropping.py:21-23 | the left border is the mask entry at `argmin` of the columns, and its column is at most every mask column |
| `Borders.RightmostPixel` | smart_cropping.py:24-26 | the right border is the mask entry at `argmax` of the columns, and its column is at least every mask column |
| `Borders.TopmostPixel` | smart_cropping.py:27-29 | the top border is the mask entry at `argmin` of the rows, and its row is at most every mask row |
| `Borders.BottommostPixel` | smart_cropping.py:30-32 | the bottom border is the mask entry at `argmax` of the rows, and its row is at least every mask row |
| `Borders.FindBorder` | smart_cropping.py:14-35 | an unknown direction gives `None`; for the four named directions an empty mask raises ValueError, and otherwise the result is that direction's extreme pixel |
| `Borders.CalculateBorders` | smart_cropping.py:92-106 | the loop raises ValueError iff the mask is empty; otherwise the dictionary has exactly the keys left, right, top and bottom, each holding what `_find_border` returns for it |
| `Borders.NoForegroundRaises` | smart_cropping.py:21-32 | each named direction raises exactly when the image has no foreground pixel |
| `Borders.LeftmostIsFirstInItsColumn` | smart_cropping.py:22-23 | in a row-major mask, the left border is the topmost pixel of the leftmost column |
| `Borders.RightmostIsFirstInItsColumn` | smart_cropping.py:25-26 | in a row-major mask, the right border is the topmost pixel of the rightmost column |
| `Borders.TopmostIsFirstInItsRow` | smart_cropping.py:28-29 | in a row-major mask, the top border is the leftmost pixel of the topmost row |
| `Borders.BottommostIsFirstInItsRow` | smart_cropping.py:31-32 | in a row-major mask, the bottom border is the leftmost pixel of the bottommost row |
| `Borders.LeftBorderIsLeftmost` | smart_cropping.py:21-23 | on the image itself, the left border is a foreground pixel with the minimum foreground column, and the topmost such pixel |
| `Borders.RightBorderIsRightmost` | smart_cropping.py:24-26 | the right border is a foreground pixel with the maximum foreground column, and the topmost such pixel |
| `Borders.TopBorderIsTopmost` | smart_cropping.py:27-29 | the top border is a foreground pixel with the minimum foreground row, and the leftmost such pixel |
| `Borders.BottomBorderIsBottommost` | smart_cropping.py:30-32 | the bottom border is a foreground pixel with the maximum foreground row, and the leftmost such pixel |
| `Borders.BordersEncloseForeground` | smart_cropping.py:14-35 | all four borders are foreground pixels, and every foreground pixel lies within `left.x..right.x` × `top.y..bottom.y` |
| `Borders.BordersFromMap` | smart_cropping.py:180-185 | the dictionary from `_calculate_borders` always passes `all(borders.values())`, and its entries are the four detected borders |
| `SmartCropping.DetectedInImage` | smart_cropping.py:118-121 | the borders read out of the dictionary lie inside the image, with `left.x <= right.x` and `top.y <= bottom.y` |
| `Cropper.CropWindow` | smart_cropping.py:118-126 | each bound is widened by the margin and clamped: `0 <= x_left`, `x_right <= width-1`, `0 <= y_top`, `y_bottom <= height-1`; no bound crosses inward past its detected border; a bound differs from border ± margin only when it sits on the image edge |
| `Cropper.PadAndCopy` | smart_cropping.py:128-135 | raises ValueError iff numpy cannot assign the window to `padded[m:-m, m:-m]`; otherwise the fresh canvas is `(y_bottom-y_top+2m) × (x_right-x_left+2m)`; with `m > 0` it holds the window at offset `(m, m)` and is white elsewhere, and with `m = 0` it is all white; the source image is not modified |
| `Cropper.CropAndWrite` | smart_cropping.py:109-143 | `_crop_and_visualize` returns the padded crop of the clamped window; a window numpy cannot assign to `padded[m:-m, m:-m]` raises ValueError; an accepted but empty canvas raises from `cv2.imwrite` (OtherException); it succeeds exactly when neither happens |
| `Cropper.RingStaysWhite` | smart_cropping.py:128-131 | every cell of the outer ring of width `margin` is (255, 255, 255) |
| `Cropper.InteriorIsWindow` | smart_cropping.py:133-135 | with `margin > 0`, output cell `[m+i][m+j]` is `image[y_top+i][x_left+j]` for every window position |
| `Cropper.ZeroMarginCopiesNothing` | smart_cropping.py:128-135 | with `margin = 0`, an accepted non-empty canvas is a single white pixel |
| `Cropper.ZeroMarginWindow` | smart_cropping.py:123-126 | with `margin = 0` the window is exactly the detected extent |
| `Cropper.UnclampedCanvasSize` | smart_cropping.py:123-131 | without clamping, the canvas is the detected extent plus `4 * margin` in each dimension |
| `Borders.RectangleIsDetected` | smart_cropping.py:87-89 | an image whose foreground is a non-empty rectangle has a non-empty mask |
| `Borders.RectangleLeft` | smart_cropping.py:21-23 | when the foreground is exactly a rectangle, the left border is its top-left corner |
| `Borders.RectangleRight` | smart_cropping.py:24-26 | when the foreground is exactly a rectangle, the right border is its top-right corner |
| `Borders.RectangleTop` | smart_cropping.py:27-29 | when the foreground is exactly a rectangle, the top border is its top-left corner |
| `Borders.RectangleBottom` | smart_cropping.py:30-32 | when the foreground is exactly a rectangle, the bottom border is its bottom-left corner |
| `Borders.RectangleBorders` | smart_cropping.py:14-35 | when the foreground is exactly a rectangle, the detected borders are its top-left, top-right, top-left and bottom-left corners |
| `Cropper.SquareExample` | smart_cropping.py:87-131 | for a 100 × 100 gray image whose foreground is exactly the square of rows and columns 40-59, threshold 255 and margin 5, detection gives left (40, 40), right (59, 40), top (40, 40), bottom (40, 59), the window is 35..64 and the canvas 39 × 39 |
| `Cropper.CopiedUnlessOnLastRowOrColumn` | smart_cropping.py:124-135 | with `margin > 0`, a pixel inside the borders is copied iff it is not on the image's last row or last column, and a copied pixel sits at its offset from the window corner |
| `Validator.Validate` | smart_cropping.py:68-84 | a missing input file, or a missing output directory when an output path is given, raises FileNotFoundError; then a margin that is not an int or is negative raises ValueError; a bool is accepted as 0 or 1 |
| `SmartCropping.DetectAndCrop` | smart_cropping.py:177-185 | no foreground raises ValueError; NoBordersDetectedError is never raised; an image comes back iff the crop succeeds, and it is the padded crop of the planned window |
| `SmartCropping.TryCrop` | smart_cropping.py:172-185 | validation errors propagate unchanged; an undecodable file raises; no foreground raises ValueError; NoBordersDetectedError is never raised; success exactly when validation, decoding and the crop all succeed |
| `SmartCropping.CropImage` | smart_cropping.py:146-195 | every failure becomes `None`; otherwise the result is a fresh padded crop of the planned window |
| `SmartCropping.PositiveMarginAlwaysCrops` | smart_cropping.py:172-185 | with a valid margin above 0, a decodable image with any foreground pixel always yields an image |
| `SmartCropping.ZeroMarginCropsOnlyTwoByTwoExtent` | smart_cropping.py:128-139 | with margin 0 the crop succeeds iff the foreground spans exactly two rows and two columns |
| `SmartCropping.NoForegroundNeverCrops` | smart_cropping.py:177-195 | an image with no foreground pixel always yields `None` |

## Left out

- The file-existence and directory checks (smart_cropping.py:76-81) are not
  performed: `inputIsFile` and `outputDirExists` are inputs giving their
  answers. So `os.path.dirname` is not modelled, for instance for a bare file
  name whose directory part is empty.
- `cv2.imread` (smart_cropping.py:175) is an input: `readable` says whether it
  decoded the file, and `image` is what it decoded.
- `cv2.cvtColor` (smart_cropping.py:176) is a foreign call with weighted
  rounding. The grayscale image is an input of the same shape as the image.
- `cv2.imwrite` and the default output path (smart_cropping.py:137-139) are
  file output. Only the assertion that refuses an empty image is modelled. A
  write that fails by returning False is ignored by the source, and so by the
  model.
- `SmartCropping.CropImage`, `SmartCropping.TryCrop` and
  `SmartCropping.PositiveMarginAlwaysCrops` state success for every run that
  passes the modelled checks. They do not cover three further ways in which
  `crop_image` raises and returns `None`:
  - `cv2.imwrite` raising because no encoder matches the output path's
    extension (for example `out.txt`, or a name without an extension);
  - a margin so large that allocating the canvas fails (`MemoryError`), or
    that overflows numpy's 64-bit integers in the window arithmetic
    (`OverflowError`); the model's margin is an unbounded integer;
  - a threshold that numpy cannot compare with the gray image (`TypeError`
    at smart_cropping.py:89); the model's threshold is always an integer.
- `_visualize_images` (smart_cropping.py:38-65) is plotting. Its errors are
  caught inside it, so it cannot change the result.
- The messages printed by the handlers and `suggest_resolution`
  (smart_cropping.py:9-11, 186-195) are console output.
- Pixel channels are unbounded integers, not `uint8`. The source only copies
  them and fills 255, so no arithmetic on them can wrap.
- The other files of the repository (video_interpolation.py, main.py,
  src/upscale_gifs.py) are not part of this model. They run ffmpeg, iterate
  folders, capture video and run a pretrained model.
