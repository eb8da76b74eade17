/**
 * Foreground mask and border detection of the auto-crop: `_get_non_white_pixels`,
 * `_find_border` and `_calculate_borders`.
 */
module Borders {
  import opened Outcomes

  /** A pixel coordinate as the detector reports it: column `x` first, then row `y`. */
  datatype Point = Point(x: int, y: int)

  /** The four borders the detector looks for, one representative pixel each. */
  datatype BorderSet = BorderSet(left: Point, right: Point, top: Point, bottom: Point)

  /** The directions `_calculate_borders` asks for, in its order. */
  const Directions: seq<string> := ["left", "right", "top", "bottom"]

  predicate IsDirection(d: string)
  {
    d == "left" || d == "right" || d == "top" || d == "bottom"
  }

  /** A pixel of grayscale image `gray` is foreground when it is strictly darker than `threshold`. */
  predicate IsForeground(gray: seq<seq<int>>, threshold: int, p: Point)
  {
    0 <= p.y < |gray| && 0 <= p.x < |gray[p.y]| && gray[p.y][p.x] < threshold
  }

  /** `p` comes strictly before `q` in row-major order (rows first, then columns). */
  predicate Before(p: Point, q: Point)
  {
    p.y < q.y || (p.y == q.y && p.x < q.x)
  }

  predicate RowMajor(px: seq<Point>)
  {
    forall i, j :: 0 <= i < j < |px| ==> Before(px[i], px[j])
  }

  // ---------------------------------------------------------------------------
  // The foreground mask (np.where over `gray < threshold`)
  // ---------------------------------------------------------------------------

  /** The foreground pixels of row `y` from column `x` on, left to right. */
  function ScanRow(row: seq<int>, y: int, threshold: int, x: nat): (px: seq<Point>)
    requires x <= |row|
    ensures forall i :: 0 <= i < |px| ==> px[i].y == y && x <= px[i].x < |row| && row[px[i].x] < threshold
    ensures forall i, j :: 0 <= i < j < |px| ==> px[i].x < px[j].x
    ensures forall c :: x <= c < |row| && row[c] < threshold ==> Point(c, y) in px
    decreases |row| - x
  {
    if x == |row| then []
    else if row[x] < threshold then [Point(x, y)] + ScanRow(row, y, threshold, x + 1)
    else ScanRow(row, y, threshold, x + 1)
  }

  /** The foreground pixels of rows `y` and below, in row-major order. */
  function ScanRows(gray: seq<seq<int>>, threshold: int, y: nat): (px: seq<Point>)
    requires y <= |gray|
    ensures forall i :: 0 <= i < |px| ==> IsForeground(gray, threshold, px[i]) && y <= px[i].y
    ensures RowMajor(px)
    ensures forall p :: IsForeground(gray, threshold, p) && y <= p.y ==> p in px
    decreases |gray| - y
  {
    if y == |gray| then []
    else
      var head := ScanRow(gray[y], y, threshold, 0);
      var rest := ScanRows(gray, threshold, y + 1);
      assert forall i, j :: 0 <= i < |head| <= j < |head| + |rest| ==> Before((head + rest)[i], (head + rest)[j]);
      head + rest
  }

  /**
   * `_get_non_white_pixels`: the coordinates of every pixel strictly below
   * `threshold`, in the order np.where lists them (rows ascending, then columns).
   * A pixel equal to the threshold is background.
   */
  function NonWhitePixels(gray: seq<seq<int>>, threshold: int): (px: seq<Point>)
    ensures forall p :: p in px <==> IsForeground(gray, threshold, p)
    ensures RowMajor(px)
  {
    ScanRows(gray, threshold, 0)
  }

  /** `non_white_pixels[1]`: the column of each foreground pixel. */
  function Xs(px: seq<Point>): (xs: seq<int>)
    ensures |xs| == |px| && forall i :: 0 <= i < |px| ==> xs[i] == px[i].x
  {
    seq(|px|, i requires 0 <= i < |px| => px[i].x)
  }

  /** `non_white_pixels[0]`: the row of each foreground pixel. */
  function Ys(px: seq<Point>): (ys: seq<int>)
    ensures |ys| == |px| && forall i :: 0 <= i < |px| ==> ys[i] == px[i].y
  {
    seq(|px|, i requires 0 <= i < |px| => px[i].y)
  }

  // ---------------------------------------------------------------------------
  // numpy reductions
  // ---------------------------------------------------------------------------

  /** `.min()` of a non-empty array. */
  function Min(s: seq<int>): (m: int)
    requires |s| > 0
    ensures m in s
    ensures forall i :: 0 <= i < |s| ==> m <= s[i]
  {
    if |s| == 1 then s[0]
    else
      var rest := Min(s[1..]);
      if s[0] <= rest then s[0] else rest
  }

  /** `.max()` of a non-empty array. */
  function Max(s: seq<int>): (m: int)
    requires |s| > 0
    ensures m in s
    ensures forall i :: 0 <= i < |s| ==> s[i] <= m
  {
    if |s| == 1 then s[0]
    else
      var rest := Max(s[1..]);
      if s[0] >= rest then s[0] else rest
  }

  /** `.argmin()`: the FIRST index holding the minimum. */
  function ArgMin(s: seq<int>): (k: nat)
    requires |s| > 0
    ensures k < |s|
    ensures forall i :: 0 <= i < |s| ==> s[k] <= s[i]
    ensures forall i :: 0 <= i < k ==> s[k] < s[i]
  {
    if |s| == 1 then 0
    else
      var k := ArgMin(s[..|s| - 1]);
      if s[|s| - 1] < s[k] then |s| - 1 else k
  }

  /** `.argmax()`: the FIRST index holding the maximum. */
  function ArgMax(s: seq<int>): (k: nat)
    requires |s| > 0
    ensures k < |s|
    ensures forall i :: 0 <= i < |s| ==> s[i] <= s[k]
    ensures forall i :: 0 <= i < k ==> s[i] < s[k]
  {
    if |s| == 1 then 0
    else
      var k := ArgMax(s[..|s| - 1]);
      if s[|s| - 1] > s[k] then |s| - 1 else k
  }

  // ---------------------------------------------------------------------------
  // _find_border and _calculate_borders
  // ---------------------------------------------------------------------------

  /**
   * The pixel `_find_border` reports for "left": the first pixel (in mask
   * order) whose column is the minimum, `(xs.min(), ys[xs.argmin()])`.
   */
  function LeftmostPixel(px: seq<Point>): (p: Point)
    requires |px| > 0
    ensures p == px[ArgMin(Xs(px))]
    ensures forall i :: 0 <= i < |px| ==> p.x <= px[i].x
  {
    var xs, ys := Xs(px), Ys(px);
    assert Min(xs) == xs[ArgMin(xs)];
    Point(Min(xs), ys[ArgMin(xs)])
  }

  /** "right": `(xs.max(), ys[xs.argmax()])`, the first pixel whose column is the maximum. */
  function RightmostPixel(px: seq<Point>): (p: Point)
    requires |px| > 0
    ensures p == px[ArgMax(Xs(px))]
    ensures forall i :: 0 <= i < |px| ==> px[i].x <= p.x
  {
    var xs, ys := Xs(px), Ys(px);
    assert Max(xs) == xs[ArgMax(xs)];
    Point(Max(xs), ys[ArgMax(xs)])
  }

  /** "top": `(xs[ys.argmin()], ys.min())`, the first pixel whose row is the minimum. */
  function TopmostPixel(px: seq<Point>): (p: Point)
    requires |px| > 0
    ensures p == px[ArgMin(Ys(px))]
    ensures forall i :: 0 <= i < |px| ==> p.y <= px[i].y
  {
    var xs, ys := Xs(px), Ys(px);
    assert Min(ys) == ys[ArgMin(ys)];
    Point(xs[ArgMin(ys)], Min(ys))
  }

  /** "bottom": `(xs[ys.argmax()], ys.max())`, the first pixel whose row is the maximum. */
  function BottommostPixel(px: seq<Point>): (p: Point)
    requires |px| > 0
    ensures p == px[ArgMax(Ys(px))]
    ensures forall i :: 0 <= i < |px| ==> px[i].y <= p.y
  {
    var xs, ys := Xs(px), Ys(px);
    assert Max(ys) == ys[ArgMax(ys)];
    Point(xs[ArgMax(ys)], Max(ys))
  }

  /**
   * `_find_border`: the extreme pixel in `direction`, `None` for an unknown
   * direction, and the ValueError numpy raises when reducing an empty mask.
   */
  function FindBorder(direction: string, px: seq<Point>): (r: Outcome<Option<Point>>)
    ensures !IsDirection(direction) ==> r == Ok(None)
    ensures IsDirection(direction) ==> (r.Raised? <==> |px| == 0)
    ensures r.Raised? ==> r.error == ValueError
    ensures direction == "left" && |px| > 0 ==> r == Ok(Some(LeftmostPixel(px)))
    ensures direction == "right" && |px| > 0 ==> r == Ok(Some(RightmostPixel(px)))
    ensures direction == "top" && |px| > 0 ==> r == Ok(Some(TopmostPixel(px)))
    ensures direction == "bottom" && |px| > 0 ==> r == Ok(Some(BottommostPixel(px)))
  {
    if direction == "left" then
      if |px| == 0 then Raised(ValueError) else Ok(Some(LeftmostPixel(px)))
    else if direction == "right" then
      if |px| == 0 then Raised(ValueError) else Ok(Some(RightmostPixel(px)))
    else if direction == "top" then
      if |px| == 0 then Raised(ValueError) else Ok(Some(TopmostPixel(px)))
    else if direction == "bottom" then
      if |px| == 0 then Raised(ValueError) else Ok(Some(BottommostPixel(px)))
    else
      Ok(None)
  }

  /**
   * `_calculate_borders`: asks `_find_border` for each direction in turn and
   * records the answers; the first raise ends the loop and propagates.
   */
  method CalculateBorders(px: seq<Point>) returns (r: Outcome<map<string, Option<Point>>>)
    ensures r.Raised? <==> |px| == 0
    ensures r.Raised? ==> r.error == ValueError
    ensures r.Ok? ==> r.value.Keys == {"left", "right", "top", "bottom"}
    ensures r.Ok? ==> forall d :: d in r.value ==> FindBorder(d, px) == Ok(r.value[d])
  {
    var borders: map<string, Option<Point>> := map[];
    for i := 0 to |Directions|
      invariant borders.Keys == set k | 0 <= k < i :: Directions[k]
      invariant forall d :: d in borders ==> FindBorder(d, px) == Ok(borders[d])
      invariant i > 0 ==> |px| > 0
    {
      var direction := Directions[i];
      var found := FindBorder(direction, px);
      if found.Raised? {
        return Raised(found.error);
      }
      borders := borders[direction := found.value];
      assert (set k | 0 <= k < i + 1 :: Directions[k]) == (set k | 0 <= k < i :: Directions[k]) + {direction};
    }
    assert (set k | 0 <= k < |Directions| :: Directions[k]) == {"left", "right", "top", "bottom"} by {
      assert Directions[0] == "left" && Directions[1] == "right";
      assert Directions[2] == "top" && Directions[3] == "bottom";
    }
    return Ok(borders);
  }

  /** Python truthiness of a border entry: `None` is false, any (x, y) tuple is true. */
  predicate Truthy(b: Option<Point>)
  {
    b.Some?
  }

  /** `all(borders.values())`. */
  predicate AllTruthy(borders: map<string, Option<Point>>)
  {
    forall d :: d in borders ==> Truthy(borders[d])
  }

  /** The four borders read back out of the dictionary that `_calculate_borders` fills. */
  function Detected(px: seq<Point>): BorderSet
    requires |px| > 0
  {
    BorderSet(LeftmostPixel(px), RightmostPixel(px), TopmostPixel(px), BottommostPixel(px))
  }

  // ---------------------------------------------------------------------------
  // What the detected borders mean for the grayscale image
  // ---------------------------------------------------------------------------

  /** Every border direction raises exactly when the image has no foreground pixel. */
  lemma NoForegroundRaises(gray: seq<seq<int>>, threshold: int, direction: string)
    requires IsDirection(direction)
    ensures FindBorder(direction, NonWhitePixels(gray, threshold)).Raised?
        <==> forall p :: !IsForeground(gray, threshold, p)
  {
    var px := NonWhitePixels(gray, threshold);
    if |px| > 0 {
      assert px[0] in px;
    }
  }

  /** Among the pixels in the leftmost column, the left border comes first in row-major order. */
  lemma LeftmostIsFirstInItsColumn(px: seq<Point>, i: nat)
    requires RowMajor(px) && i < |px| && px[i].x == LeftmostPixel(px).x
    ensures LeftmostPixel(px).y <= px[i].y
  {
    var k := ArgMin(Xs(px));
    assert !(i < k);
    if i > k {
      assert Before(px[k], px[i]);
    }
  }

  /** Among the pixels in the rightmost column, the right border comes first in row-major order. */
  lemma RightmostIsFirstInItsColumn(px: seq<Point>, i: nat)
    requires RowMajor(px) && i < |px| && px[i].x == RightmostPixel(px).x
    ensures RightmostPixel(px).y <= px[i].y
  {
    var k := ArgMax(Xs(px));
    assert !(i < k);
    if i > k {
      assert Before(px[k], px[i]);
    }
  }

  /** Among the pixels in the topmost row, the top border comes first in row-major order. */
  lemma TopmostIsFirstInItsRow(px: seq<Point>, i: nat)
    requires RowMajor(px) && i < |px| && px[i].y == TopmostPixel(px).y
    ensures TopmostPixel(px).x <= px[i].x
  {
    var k := ArgMin(Ys(px));
    assert !(i < k);
    if i > k {
      assert Before(px[k], px[i]);
    }
  }

  /** Among the pixels in the bottommost row, the bottom border comes first in row-major order. */
  lemma BottommostIsFirstInItsRow(px: seq<Point>, i: nat)
    requires RowMajor(px) && i < |px| && px[i].y == BottommostPixel(px).y
    ensures BottommostPixel(px).x <= px[i].x
  {
    var k := ArgMax(Ys(px));
    assert !(i < k);
    if i > k {
      assert Before(px[k], px[i]);
    }
  }

  /**
   * Left border: a foreground pixel in the leftmost foreground column, and of
   * the foreground pixels in that column the topmost (first in row-major order).
   */
  lemma LeftBorderIsLeftmost(gray: seq<seq<int>>, threshold: int, p: Point)
    requires FindBorder("left", NonWhitePixels(gray, threshold)) == Ok(Some(p))
    ensures IsForeground(gray, threshold, p)
    ensures forall q :: IsForeground(gray, threshold, q) ==> p.x <= q.x
    ensures forall q :: IsForeground(gray, threshold, q) && q.x == p.x ==> p.y <= q.y
  {
    var px := NonWhitePixels(gray, threshold);
    assert p == LeftmostPixel(px) && p in px;
    forall q | IsForeground(gray, threshold, q)
      ensures p.x <= q.x && (q.x == p.x ==> p.y <= q.y)
    {
      var i :| 0 <= i < |px| && px[i] == q;
      if q.x == p.x {
        LeftmostIsFirstInItsColumn(px, i);
      }
    }
  }

  /**
   * Right border: a foreground pixel in the rightmost foreground column, and of
   * the foreground pixels in that column the topmost.
   */
  lemma RightBorderIsRightmost(gray: seq<seq<int>>, threshold: int, p: Point)
    requires FindBorder("right", NonWhitePixels(gray, threshold)) == Ok(Some(p))
    ensures IsForeground(gray, threshold, p)
    ensures forall q :: IsForeground(gray, threshold, q) ==> q.x <= p.x
    ensures forall q :: IsForeground(gray, threshold, q) && q.x == p.x ==> p.y <= q.y
  {
    var px := NonWhitePixels(gray, threshold);
    assert p == RightmostPixel(px) && p in px;
    forall q | IsForeground(gray, threshold, q)
      ensures q.x <= p.x && (q.x == p.x ==> p.y <= q.y)
    {
      var i :| 0 <= i < |px| && px[i] == q;
      if q.x == p.x {
        RightmostIsFirstInItsColumn(px, i);
      }
    }
  }

  /**
   * Top border: a foreground pixel in the topmost foreground row, and of the
   * foreground pixels in that row the leftmost.
   */
  lemma TopBorderIsTopmost(gray: seq<seq<int>>, threshold: int, p: Point)
    requires FindBorder("top", NonWhitePixels(gray, threshold)) == Ok(Some(p))
    ensures IsForeground(gray, threshold, p)
    ensures forall q :: IsForeground(gray, threshold, q) ==> p.y <= q.y
    ensures forall q :: IsForeground(gray, threshold, q) && q.y == p.y ==> p.x <= q.x
  {
    var px := NonWhitePixels(gray, threshold);
    assert p == TopmostPixel(px) && p in px;
    forall q | IsForeground(gray, threshold, q)
      ensures p.y <= q.y && (q.y == p.y ==> p.x <= q.x)
    {
      var i :| 0 <= i < |px| && px[i] == q;
      if q.y == p.y {
        TopmostIsFirstInItsRow(px, i);
      }
    }
  }

  /**
   * Bottom border: a foreground pixel in the bottommost foreground row, and of
   * the foreground pixels in that row the leftmost.
   */
  lemma BottomBorderIsBottommost(gray: seq<seq<int>>, threshold: int, p: Point)
    requires FindBorder("bottom", NonWhitePixels(gray, threshold)) == Ok(Some(p))
    ensures IsForeground(gray, threshold, p)
    ensures forall q :: IsForeground(gray, threshold, q) ==> q.y <= p.y
    ensures forall q :: IsForeground(gray, threshold, q) && q.y == p.y ==> p.x <= q.x
  {
    var px := NonWhitePixels(gray, threshold);
    assert p == BottommostPixel(px) && p in px;
    forall q | IsForeground(gray, threshold, q)
      ensures q.y <= p.y && (q.y == p.y ==> p.x <= q.x)
    {
      var i :| 0 <= i < |px| && px[i] == q;
      if q.y == p.y {
        BottommostIsFirstInItsRow(px, i);
      }
    }
  }

  /**
   * The four detected borders are foreground pixels of the image and enclose
   * every foreground pixel.
   */
  lemma BordersEncloseForeground(gray: seq<seq<int>>, threshold: int)
    requires |NonWhitePixels(gray, threshold)| > 0
    ensures var b := Detected(NonWhitePixels(gray, threshold));
      && IsForeground(gray, threshold, b.left) && IsForeground(gray, threshold, b.right)
      && IsForeground(gray, threshold, b.top) && IsForeground(gray, threshold, b.bottom)
      && forall q :: IsForeground(gray, threshold, q) ==>
           b.left.x <= q.x <= b.right.x && b.top.y <= q.y <= b.bottom.y
  {
    var b := Detected(NonWhitePixels(gray, threshold));
    LeftBorderIsLeftmost(gray, threshold, b.left);
    RightBorderIsRightmost(gray, threshold, b.right);
    TopBorderIsTopmost(gray, threshold, b.top);
    BottomBorderIsBottommost(gray, threshold, b.bottom);
  }

  /**
   * The dictionary `_calculate_borders` returns holds the four detected
   * borders, and `all(borders.values())` holds of it, so the
   * NoBordersDetectedError branch of `crop_image` is never taken.
   */
  lemma BordersFromMap(px: seq<Point>, borders: map<string, Option<Point>>)
    requires |px| > 0
    requires borders.Keys == {"left", "right", "top", "bottom"}
    requires forall d :: d in borders ==> FindBorder(d, px) == Ok(borders[d])
    ensures AllTruthy(borders)
    ensures Detected(px) == BorderSet(borders["left"].value, borders["right"].value,
                                      borders["top"].value, borders["bottom"].value)
  {
    assert borders["left"] == Some(LeftmostPixel(px));
    assert borders["right"] == Some(RightmostPixel(px));
    assert borders["top"] == Some(TopmostPixel(px));
    assert borders["bottom"] == Some(BottommostPixel(px));
  }

  /** Foreground that is exactly the rectangle of columns `x0..x1` and rows `y0..y1`. */
  ghost predicate ForegroundIsRectangle(gray: seq<seq<int>>, threshold: int, x0: int, x1: int, y0: int, y1: int)
  {
    && x0 <= x1 && y0 <= y1
    && forall q :: IsForeground(gray, threshold, q) <==> x0 <= q.x <= x1 && y0 <= q.y <= y1
  }

  /** A non-empty rectangle of foreground gives a non-empty mask. */
  lemma RectangleIsDetected(gray: seq<seq<int>>, threshold: int, x0: int, x1: int, y0: int, y1: int)
    requires ForegroundIsRectangle(gray, threshold, x0, x1, y0, y1)
    ensures |NonWhitePixels(gray, threshold)| > 0
  {
    assert IsForeground(gray, threshold, Point(x0, y0));
    assert Point(x0, y0) in NonWhitePixels(gray, threshold);
  }

  /** The left border of a rectangle of foreground is its top-left corner. */
  lemma RectangleLeft(gray: seq<seq<int>>, threshold: int, x0: int, x1: int, y0: int, y1: int)
    requires ForegroundIsRectangle(gray, threshold, x0, x1, y0, y1)
    requires |NonWhitePixels(gray, threshold)| > 0
    ensures LeftmostPixel(NonWhitePixels(gray, threshold)) == Point(x0, y0)
  {
    var p := LeftmostPixel(NonWhitePixels(gray, threshold));
    var c := Point(x0, y0);
    LeftBorderIsLeftmost(gray, threshold, p);
    assert IsForeground(gray, threshold, c);
    assert x0 <= p.x && y0 <= p.y;
    assert p.x <= c.x;
    assert p.y <= c.y;
  }

  /** The right border of a rectangle of foreground is its top-right corner. */
  lemma RectangleRight(gray: seq<seq<int>>, threshold: int, x0: int, x1: int, y0: int, y1: int)
    requires ForegroundIsRectangle(gray, threshold, x0, x1, y0, y1)
    requires |NonWhitePixels(gray, threshold)| > 0
    ensures RightmostPixel(NonWhitePixels(gray, threshold)) == Point(x1, y0)
  {
    var p := RightmostPixel(NonWhitePixels(gray, threshold));
    var c := Point(x1, y0);
    RightBorderIsRightmost(gray, threshold, p);
    assert IsForeground(gray, threshold, c);
    assert p.x <= x1 && y0 <= p.y;
    assert c.x <= p.x;
    assert p.y <= c.y;
  }

  /** The top border of a rectangle of foreground is its top-left corner. */
  lemma RectangleTop(gray: seq<seq<int>>, threshold: int, x0: int, x1: int, y0: int, y1: int)
    requires ForegroundIsRectangle(gray, threshold, x0, x1, y0, y1)
    requires |NonWhitePixels(gray, threshold)| > 0
    ensures TopmostPixel(NonWhitePixels(gray, threshold)) == Point(x0, y0)
  {
    var p := TopmostPixel(NonWhitePixels(gray, threshold));
    var c := Point(x0, y0);
    TopBorderIsTopmost(gray, threshold, p);
    assert IsForeground(gray, threshold, c);
    assert y0 <= p.y && x0 <= p.x;
    assert p.y <= c.y;
    assert p.x <= c.x;
  }

  /** The bottom border of a rectangle of foreground is its bottom-left corner. */
  lemma RectangleBottom(gray: seq<seq<int>>, threshold: int, x0: int, x1: int, y0: int, y1: int)
    requires ForegroundIsRectangle(gray, threshold, x0, x1, y0, y1)
    requires |NonWhitePixels(gray, threshold)| > 0
    ensures BottommostPixel(NonWhitePixels(gray, threshold)) == Point(x0, y1)
  {
    var p := BottommostPixel(NonWhitePixels(gray, threshold));
    var c := Point(x0, y1);
    BottomBorderIsBottommost(gray, threshold, p);
    assert IsForeground(gray, threshold, c);
    assert p.y <= y1 && x0 <= p.x;
    assert c.y <= p.y;
    assert p.x <= c.x;
  }

  /**
   * When the foreground is exactly a rectangle, the tie-breaks pick its
   * top-left corner for left and top, its top-right corner for right and its
   * bottom-left corner for bottom.
   */
  lemma RectangleBorders(gray: seq<seq<int>>, threshold: int, x0: int, x1: int, y0: int, y1: int)
    requires ForegroundIsRectangle(gray, threshold, x0, x1, y0, y1)
    ensures |NonWhitePixels(gray, threshold)| > 0
    ensures Detected(NonWhitePixels(gray, threshold))
         == BorderSet(Point(x0, y0), Point(x1, y0), Point(x0, y0), Point(x0, y1))
  {
    RectangleIsDetected(gray, threshold, x0, x1, y0, y1);
    RectangleLeft(gray, threshold, x0, x1, y0, y1);
    RectangleRight(gray, threshold, x0, x1, y0, y1);
    RectangleTop(gray, threshold, x0, x1, y0, y1);
    RectangleBottom(gray, threshold, x0, x1, y0, y1);
  }
}
