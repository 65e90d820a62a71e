/**
 * Image-geometry utilities of the detector: the half-open bounds check
 * `inbounds`, the bottom crop `cutoff_lower` and the window generator
 * `sliding_window`.  Images appear only through their extent (rows and
 * columns) or, for the crop, as a sequence of opaque rows; pixel values play
 * no part in any of the three.
 */
module Common {
  import opened Wrappers

  // ---------------------------------------------------------------------------
  // Arithmetic facts about Euclidean division used by the counting proofs
  // ---------------------------------------------------------------------------

  /** A product of two non-negative numbers is non-negative. */
  lemma MulNonneg(m: int, n: int)
    requires 0 <= m && 0 <= n
    ensures 0 <= m * n
  {
  }

  /** Quotient and remainder are determined by the division equation. */
  lemma DivModUnique(a: int, s: int, q: int, r: int)
    requires 0 < s && 0 <= r < s && a == q * s + r
    ensures a / s == q && a % s == r
  {
    var q', r' := a / s, a % s;
    assert a == q' * s + r';
    if q' > q {
      MulNonneg(q' - q - 1, s);
    } else if q' < q {
      MulNonneg(q - q' - 1, s);
    }
  }

  /** Multiplying by a non-negative factor preserves `<=`. */
  lemma MulLe(p: int, q: int, n: int)
    requires p <= q && 0 <= n
    ensures p * n <= q * n
  {
    MulNonneg(q - p, n);
    assert (q - p) * n == q * n - p * n;
  }

  /** Adding the divisor does not change the remainder. */
  lemma ModAddDivisor(a: int, s: int)
    requires 0 < s
    ensures (a + s) % s == a % s
  {
    DivModUnique(a + s, s, a / s + 1, a % s);
  }

  /** Two distinct non-negative multiples of `s` are at least `s` apart. */
  lemma NextMultiple(a: int, b: int, s: int)
    requires 0 < s && 0 <= a < b && a % s == 0 && b % s == 0
    ensures a + s <= b
  {
    var qa, qb := a / s, b / s;
    assert a == qa * s && b == qb * s;
    if qb <= qa {
      MulLe(qb, qa, s);
      assert false;
    }
    MulLe(qa + 1, qb, s);
  }

  // ---------------------------------------------------------------------------
  // inbounds
  // ---------------------------------------------------------------------------

  /** The extent of an image: its number of rows and of columns. */
  datatype Shape = Shape(height: nat, width: nat)

  /** `inbounds(shape, y, x)`: the cell at row `y`, column `x` exists; both
      bounds are half-open. */
  predicate Inbounds(shape: Shape, y: int, x: int): (b: bool)
    ensures b ==> 1 <= shape.height && 1 <= shape.width
    ensures b <==> 0 <= y && y + 1 <= shape.height && 0 <= x && x + 1 <= shape.width
  {
    0 <= y < shape.height && 0 <= x < shape.width
  }

  /** The four assertions on a 100 x 100 extent: the first and last cells are
      inside, a coordinate equal to the dimension is not. */
  lemma InboundsOnHundredSquare(shape: Shape)
    requires shape == Shape(100, 100)
    ensures Inbounds(shape, 0, 0) && Inbounds(shape, 99, 99)
    ensures !Inbounds(shape, 100, 100) && !Inbounds(shape, 50, 100)
  {
  }

  /** A window anchored at a non-negative (x, y) with `h` rows and `w` columns
      lies entirely inside the image exactly when its bottom-right cell is in
      bounds.  The model's window generator tests only that cell; the
      generator's own code is not part of this model. */
  lemma LastCellDecidesFit(shape: Shape, y: int, x: int, h: int, w: int)
    requires 0 <= y && 0 <= x && 1 <= h && 1 <= w
    ensures Inbounds(shape, y + h - 1, x + w - 1) <==> y + h <= shape.height && x + w <= shape.width
    ensures Inbounds(shape, y + h - 1, x + w - 1) <==>
              forall r, c :: y <= r < y + h && x <= c < x + w ==> Inbounds(shape, r, c)
  {
    if forall r, c :: y <= r < y + h && x <= c < x + w ==> Inbounds(shape, r, c) {
      assert Inbounds(shape, y + h - 1, x + w - 1);
    }
  }

  // ---------------------------------------------------------------------------
  // cutoff_lower
  // ---------------------------------------------------------------------------

  /** The error the model assumes for a `percent` outside [0, 1]. */
  datatype Error = InvalidArgument

  /**
   * `cutoff_lower(image, percent)` with `percent = num / den`: keeps the top
   * `int(H - H * percent)` rows, i.e. the floor of `H * (den - num) / den`,
   * and drops the rest from the bottom.  Rejecting a fraction outside [0, 1]
   * with `InvalidArgument` is an assumption of this model: the test never
   * passes one.
   */
  function CutoffLower<R>(rows: seq<R>, num: int, den: int): (r: Result<seq<R>, Error>)
    requires 0 < den
    ensures r.Failure? <==> num < 0 || den < num
    ensures r.Success? ==> |r.value| <= |rows| && r.value == rows[..|r.value|]
    ensures r.Success? ==> |r.value| * den <= |rows| * (den - num) < (|r.value| + 1) * den
  {
    if num < 0 || den < num then Failure(InvalidArgument)
    else
      var keep := |rows| * (den - num) / den;
      KeptRowsInRange(|rows|, num, den);
      Success(rows[..keep])
  }

  /** The kept height `floor(H * (den - num) / den)` lies in [0, H]. */
  lemma KeptRowsInRange(height: nat, num: int, den: int)
    requires 0 <= num <= den && 0 < den
    ensures 0 <= height * (den - num) / den <= height
    ensures (height * (den - num) / den) * den <= height * (den - num) < (height * (den - num) / den + 1) * den
  {
    var a := height * (den - num);
    var k := a / den;
    assert a == k * den + a % den && 0 <= a % den < den;
    MulNonneg(height, den - num);
    MulLe(den - num, den, height);
    if k > height {
      MulLe(height + 1, k, den);
      assert false;
    }
    if k < 0 {
      MulLe(k + 1, 0, den);
      assert false;
    }
  }

  /** A zero fraction leaves the height unchanged and the whole fraction
      leaves no rows. */
  lemma CutoffLowerExtremes<R>(rows: seq<R>, den: int)
    requires 0 < den
    ensures CutoffLower(rows, 0, den) == Success(rows)
    ensures CutoffLower(rows, den, den) == Success([])
  {
    DivModUnique(|rows| * den, den, |rows|, 0);
    assert |rows| * (den - 0) == |rows| * den;
    assert rows[..|rows|] == rows;
    assert |rows| * (den - den) == 0;
  }

  /** The number of rows removed is the CEILING of `H * percent`: it is the
      least count whose removal leaves at most `H * (1 - percent)` rows. */
  lemma CutoffLowerRemovesCeiling<R>(rows: seq<R>, num: int, den: int)
    requires 0 <= num <= den && 0 < den
    ensures CutoffLower(rows, num, den).Success?
    ensures var removed := |rows| - |CutoffLower(rows, num, den).value|;
              |rows| * num <= removed * den && (removed - 1) * den < |rows| * num
  {
    var keep := |CutoffLower(rows, num, den).value|;
    var removed := |rows| - keep;
    assert removed * den == |rows| * den - keep * den;
    assert |rows| * (den - num) == |rows| * den - |rows| * num;
  }

  /** A larger fraction never keeps more rows. */
  lemma CutoffLowerMonotone<R>(rows: seq<R>, num1: int, num2: int, den: int)
    requires 0 <= num1 <= num2 <= den && 0 < den
    ensures |CutoffLower(rows, num2, den).value| <= |CutoffLower(rows, num1, den).value|
  {
    var a1, a2 := |rows| * (den - num1), |rows| * (den - num2);
    var k1, k2 := a1 / den, a2 / den;
    KeptRowsInRange(|rows|, num1, den);
    KeptRowsInRange(|rows|, num2, den);
    MulLe(den - num2, den - num1, |rows|);
    if k2 > k1 {
      MulLe(k1 + 1, k2, den);
      assert false;
    }
    assert |CutoffLower(rows, num1, den).value| == k1 && |CutoffLower(rows, num2, den).value| == k2;
  }

  /** On the 512-row test image a third keeps 341 rows (`int(512 - 512/3)`);
      removing only the floor of `512/3` rows would have kept 342. */
  lemma CutoffLowerThirdOf512<R>(rows: seq<R>)
    requires |rows| == 512
    ensures CutoffLower(rows, 1, 3).Success? && |CutoffLower(rows, 1, 3).value| == 341
    ensures |rows| - (|rows| * 1) / 3 == 342
  {
  }

  // ---------------------------------------------------------------------------
  // sliding_window
  // ---------------------------------------------------------------------------

  /**
   * A positional pair as the detector passes `window_size` and `step_size`:
   * the first component is horizontal (columns), the second vertical (rows).
   * So a window size of (32, 64) spans 32 columns and 64 rows.
   */
  datatype Extent = Extent(across: int, down: int)

  /** One yielded window: its top-left anchor and the shape (rows, columns)
      of its patch. */
  datatype Window = Window(x: int, y: int, patchHeight: int, patchWidth: int)

  /** Window extents and steps are strictly positive. */
  predicate ValidScan(size: Extent, step: Extent) {
    1 <= size.across && 1 <= size.down && 1 <= step.across && 1 <= step.down
  }

  /** Windows of row `y`, scanning columns from `x` onwards by the horizontal
      step; a placement is kept only if its last cell is in bounds. */
  function RowFrom(shape: Shape, size: Extent, step: Extent, y: int, x: int): seq<Window>
    requires ValidScan(size, step)
    decreases shape.width - x
  {
    if x >= shape.width then []
    else
      (if Inbounds(shape, y + size.down - 1, x + size.across - 1)
       then [Window(x, y, size.down, size.across)] else [])
      + RowFrom(shape, size, step, y, x + step.across)
  }

  /** Windows of every row from `y` downwards by the vertical step. */
  function RowsFrom(shape: Shape, size: Extent, step: Extent, y: int): seq<Window>
    requires ValidScan(size, step)
    decreases shape.height - y
  {
    if y >= shape.height then []
    else RowFrom(shape, size, step, y, 0) + RowsFrom(shape, size, step, y + step.down)
  }

  /** Everything `sliding_window(image, size, step)` yields, in order. */
  function Windows(shape: Shape, size: Extent, step: Extent): seq<Window>
    requires ValidScan(size, step)
  {
    RowsFrom(shape, size, step, 0)
  }

  /** Number of anchors `start, start + step, ...` along one axis at which a
      window of `extent` cells still fits inside `dim` cells. */
  function AxisCountFrom(start: int, dim: int, extent: int, step: int): nat
    requires 1 <= step
  {
    if start + extent <= dim then (dim - extent - start) / step + 1 else 0
  }

  /** `floor((dim - extent) / step) + 1` when the window fits, else zero. */
  function AxisCount(dim: int, extent: int, step: int): nat
    requires 1 <= step
  {
    AxisCountFrom(0, dim, extent, step)
  }

  /** The closed-form number of windows over an image. */
  function WindowCount(shape: Shape, size: Extent, step: Extent): nat
    requires ValidScan(size, step)
  {
    AxisCount(shape.width, size.across, step.across) * AxisCount(shape.height, size.down, step.down)
  }

  /** A legal window: anchored on the step grid, fully inside the image, and
      carrying a patch of `size.down` rows by `size.across` columns. */
  predicate IsPlacement(shape: Shape, size: Extent, step: Extent, w: Window)
    requires ValidScan(size, step)
  {
    && 0 <= w.x && w.x % step.across == 0 && w.x + size.across <= shape.width
    && 0 <= w.y && w.y % step.down == 0 && w.y + size.down <= shape.height
    && w.patchHeight == size.down && w.patchWidth == size.across
  }

  /** Scan order: row by row, left to right inside a row. */
  predicate Precedes(a: Window, b: Window) {
    a.y < b.y || (a.y == b.y && a.x < b.x)
  }

  predicate InScanOrder(ws: seq<Window>) {
    forall i, j :: 0 <= i < j < |ws| ==> Precedes(ws[i], ws[j])
  }

  /** One more anchor along an axis adds one window exactly when it fits. */
  lemma AxisCountStep(start: int, dim: int, extent: int, step: int)
    requires 1 <= step && 1 <= extent
    ensures AxisCountFrom(start, dim, extent, step)
            == (if start + extent <= dim then 1 else 0) + AxisCountFrom(start + step, dim, extent, step)
  {
    if start + extent <= dim {
      var a := dim - extent - start;
      if a >= step {
        DivModUnique(a, step, (a - step) / step + 1, (a - step) % step);
      } else {
        DivModUnique(a, step, 0, a);
      }
    }
  }

  lemma {:induction false} RowFromLength(shape: Shape, size: Extent, step: Extent, y: int, x: int)
    requires ValidScan(size, step) && 0 <= y && 0 <= x
    ensures |RowFrom(shape, size, step, y, x)|
            == if y + size.down <= shape.height then AxisCountFrom(x, shape.width, size.across, step.across) else 0
    decreases shape.width - x
  {
    AxisCountStep(x, shape.width, size.across, step.across);
    if x < shape.width {
      RowFromLength(shape, size, step, y, x + step.across);
    }
  }

  lemma {:induction false} RowsFromLength(shape: Shape, size: Extent, step: Extent, y: int)
    requires ValidScan(size, step) && 0 <= y
    ensures |RowsFrom(shape, size, step, y)|
            == AxisCountFrom(y, shape.height, size.down, step.down) * AxisCount(shape.width, size.across, step.across)
    decreases shape.height - y
  {
    if y < shape.height {
      AxisCountStep(y, shape.height, size.down, step.down);
      RowFromLength(shape, size, step, y, 0);
      RowsFromLength(shape, size, step, y + step.down);
      AddRowOfWindows(AxisCountFrom(y, shape.height, size.down, step.down),
                      AxisCountFrom(y + step.down, shape.height, size.down, step.down),
                      AxisCount(shape.width, size.across, step.across),
                      y + size.down <= shape.height);
    }
  }

  /** Windows of one more row of anchors add one row's worth when it fits. */
  lemma AddRowOfWindows(rows: int, rowsBelow: int, perRow: int, fits: bool)
    requires rows == (if fits then 1 else 0) + rowsBelow
    ensures (if fits then perRow else 0) + rowsBelow * perRow == rows * perRow
  {
  }

  /** The generator yields `(floor((W - w) / sx) + 1) * (floor((H - h) / sy) + 1)`
      windows, each axis contributing zero when the window does not fit. */
  lemma WindowsCount(shape: Shape, size: Extent, step: Extent)
    requires ValidScan(size, step)
    ensures |Windows(shape, size, step)| == WindowCount(shape, size, step)
  {
    RowsFromLength(shape, size, step, 0);
  }

  /** The count in the form the test writes it: `int((W - w + sx) / sx)` per
      axis, valid whenever the window fits on that axis. */
  lemma TestCountFormula(shape: Shape, size: Extent, step: Extent)
    requires ValidScan(size, step)
    requires size.across <= shape.width && size.down <= shape.height
    ensures |Windows(shape, size, step)|
            == ((shape.width - size.across + step.across) / step.across)
             * ((shape.height - size.down + step.down) / step.down)
  {
    WindowsCount(shape, size, step);
    var a := shape.width - size.across;
    DivModUnique(a + step.across, step.across, a / step.across + 1, a % step.across);
    var b := shape.height - size.down;
    DivModUnique(b + step.down, step.down, b / step.down + 1, b % step.down);
  }

  lemma {:induction false} RowFromMembers(shape: Shape, size: Extent, step: Extent, y: int, x: int, w: Window)
    requires ValidScan(size, step) && 0 <= y && 0 <= x && x % step.across == 0
    ensures w in RowFrom(shape, size, step, y, x) <==>
              && w.y == y && y + size.down <= shape.height
              && x <= w.x && w.x % step.across == 0 && w.x + size.across <= shape.width
              && w.patchHeight == size.down && w.patchWidth == size.across
    decreases shape.width - x
  {
    if x < shape.width {
      ModAddDivisor(x, step.across);
      RowFromMembers(shape, size, step, y, x + step.across, w);
      if x < w.x && w.x % step.across == 0 {
        NextMultiple(x, w.x, step.across);
      }
    }
  }

  lemma {:induction false} RowsFromMembers(shape: Shape, size: Extent, step: Extent, y: int, w: Window)
    requires ValidScan(size, step) && 0 <= y && y % step.down == 0
    ensures w in RowsFrom(shape, size, step, y) <==> IsPlacement(shape, size, step, w) && y <= w.y
    decreases shape.height - y
  {
    if y < shape.height {
      DivModUnique(0, step.across, 0, 0);
      RowFromMembers(shape, size, step, y, 0, w);
      ModAddDivisor(y, step.down);
      RowsFromMembers(shape, size, step, y + step.down, w);
      if y < w.y && w.y % step.down == 0 {
        NextMultiple(y, w.y, step.down);
      }
    }
  }

  /** A window is yielded exactly when it is a legal placement: no partial
      edge window, no off-grid anchor, every patch of the full shape. */
  lemma WindowsAreExactlyPlacements(shape: Shape, size: Extent, step: Extent, w: Window)
    requires ValidScan(size, step)
    ensures w in Windows(shape, size, step) <==> IsPlacement(shape, size, step, w)
  {
    DivModUnique(0, step.down, 0, 0);
    RowsFromMembers(shape, size, step, 0, w);
  }

  lemma ConcatInScanOrder(a: seq<Window>, b: seq<Window>)
    requires InScanOrder(a) && InScanOrder(b)
    requires forall i, j :: 0 <= i < |a| && 0 <= j < |b| ==> Precedes(a[i], b[j])
    ensures InScanOrder(a + b)
  {
    var ab := a + b;
    forall i, j | 0 <= i < j < |ab|
      ensures Precedes(ab[i], ab[j])
    {
      if j < |a| {
        assert ab[i] == a[i] && ab[j] == a[j];
      } else if i < |a| {
        assert ab[i] == a[i] && ab[j] == b[j - |a|];
      } else {
        assert ab[i] == b[i - |a|] && ab[j] == b[j - |a|];
      }
    }
  }

  lemma {:induction false} RowFromOrdered(shape: Shape, size: Extent, step: Extent, y: int, x: int)
    requires ValidScan(size, step)
    ensures var row := RowFrom(shape, size, step, y, x);
              InScanOrder(row) && forall k :: 0 <= k < |row| ==> row[k].y == y && x <= row[k].x
    decreases shape.width - x
  {
    if x < shape.width {
      RowFromOrdered(shape, size, step, y, x + step.across);
      var head := if Inbounds(shape, y + size.down - 1, x + size.across - 1)
                  then [Window(x, y, size.down, size.across)] else [];
      var tail := RowFrom(shape, size, step, y, x + step.across);
      ConcatInScanOrder(head, tail);
      assert RowFrom(shape, size, step, y, x) == head + tail;
    }
  }

  lemma {:induction false} RowsFromOrdered(shape: Shape, size: Extent, step: Extent, y: int)
    requires ValidScan(size, step)
    ensures var rows := RowsFrom(shape, size, step, y);
              InScanOrder(rows) && forall k :: 0 <= k < |rows| ==> y <= rows[k].y
    decreases shape.height - y
  {
    if y < shape.height {
      RowFromOrdered(shape, size, step, y, 0);
      RowsFromOrdered(shape, size, step, y + step.down);
      var row := RowFrom(shape, size, step, y, 0);
      var below := RowsFrom(shape, size, step, y + step.down);
      ConcatInScanOrder(row, below);
      var all := row + below;
      forall k | 0 <= k < |all|
        ensures y <= all[k].y
      {
        if k < |row| {
          assert all[k] == row[k];
        } else {
          assert all[k] == below[k - |row|];
        }
      }
    }
  }

  /** Windows come out row by row, left to right, each anchor at most once. */
  lemma WindowsInScanOrder(shape: Shape, size: Extent, step: Extent)
    requires ValidScan(size, step)
    ensures InScanOrder(Windows(shape, size, step))
  {
    RowsFromOrdered(shape, size, step, 0);
  }

  /** One row of the generator: horizontal anchors from 0 by the horizontal
      step, keeping a placement when the bounds check accepts its last cell. */
  method ScanRow(shape: Shape, size: Extent, step: Extent, y: int) returns (row: seq<Window>)
    requires ValidScan(size, step)
    ensures row == RowFrom(shape, size, step, y, 0)
  {
    row := [];
    var x := 0;
    while x < shape.width
      invariant 0 <= x
      invariant row + RowFrom(shape, size, step, y, x) == RowFrom(shape, size, step, y, 0)
      decreases shape.width - x
    {
      ghost var rest := RowFrom(shape, size, step, y, x + step.across);
      if Inbounds(shape, y + size.down - 1, x + size.across - 1) {
        var w := Window(x, y, size.down, size.across);
        assert RowFrom(shape, size, step, y, x) == [w] + rest;
        assert row + ([w] + rest) == (row + [w]) + rest;
        row := row + [w];
      } else {
        assert RowFrom(shape, size, step, y, x) == rest;
      }
      x := x + step.across;
    }
    assert row + [] == row;
  }

  /**
   * The generator run to completion: vertical anchors from 0 by the vertical
   * step, and for each of them the row scan.
   */
  method SlidingWindow(shape: Shape, size: Extent, step: Extent) returns (ws: seq<Window>)
    requires ValidScan(size, step)
    ensures ws == Windows(shape, size, step)
    ensures |ws| == WindowCount(shape, size, step)
    ensures forall w :: w in ws <==> IsPlacement(shape, size, step, w)
    ensures InScanOrder(ws)
  {
    ghost var all := Windows(shape, size, step);
    ws := [];
    var y := 0;
    while y < shape.height
      invariant 0 <= y
      invariant ws + RowsFrom(shape, size, step, y) == all
      decreases shape.height - y
    {
      var row := ScanRow(shape, size, step, y);
      ghost var below := RowsFrom(shape, size, step, y + step.down);
      assert RowsFrom(shape, size, step, y) == row + below;
      assert ws + (row + below) == (ws + row) + below;
      ws := ws + row;
      y := y + step.down;
    }
    assert ws + [] == ws;
    WindowsFacts(shape, size, step);
  }

  /** The three facts about `Windows` that the generator's contract repeats. */
  lemma WindowsFacts(shape: Shape, size: Extent, step: Extent)
    requires ValidScan(size, step)
    ensures |Windows(shape, size, step)| == WindowCount(shape, size, step)
    ensures forall w :: w in Windows(shape, size, step) <==> IsPlacement(shape, size, step, w)
    ensures InScanOrder(Windows(shape, size, step))
  {
    WindowsCount(shape, size, step);
    WindowsInScanOrder(shape, size, step);
    forall w
      ensures w in Windows(shape, size, step) <==> IsPlacement(shape, size, step, w)
    {
      WindowsAreExactlyPlacements(shape, size, step, w);
    }
  }

  /** The closed form on the test's 512 x 512 image, window size (32, 64)
      and step (16, 16): 31 columns of anchors times 29 rows of anchors, the
      same number as the test's `int((512-16)/16) * int((512-48)/16)`. */
  lemma AstronautClosedForm(image: Shape)
    requires image.height == 512 && image.width == 512
    ensures WindowCount(image, Extent(32, 64), Extent(16, 16)) == 899
    ensures 899 == ((512 - 16) / 16) * ((512 - 48) / 16)
  {
    assert AxisCount(image.width, 32, 16) == 31;
    assert AxisCount(image.height, 64, 16) == 29;
    assert (512 - 16) / 16 == 31 && (512 - 48) / 16 == 29;
  }

  /** The test's scan yields 899 windows. */
  lemma AstronautWindowCount(image: Shape)
    requires image.height == 512 && image.width == 512
    ensures |Windows(image, Extent(32, 64), Extent(16, 16))| == 899
  {
    WindowsCount(image, Extent(32, 64), Extent(16, 16));
    AstronautClosedForm(image);
  }

  /** With the test's window size (32, 64), every patch yielded over any
      image is 64 rows by 32 columns: the pair is read as (columns, rows). */
  lemma AstronautPatchShape(image: Shape, step: Extent)
    requires ValidScan(Extent(32, 64), step)
    ensures forall w :: w in Windows(image, Extent(32, 64), step) ==> w.patchHeight == 64 && w.patchWidth == 32
  {
    forall w | w in Windows(image, Extent(32, 64), step)
      ensures w.patchHeight == 64 && w.patchWidth == 32
    {
      WindowsAreExactlyPlacements(image, Extent(32, 64), step, w);
    }
  }
}
