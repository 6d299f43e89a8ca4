/**
 * The Newton fractal kernel: for every pixel of a width x height grid laid
 * over a viewport of the complex plane, run Newton's method on z^n - 1 from
 * the pixel's sample point and record which n-th root of unity the iteration
 * ended next to and how many steps it took.
 */
module Fractal {
  import opened ComplexNumbers
  import RowMajor

  /** f(z) = z^n - 1 (getNormal). */
  function Normal(n: nat, z: Complex): Complex
  {
    Sub(Pow(z, n), One)
  }

  /** f'(z) = n * z^(n-1) (getDerivative). */
  function Derivative(n: nat, z: Complex): Complex
    requires n >= 1
  {
    Mul(Complex(n as real, 0.0), Pow(z, n - 1))
  }

  /** One is a root of z^n - 1. */
  lemma OneIsRoot(n: nat)
    ensures Normal(n, One) == Zero
  {
    PowOne(n);
  }

  /** The derivative n * z^(n-1) vanishes at the origin once n >= 2. */
  lemma DerivativeVanishesAtOrigin(n: nat)
    requires n >= 2
    ensures Derivative(n, Zero) == Zero
  {
    PowZero(n - 1);
  }

  // ---------------------------------------------------------------------------
  // Roots of unity (findRoots)
  // ---------------------------------------------------------------------------

  /** `std::numbers::pi` as a double. */
  const Pi: real := 3.141592653589793

  /** The angle 2*pi*k/n of the k-th root. */
  function RootAngle(n: nat, k: nat): real
    requires n >= 1
  {
    2.0 * Pi * k as real / n as real
  }

  /**
   * The roots findRoots produces, in order: root k is (cos(2*pi*k/n), sin(2*pi*k/n)).
   * `cos` and `sin` stand for the C library's functions.
   */
  function Roots(n: nat, cos: real -> real, sin: real -> real): (roots: seq<Complex>)
    ensures |roots| == n
  {
    seq(n, k requires 0 <= k < n => Complex(cos(RootAngle(n, k)), sin(RootAngle(n, k))))
  }

  /** findRoots: appends the n roots one after another. */
  method FindRoots(n: nat, cos: real -> real, sin: real -> real) returns (roots: seq<Complex>)
    ensures |roots| == n
    ensures roots == Roots(n, cos, sin)
  {
    roots := [];
    var k := 0;
    while k < n
      invariant 0 <= k <= n
      invariant |roots| == k
      invariant forall j :: 0 <= j < k ==> roots[j] == Complex(cos(RootAngle(n, j)), sin(RootAngle(n, j)))
    {
      var angle := 2.0 * Pi * k as real / n as real;
      roots := roots + [Complex(cos(angle), sin(angle))];
      k := k + 1;
    }
  }

  /** Root 0 sits at angle 0, so it is (1, 0) whenever cos 0 = 1 and sin 0 = 0. */
  lemma FirstRootIsOne(n: nat, cos: real -> real, sin: real -> real)
    requires n >= 1 && cos(0.0) == 1.0 && sin(0.0) == 0.0
    ensures Roots(n, cos, sin)[0] == One
  {
    assert RootAngle(n, 0) == 0.0;
  }

  // ---------------------------------------------------------------------------
  // Newton iteration
  // ---------------------------------------------------------------------------

  /** The loop's stop test: |f(z)| < tol or |f'(z)| < tol. */
  predicate Settled(n: nat, z: Complex, tol: real)
    requires n >= 1
  {
    AbsLess(Normal(n, z), tol) || AbsLess(Derivative(n, z), tol)
  }

  /** A point that has not settled has a derivative far enough from zero to divide by. */
  lemma UnsettledDerivativeNonZero(n: nat, z: Complex, tol: real)
    requires n >= 1 && tol > 0.0 && !Settled(n, z, tol)
    ensures NormSq(Derivative(n, z)) > 0.0
  {
    var d := Derivative(n, z);
    assert !AbsLess(d, tol);
    NotAbsLessNonZero(d, tol);
  }

  /** One Newton step z - f(z)/f'(z). */
  function NewtonStep(n: nat, z: Complex, tol: real): Complex
    requires n >= 1 && tol > 0.0 && !Settled(n, z, tol)
  {
    UnsettledDerivativeNonZero(n, z, tol);
    Sub(z, Div(Normal(n, z), Derivative(n, z)))
  }

  /** Where the iteration stopped and after how many steps. */
  datatype Orbit = Orbit(point: Complex, iterations: nat)

  /**
   * The Newton loop from point z with `iter` steps already taken: stop once
   * the budget maxIter is used up or the point has settled, otherwise step.
   */
  function Newton(n: nat, z: Complex, iter: nat, maxIter: int, tol: real): Orbit
    requires n >= 1 && tol > 0.0
    decreases maxIter - iter
  {
    if iter >= maxIter then Orbit(z, iter)
    else if Settled(n, z, tol) then Orbit(z, iter)
    else Newton(n, NewtonStep(n, z, tol), iter + 1, maxIter, tol)
  }

  /** The iteration count never goes below its start nor beyond the budget. */
  lemma {:induction false} NewtonBounds(n: nat, z: Complex, iter: nat, maxIter: int, tol: real)
    requires n >= 1 && tol > 0.0
    ensures iter <= Newton(n, z, iter, maxIter, tol).iterations
    ensures Newton(n, z, iter, maxIter, tol).iterations <= if iter <= maxIter then maxIter else iter
    decreases maxIter - iter
  {
    if iter < maxIter && !Settled(n, z, tol) {
      NewtonBounds(n, NewtonStep(n, z, tol), iter + 1, maxIter, tol);
    }
  }

  /** A point that already satisfies the stop test is left where it is, with no step counted. */
  lemma SettledStaysPut(n: nat, z: Complex, iter: nat, maxIter: int, tol: real)
    requires n >= 1 && tol > 0.0 && Settled(n, z, tol)
    ensures Newton(n, z, iter, maxIter, tol) == Orbit(z, iter)
  {
  }

  /** The while loop of computeNewtonFractal for one sample point. */
  method NewtonIterate(n: nat, start: Complex, maxIter: int, tolerance: real) returns (point: Complex, iter: nat)
    requires n >= 1 && tolerance > 0.0
    ensures Orbit(point, iter) == Newton(n, start, 0, maxIter, tolerance)
    ensures iter <= if maxIter < 0 then 0 else maxIter
  {
    point, iter := start, 0;
    while iter < maxIter
      invariant Newton(n, point, iter, maxIter, tolerance) == Newton(n, start, 0, maxIter, tolerance)
      decreases maxIter - iter
    {
      var normal := Normal(n, point);
      var derivative := Derivative(n, point);
      if AbsLess(normal, tolerance) || AbsLess(derivative, tolerance) {
        break;
      }
      UnsettledDerivativeNonZero(n, point, tolerance);
      var step := Div(normal, derivative);
      point := Sub(point, step);
      iter := iter + 1;
    }
    NewtonBounds(n, start, 0, maxIter, tolerance);
  }

  // ---------------------------------------------------------------------------
  // Root classification
  // ---------------------------------------------------------------------------

  /** |z - roots[k]|^2 */
  function DistSq(z: Complex, roots: seq<Complex>, k: nat): real
    requires k < |roots|
  {
    NormSq(Sub(z, roots[k]))
  }

  /** Root k is not rejected by the test `rootDist > tolerance`. */
  predicate Within(z: Complex, roots: seq<Complex>, tol: real, k: nat)
    requires k < |roots|
  {
    !AbsGreater(Sub(z, roots[k]), tol)
  }

  /**
   * The classifier loop over roots 0..k-1: skip roots farther than tol,
   * keep a root only when it is strictly closer than the best so far.
   * -1 means no root has been kept yet.
   */
  function Nearest(z: Complex, roots: seq<Complex>, tol: real, k: nat): (r: int)
    requires k <= |roots|
    ensures -1 <= r < k
    ensures r != -1 ==> Within(z, roots, tol, r)
  {
    if k == 0 then -1
    else
      var best := Nearest(z, roots, tol, k - 1);
      if !Within(z, roots, tol, k - 1) then best
      else if best == -1 || DistSq(z, roots, k - 1) < DistSq(z, roots, best) then k - 1
      else best
  }

  /**
   * What the classifier promises about r among the first k roots: r is -1
   * exactly when no root is within tolerance; otherwise r is a root within
   * tolerance whose distance is minimal among those, and every root before
   * it within tolerance is strictly farther (the lowest index wins ties).
   */
  predicate NearestAmong(z: Complex, roots: seq<Complex>, tol: real, k: nat, r: int)
    requires k <= |roots|
  {
    && -1 <= r < k
    && (r == -1 <==> forall j :: 0 <= j < k ==> !Within(z, roots, tol, j))
    && (r != -1 ==>
          && Within(z, roots, tol, r)
          && (forall j :: 0 <= j < k && Within(z, roots, tol, j) ==> DistSq(z, roots, r) <= DistSq(z, roots, j))
          && (forall j :: 0 <= j < r && Within(z, roots, tol, j) ==> DistSq(z, roots, r) < DistSq(z, roots, j)))
  }

  /** The classifier meets its specification on every prefix of the roots. */
  lemma {:induction false} NearestIsNearest(z: Complex, roots: seq<Complex>, tol: real, k: nat)
    requires k <= |roots|
    ensures NearestAmong(z, roots, tol, k, Nearest(z, roots, tol, k))
  {
    if k > 0 {
      NearestIsNearest(z, roots, tol, k - 1);
    }
  }

  /** The specification leaves no choice: at most one index meets it. */
  lemma NearestAmongUnique(z: Complex, roots: seq<Complex>, tol: real, k: nat, r1: int, r2: int)
    requires k <= |roots|
    requires NearestAmong(z, roots, tol, k, r1) && NearestAmong(z, roots, tol, k, r2)
    ensures r1 == r2
  {
  }

  /** The root-index loop of computeNewtonFractal. */
  method NearestRoot(point: Complex, roots: seq<Complex>, tolerance: real) returns (rootIndex: int)
    ensures rootIndex == Nearest(point, roots, tolerance, |roots|)
    ensures NearestAmong(point, roots, tolerance, |roots|, rootIndex)
  {
    rootIndex := -1;
    // minDist starts at DBL_MAX in the source; it is consulted here only once a root has been kept
    var minDist := 0.0;
    var i := 0;
    while i < |roots|
      invariant 0 <= i <= |roots|
      invariant rootIndex == Nearest(point, roots, tolerance, i)
      invariant rootIndex != -1 ==> minDist == DistSq(point, roots, rootIndex)
    {
      var rootDist := NormSq(Sub(point, roots[i]));
      if ExceedsSq(rootDist, tolerance) {
        i := i + 1;
        continue;
      }
      if rootIndex == -1 || rootDist < minDist {
        minDist := rootDist;
        rootIndex := i;
      }
      i := i + 1;
    }
    NearestIsNearest(point, roots, tolerance, |roots|);
  }

  // ---------------------------------------------------------------------------
  // The pixel loop
  // ---------------------------------------------------------------------------

  /** The two values the kernel stores for one pixel. */
  datatype Pixel = Pixel(rootIndex: int, iterations: nat)

  /** The pixel value for sample point z: run Newton's method, then classify where it stopped. */
  function PixelValue(n: nat, roots: seq<Complex>, maxIter: int, tol: real, z: Complex): Pixel
    requires n >= 1 && tol > 0.0
  {
    var orbit := Newton(n, z, 0, maxIter, tol);
    Pixel(Nearest(orbit.point, roots, tol, |roots|), orbit.iterations)
  }

  /**
   * The body of computeNewtonFractal's inner loop for one sample point:
   * iterate from it, then classify the point reached.
   */
  method ComputePixel(n: nat, roots: seq<Complex>, maxIter: int, tolerance: real, start: Complex)
    returns (rootIndex: int, iter: nat)
    requires n >= 1 && tolerance > 0.0
    ensures Pixel(rootIndex, iter) == PixelValue(n, roots, maxIter, tolerance, start)
  {
    var point;
    point, iter := NewtonIterate(n, start, maxIter, tolerance);
    rootIndex := NearestRoot(point, roots, tolerance);
  }

  /**
   * A pixel value is in range: the root index is -1 or the index of a root,
   * and the iteration count lies between 0 and the budget maxIter (0 when the
   * budget is not positive).
   */
  lemma PixelBounds(n: nat, roots: seq<Complex>, maxIter: int, tol: real, z: Complex)
    requires n >= 1 && tol > 0.0
    ensures -1 <= PixelValue(n, roots, maxIter, tol, z).rootIndex < |roots|
    ensures PixelValue(n, roots, maxIter, tol, z).iterations <= if maxIter < 0 then 0 else maxIter
  {
    NewtonBounds(n, z, 0, maxIter, tol);
  }

  /**
   * Sampling the root (1, 0) exactly: the iteration stops before its first
   * step, since f(1) = 0, and the point is classified as root 0 when that is
   * the root (1, 0), whatever the other roots are.
   */
  lemma ExactRootPixel(n: nat, roots: seq<Complex>, maxIter: int, tol: real)
    requires n >= 1 && tol > 0.0 && |roots| >= 1 && roots[0] == One
    ensures PixelValue(n, roots, maxIter, tol, One) == Pixel(0, 0)
  {
    // the value of a pixel follows from where the iteration stops and how the stopping point is classified
    hide Newton, Nearest, DistSq, Within, Settled;
    RootStops(n, maxIter, tol);
    DistSqOfRoot(One, roots, 0);
    NearestOfFirstRoot(One, roots, tol, |roots|);
  }

  /** Starting at the root (1, 0), where f(1) = 0, the iteration stops before its first step. */
  lemma RootStops(n: nat, maxIter: int, tol: real)
    requires n >= 1 && tol > 0.0
    ensures Newton(n, One, 0, maxIter, tol) == Orbit(One, 0)
  {
    // f(1) = 0 and |0| < tol are all the stop test needs
    hide Normal, Derivative, AbsLess;
    OneIsRoot(n);
    ZeroBelow(tol);
    SettledStaysPut(n, One, 0, maxIter, tol);
  }

  /**
   * A point at distance 0 from root 0 is classified as root 0 among the
   * first k roots: root 0 is within tolerance, and no root is strictly
   * closer than distance 0.
   */
  lemma {:induction false} NearestOfFirstRoot(z: Complex, roots: seq<Complex>, tol: real, k: nat)
    requires tol > 0.0 && 1 <= k <= |roots| && DistSq(z, roots, 0) == 0.0
    ensures Nearest(z, roots, tol, k) == 0
  {
    if k == 1 {
      ProductBelowPositive(tol, tol, tol * tol);
      assert Within(z, roots, tol, 0);
    } else {
      NearestOfFirstRoot(z, roots, tol, k - 1);
      DistSqOfRoot(z, roots, k - 1);
      NotCloserKeepsBest(z, roots, tol, k);
    }
  }

  /** A root that is not strictly closer than the best so far does not replace it. */
  lemma NotCloserKeepsBest(z: Complex, roots: seq<Complex>, tol: real, k: nat)
    requires 1 <= k <= |roots|
    requires Nearest(z, roots, tol, k - 1) != -1
    requires DistSq(z, roots, Nearest(z, roots, tol, k - 1)) <= DistSq(z, roots, k - 1)
    ensures Nearest(z, roots, tol, k) == Nearest(z, roots, tol, k - 1)
  {
  }

  /** Distances are never negative, and a root is at distance 0 from itself. */
  lemma DistSqOfRoot(z: Complex, roots: seq<Complex>, k: nat)
    requires k < |roots|
    ensures DistSq(z, roots, k) >= 0.0
    ensures roots[k] == z ==> DistSq(z, roots, k) == 0.0
  {
  }

  /** The same for the roots findRoots computes, given that cos 0 = 1 and sin 0 = 0. */
  lemma ExactRootOfUnityPixel(n: nat, maxIter: int, tol: real, cos: real -> real, sin: real -> real)
    requires n >= 1 && tol > 0.0 && cos(0.0) == 1.0 && sin(0.0) == 0.0
    ensures PixelValue(n, Roots(n, cos, sin), maxIter, tol, One) == Pixel(0, 0)
  {
    FirstRootIsOne(n, cos, sin);
    ExactRootPixel(n, Roots(n, cos, sin), maxIter, tol);
  }

  /**
   * Starting at the origin with n >= 2 the derivative is zero, so the
   * iteration stops at once: the point stays the origin and no step is counted.
   */
  lemma OriginStops(n: nat, maxIter: int, tol: real)
    requires n >= 2 && tol > 0.0
    ensures Newton(n, Zero, 0, maxIter, tol) == Orbit(Zero, 0)
  {
    DerivativeVanishesAtOrigin(n);
    ZeroBelow(tol);
  }

  /**
   * The complex point of pixel (col, row): xmin + col*(xmax-xmin)/width,
   * ymin + row*(ymax-ymin)/height.
   */
  function SamplePoint(width: nat, height: nat, xmin: real, xmax: real, ymin: real, ymax: real,
                       col: nat, row: nat): Complex
    requires col < width && row < height
  {
    Complex(xmin + col as real * ((xmax - xmin) / width as real),
            ymin + row as real * ((ymax - ymin) / height as real))
  }

  /** The kernel's `xmin + col * xstep` with `xstep = (xmax - xmin) / width` is the sample point. */
  lemma SampleFromSteps(width: nat, height: nat, xmin: real, xmax: real, ymin: real, ymax: real,
                        col: nat, row: nat, xstep: real, ystep: real)
    requires col < width && row < height
    requires xstep == (if width > 0 then (xmax - xmin) / width as real else 0.0)
    requires ystep == (if height > 0 then (ymax - ymin) / height as real else 0.0)
    ensures Complex(xmin + col as real * xstep, ymin + row as real * ystep)
         == SamplePoint(width, height, xmin, xmax, ymin, ymax, col, row)
  {
  }

  /** The kernel's parameters, as passed to computeNewtonFractal. */
  datatype Params = Params(n: nat, width: nat, height: nat, xmin: real, xmax: real, ymin: real, ymax: real,
                           maxIter: int, tolerance: real)

  /** The kernel's own precondition on its parameters. */
  predicate ValidParams(p: Params)
  {
    p.n >= 1 && p.tolerance > 0.0
  }

  /** The two buffer entries of one slot hold the value v. */
  predicate Stored(rootIndex: int, iterations: int, v: Pixel)
  {
    rootIndex == v.rootIndex && iterations == v.iterations
  }

  /** What the kernel stores for the pixel in column col of row row, given the roots it classifies against. */
  function CellAt(p: Params, roots: seq<Complex>, row: nat, col: nat): Pixel
    requires ValidParams(p) && row < p.height && col < p.width
  {
    PixelValue(p.n, roots, p.maxIter, p.tolerance,
               SamplePoint(p.width, p.height, p.xmin, p.xmax, p.ymin, p.ymax, col, row))
  }

  /** What the kernel stores in slot i of its two output buffers: the value of the cell the slot belongs to. */
  function FractalAt(p: Params, roots: seq<Complex>, i: nat): Pixel
    requires ValidParams(p) && i < p.width * p.height
  {
    RowMajor.SlotInGrid(p.width, p.height, i);
    CellAt(p, roots, i / p.width, i % p.width)
  }

  /**
   * Cell (col, row) of the grid owns slot row*width+col, which lies inside the
   * buffers, and what is stored there is the value of that cell alone.
   */
  lemma SlotOfCell(p: Params, roots: seq<Complex>, row: nat, col: nat)
    requires ValidParams(p) && row < p.height && col < p.width
    ensures row * p.width + col < p.width * p.height
    ensures FractalAt(p, roots, row * p.width + col) == CellAt(p, roots, row, col)
  {
    RowMajor.IndexInGrid(p.width, p.height, row, col);
    RowMajor.IndexDecompose(p.width, row, col);
  }

  /** The values of columns 0 .. c-1 of row `row`, in the order the kernel produces them. */
  function RowCells(p: Params, roots: seq<Complex>, row: nat, c: nat): (cells: seq<Pixel>)
    requires ValidParams(p) && row < p.height && c <= p.width
    ensures |cells| == c
  {
    if c == 0 then [] else RowCells(p, roots, row, c - 1) + [CellAt(p, roots, row, c - 1)]
  }

  /** The values of rows 0 .. r-1, in the order the kernel produces them. */
  function GridCells(p: Params, roots: seq<Complex>, r: nat): (cells: seq<Pixel>)
    requires ValidParams(p) && r <= p.height
    ensures |cells| == r * p.width
  {
    if r == 0 then [] else GridCells(p, roots, r - 1) + RowCells(p, roots, r - 1, p.width)
  }

  /** Entry c of a row's values is the value of column c. */
  lemma {:induction false} RowCellsAt(p: Params, roots: seq<Complex>, row: nat, c: nat, col: nat)
    requires ValidParams(p) && row < p.height && c <= p.width && col < c
    ensures RowCells(p, roots, row, c)[col] == CellAt(p, roots, row, col)
    decreases c
  {
    if col < c - 1 {
      RowCellsAt(p, roots, row, c - 1, col);
    }
  }

  /**
   * Slot row*width+col of the produced values holds the value of cell (col,
   * row); in particular slots of different cells are different.
   */
  lemma {:induction false} GridCellsAt(p: Params, roots: seq<Complex>, r: nat, row: nat, col: nat)
    requires ValidParams(p) && r <= p.height && row < r && col < p.width
    ensures row * p.width + col < |GridCells(p, roots, r)|
    ensures GridCells(p, roots, r)[row * p.width + col] == CellAt(p, roots, row, col)
    decreases r
  {
    // which value a cell holds plays no part here
    hide CellAt;
    var prefix := GridCells(p, roots, r - 1);
    if row < r - 1 {
      GridCellsAt(p, roots, r - 1, row, col);
      RowMajor.IndexInGrid(p.width, r - 1, row, col);
    } else {
      assert |prefix| == row * p.width;
      RowCellsAt(p, roots, row, p.width, col);
    }
  }

  /**
   * Buffers holding the produced values of the whole grid hold, in every
   * slot, the value the kernel stores there.
   */
  lemma GridStored(p: Params, roots: seq<Complex>, cells: seq<Pixel>, rootIdx: array<int>, itCounts: array<int>)
    requires ValidParams(p) && cells == GridCells(p, roots, p.height)
    requires |cells| <= rootIdx.Length && |cells| <= itCounts.Length
    requires forall i :: 0 <= i < |cells| ==> rootIdx[i] == cells[i].rootIndex && itCounts[i] == cells[i].iterations
    ensures forall i :: 0 <= i < p.width * p.height ==> Stored(rootIdx[i], itCounts[i], FractalAt(p, roots, i))
  {
    // which value a cell holds plays no part here
    hide CellAt;
    RowMajor.MulCommutes(p.height, p.width);
    forall i | 0 <= i < p.width * p.height
      ensures Stored(rootIdx[i], itCounts[i], FractalAt(p, roots, i))
    {
      RowMajor.SlotInGrid(p.width, p.height, i);
      GridCellsAt(p, roots, p.height, i / p.width, i % p.width);
    }
  }

  /**
   * One pass of the kernel's inner loop: stepping from xmin by col*xstep and
   * from ymin by row*ystep, iterating and classifying yields the cell's value.
   */
  lemma CellValue(p: Params, roots: seq<Complex>, row: nat, col: nat,
                  xstep: real, ystep: real, rootIndex: int, iter: nat)
    requires ValidParams(p) && row < p.height && col < p.width
    requires xstep == (if p.width > 0 then (p.xmax - p.xmin) / p.width as real else 0.0)
    requires ystep == (if p.height > 0 then (p.ymax - p.ymin) / p.height as real else 0.0)
    requires Pixel(rootIndex, iter)
          == PixelValue(p.n, roots, p.maxIter, p.tolerance, Complex(p.xmin + col as real * xstep, p.ymin + row as real * ystep))
    ensures Pixel(rootIndex, iter) == CellAt(p, roots, row, col)
  {
    SampleFromSteps(p.width, p.height, p.xmin, p.xmax, p.ymin, p.ymax, col, row, xstep, ystep);
  }

  /**
   * The inner loop of computeNewtonFractal, over the columns of one row: it
   * writes slots row*width .. row*width+width-1 of both buffers, in that
   * order, and no other slot. `rowCells` are the values written and
   * `rowOrder` the slots, in order.
   */
  method ComputeRow(p: Params, roots: seq<Complex>, xstep: real, ystep: real, row: nat,
                    rootIdx: array<int>, itCounts: array<int>)
    returns (ghost rowCells: seq<Pixel>, ghost rowOrder: seq<nat>)
    requires ValidParams(p) && row < p.height
    requires xstep == (if p.width > 0 then (p.xmax - p.xmin) / p.width as real else 0.0)
    requires ystep == (if p.height > 0 then (p.ymax - p.ymin) / p.height as real else 0.0)
    requires row * p.width + p.width <= rootIdx.Length && row * p.width + p.width <= itCounts.Length
    requires rootIdx != itCounts
    modifies rootIdx, itCounts
    ensures rowCells == RowCells(p, roots, row, p.width)
    ensures rowOrder == RowMajor.Span(row * p.width, p.width)
    ensures forall c :: 0 <= c < p.width ==>
              rootIdx[row * p.width + c] == rowCells[c].rootIndex && itCounts[row * p.width + c] == rowCells[c].iterations
    ensures forall i :: 0 <= i < rootIdx.Length && !(row * p.width <= i < row * p.width + p.width) ==>
              rootIdx[i] == old(rootIdx[i])
    ensures forall i :: 0 <= i < itCounts.Length && !(row * p.width <= i < row * p.width + p.width) ==>
              itCounts[i] == old(itCounts[i])
  {
    // the proof never needs to see how a single pixel is computed
    hide PixelValue, CellAt;
    rowCells, rowOrder := [], [];
    var col := 0;
    while col < p.width
      invariant 0 <= col <= p.width
      invariant rowCells == RowCells(p, roots, row, col)
      invariant rowOrder == RowMajor.Span(row * p.width, col)
      invariant forall c :: 0 <= c < col ==>
                  rootIdx[row * p.width + c] == rowCells[c].rootIndex && itCounts[row * p.width + c] == rowCells[c].iterations
      invariant forall i :: 0 <= i < rootIdx.Length && !(row * p.width <= i < row * p.width + col) ==>
                  rootIdx[i] == old(rootIdx[i])
      invariant forall i :: 0 <= i < itCounts.Length && !(row * p.width <= i < row * p.width + col) ==>
                  itCounts[i] == old(itCounts[i])
    {
      var curx := p.xmin + col as real * xstep;
      var cury := p.ymin + row as real * ystep;
      var rootIndex, iter := ComputePixel(p.n, roots, p.maxIter, p.tolerance, Complex(curx, cury));
      var index := row * p.width + col;
      CellValue(p, roots, row, col, xstep, ystep, rootIndex, iter);
      rootIdx[index] := rootIndex;
      itCounts[index] := iter;
      rowCells := rowCells + [Pixel(rootIndex, iter)];
      rowOrder := rowOrder + [index];
      col := col + 1;
    }
  }

  /**
   * computeNewtonFractal: writes slot row*width+col of both caller-owned
   * buffers, for every row < height and col < width, with the value of that
   * cell alone, and leaves every other slot alone. `writeOrder` lists the
   * slots in the order they are written: each of 0 .. width*height-1 once,
   * in row-major order.
   */
  method ComputeNewtonFractal(n: nat, width: nat, height: nat, xmin: real, xmax: real, ymin: real, ymax: real,
                              maxIter: int, tolerance: real, cos: real -> real, sin: real -> real,
                              rootIdx: array<int>, itCounts: array<int>)
    returns (ghost writeOrder: seq<nat>)
    requires n >= 1 && tolerance > 0.0
    requires width * height <= rootIdx.Length && width * height <= itCounts.Length
    requires rootIdx != itCounts
    modifies rootIdx, itCounts
    ensures writeOrder == RowMajor.Span(0, width * height)
    ensures forall i :: 0 <= i < width * height ==>
              Stored(rootIdx[i], itCounts[i],
                     FractalAt(Params(n, width, height, xmin, xmax, ymin, ymax, maxIter, tolerance), Roots(n, cos, sin), i))
    ensures forall i :: width * height <= i < rootIdx.Length ==> rootIdx[i] == old(rootIdx[i])
    ensures forall i :: width * height <= i < itCounts.Length ==> itCounts[i] == old(itCounts[i])
  {
    // the proof never needs to see how a single pixel, a row or a run of slots is made up
    hide PixelValue, CellAt, FractalAt, RowCells, RowMajor.Span;
    var p := Params(n, width, height, xmin, xmax, ymin, ymax, maxIter, tolerance);
    // the values stored so far, slot by slot
    ghost var cells: seq<Pixel> := [];
    // the steps are only used when the grid has a column (resp. a row)
    var xstep := if width > 0 then (xmax - xmin) / width as real else 0.0;
    var ystep := if height > 0 then (ymax - ymin) / height as real else 0.0;
    var roots := FindRoots(n, cos, sin);
    writeOrder := [];
    var row := 0;
    while row < height
      invariant 0 <= row <= height
      invariant row * width <= height * width
      invariant cells == GridCells(p, roots, row) && writeOrder == RowMajor.Span(0, row * width)
      invariant forall i :: 0 <= i < |cells| ==> rootIdx[i] == cells[i].rootIndex && itCounts[i] == cells[i].iterations
      invariant forall i :: |cells| <= i < rootIdx.Length ==> rootIdx[i] == old(rootIdx[i])
      invariant forall i :: |cells| <= i < itCounts.Length ==> itCounts[i] == old(itCounts[i])
    {
      RowMajor.MulMonotone(row + 1, height, width);
      RowMajor.MulCommutes(height, width);
      assert row * width + width == (row + 1) * width;
      ghost var rowCells, rowOrder;
      label BeforeRow:
      rowCells, rowOrder := ComputeRow(p, roots, xstep, ystep, row, rootIdx, itCounts);
      RowMajor.SpanAppend(0, row * width, width);
      forall i | 0 <= i < |cells| + width
        ensures rootIdx[i] == (cells + rowCells)[i].rootIndex && itCounts[i] == (cells + rowCells)[i].iterations
      {
        if i < |cells| {
          assert rootIdx[i] == old@BeforeRow(rootIdx[i]) && itCounts[i] == old@BeforeRow(itCounts[i]);
        } else {
          assert i == row * width + (i - |cells|);
        }
      }
      cells := cells + rowCells;
      writeOrder := writeOrder + rowOrder;
      row := row + 1;
    }
    RowMajor.MulCommutes(height, width);
    GridStored(p, roots, cells, rootIdx, itCounts);
  }
}
