/**
 * How the program turns the kernel's output into pixels before showing or
 * saving them: the root a pixel converged to picks one of twelve palette
 * colours (black when it converged to none), and the number of iterations
 * it took fades that colour, from opaque at 0 iterations to transparent at
 * the iteration bound.
 */
module Coloring {
  import opened Raylib
  import Fractal
  import RowMajor
  import ComplexNumbers

  /** COLORS_SIZE: the number of palette entries. */
  const ColorsSize: nat := 12

  /** The palette, in order: red/pink, green, purple, yellow, blue, orange, cyan, magenta, lime, teal, violet, coral. */
  const Palette: seq<Color> := [
    Color(247, 45, 89, 255),
    Color(45, 247, 89, 255),
    Color(140, 15, 226, 255),
    Color(188, 188, 5, 255),
    Color(15, 140, 226, 255),
    Color(255, 147, 0, 255),
    Color(0, 255, 255, 255),
    Color(255, 0, 255, 255),
    Color(191, 255, 0, 255),
    Color(0, 128, 128, 255),
    Color(128, 0, 255, 255),
    Color(255, 99, 71, 255)
  ]

  /** The colour picked for a root index before the alpha is set: BLACK for -1, otherwise the palette, cyclically. */
  function RootColor(root: int): (c: Color)
    requires root >= -1
    ensures SameRgb(c, BLACK) <==> root == -1
  {
    if root == -1 then BLACK
    else
      PaletteDistinct(root % ColorsSize, 0);
      Palette[root % ColorsSize]
  }

  /** The palette entries differ pairwise in red, green or blue, and none of them is black. */
  lemma PaletteDistinct(i: nat, j: nat)
    requires i < |Palette| && j < |Palette|
    ensures SameRgb(Palette[i], Palette[j]) <==> i == j
    ensures !SameRgb(Palette[i], BLACK)
  {
  }

  /**
   * Two pixels get the same red, green and blue exactly when both converged
   * to no root, or both converged to roots whose indices agree modulo 12.
   */
  lemma SameRootColor(root1: int, root2: int)
    requires root1 >= -1 && root2 >= -1
    ensures SameRgb(RootColor(root1), RootColor(root2)) <==>
              (root1 == -1 && root2 == -1) || (root1 >= 0 && root2 >= 0 && root1 % ColorsSize == root2 % ColorsSize)
  {
    if root1 >= 0 {
      PaletteDistinct(root1 % ColorsSize, 0);
    }
    if root2 >= 0 {
      PaletteDistinct(root2 % ColorsSize, 0);
    }
    if root1 >= 0 && root2 >= 0 {
      PaletteDistinct(root1 % ColorsSize, root2 % ColorsSize);
    }
  }

  /** 255.0 - (255.0 / maxIterations) * iteration, computed exactly. */
  function AlphaLevel(maxIterations: int, iteration: int): real
    requires maxIterations >= 1
  {
    255.0 - (255.0 / maxIterations as real) * iteration as real
  }

  /** Within the iteration bound the level lies between 0 and 255, so the cast to unsigned char is defined. */
  lemma AlphaLevelBounds(maxIterations: int, iteration: int)
    requires maxIterations >= 1 && 0 <= iteration <= maxIterations
    ensures 0.0 <= AlphaLevel(maxIterations, iteration) <= 255.0
  {
    var step := 255.0 / maxIterations as real;
    assert step * maxIterations as real == 255.0;
    assert step * iteration as real <= step * maxIterations as real;
  }

  /** The alpha of a pixel: the level truncated to unsigned char. */
  function Alpha(maxIterations: int, iteration: int): byte
    requires maxIterations >= 1 && 0 <= iteration <= maxIterations
  {
    AlphaLevelBounds(maxIterations, iteration);
    AlphaLevel(maxIterations, iteration).Floor
  }

  /** The alpha in whole numbers: 255 * (maxIterations - iteration) / maxIterations, rounded down. */
  lemma AlphaExact(maxIterations: int, iteration: int)
    requires maxIterations >= 1 && 0 <= iteration <= maxIterations
    ensures Alpha(maxIterations, iteration) == 255 * (maxIterations - iteration) / maxIterations
  {
    LevelAsQuotient(maxIterations, iteration);
    FloorOfQuotient(255 * (maxIterations - iteration), maxIterations);
  }

  /** The level is the quotient 255 * (maxIterations - iteration) / maxIterations over the reals. */
  lemma LevelAsQuotient(maxIterations: int, iteration: int)
    requires maxIterations >= 1
    ensures AlphaLevel(maxIterations, iteration) == (255 * (maxIterations - iteration)) as real / maxIterations as real
  {
    var m := maxIterations as real;
    assert (255.0 / m) * iteration as real == 255.0 * iteration as real / m;
    assert 255.0 == 255.0 * m / m;
  }

  /** Rounding a quotient of naturals down is integer division. */
  lemma FloorOfQuotient(a: int, d: int)
    requires a >= 0 && d >= 1
    ensures (a as real / d as real).Floor == a / d
  {
    var q, r := a / d, a % d;
    assert a as real == q as real * d as real + r as real;
    assert a as real / d as real == q as real + r as real / d as real;
    assert 0.0 <= r as real / d as real < 1.0;
  }

  /** No iterations leave a colour opaque; using up the whole bound makes it transparent. */
  lemma AlphaEnds(maxIterations: int)
    requires maxIterations >= 1
    ensures Alpha(maxIterations, 0) == 255
    ensures Alpha(maxIterations, maxIterations) == 0
  {
    AlphaExact(maxIterations, 0);
    AlphaExact(maxIterations, maxIterations);
  }

  /** More iterations never give a more opaque pixel. */
  lemma AlphaFades(maxIterations: int, iteration1: int, iteration2: int)
    requires maxIterations >= 1 && 0 <= iteration1 <= iteration2 <= maxIterations
    ensures Alpha(maxIterations, iteration2) <= Alpha(maxIterations, iteration1)
  {
    var step := 255.0 / maxIterations as real;
    assert step >= 0.0;
    assert step * iteration1 as real <= step * iteration2 as real;
  }

  /** The colour of one pixel of the framebuffer. */
  function PixelColor(root: int, iteration: int, maxIterations: int): Color
    requires root >= -1 && maxIterations >= 1 && 0 <= iteration <= maxIterations
  {
    RootColor(root).(a := Alpha(maxIterations, iteration))
  }

  /**
   * The framebuffer loop of main: slot i of the framebuffer receives the
   * colour of root index i and iteration count i.
   */
  method FillFramebuffer(width: nat, height: nat, maxIterations: int,
                         rootIndices: seq<int>, iterationCounts: seq<int>, framebuffer: array<Color>)
    requires |rootIndices| == width * height && |iterationCounts| == width * height
    requires framebuffer.Length == width * height
    requires maxIterations >= 1
    requires forall i :: 0 <= i < |rootIndices| ==> rootIndices[i] >= -1
    requires forall i :: 0 <= i < |iterationCounts| ==> 0 <= iterationCounts[i] <= maxIterations
    modifies framebuffer
    ensures forall i :: 0 <= i < framebuffer.Length ==>
              framebuffer[i] == PixelColor(rootIndices[i], iterationCounts[i], maxIterations)
  {
    var i := 0;
    while i < width * height
      invariant 0 <= i <= width * height
      invariant forall j :: 0 <= j < i ==> framebuffer[j] == PixelColor(rootIndices[j], iterationCounts[j], maxIterations)
    {
      var root := rootIndices[i];
      var iteration := iterationCounts[i];
      var pixelColor := BLACK;
      if root != -1 {
        pixelColor := Palette[root % ColorsSize];
      }
      pixelColor := pixelColor.(a := Alpha(maxIterations, iteration));
      framebuffer[i] := pixelColor;
      i := i + 1;
    }
  }

  /** Every slot the fractal kernel fills holds a root index and an iteration count that FillFramebuffer accepts. */
  lemma KernelOutputColorable(p: Fractal.Params, roots: seq<ComplexNumbers.Complex>, i: nat)
    requires Fractal.ValidParams(p) && p.maxIter >= 1 && i < p.width * p.height
    ensures -1 <= Fractal.FractalAt(p, roots, i).rootIndex < |roots|
    ensures Fractal.FractalAt(p, roots, i).iterations <= p.maxIter
  {
    RowMajor.SlotInGrid(p.width, p.height, i);
    var row, col := i / p.width, i % p.width;
    Fractal.PixelBounds(p.n, roots, p.maxIter, p.tolerance,
                        Fractal.SamplePoint(p.width, p.height, p.xmin, p.xmax, p.ymin, p.ymax, col, row));
  }
}
