# Newton's fractal, modelled in Dafny

The program draws the Newton fractal of z^n - 1. It places a width x
height grid of sample points over a rectangle of the complex plane. From
each point it runs Newton's method until |f(z)| or |f'(z)| falls below a
tolerance, or an iteration budget runs out. It then records two numbers per
pixel: the index of the nearest n-th root of unity within tolerance (-1 for
none), and the number of steps taken. Those two numbers pick a palette
colour and how transparent it is. The picture is then shown in a window or
saved as a 24-bit BMP file. The program's behaviour comes from its command
line.

The model has one module per part of the program:

- `ComplexNumbers` (complex.dfy): the `std::complex<double>` operations the
  kernel uses, over `real`.
  - It covers addition, subtraction, multiplication and division (with its
    inverse property), and integer powers as repeated multiplication.
  - It compares magnitudes without a square root: |w| < t is stated as
    |w|^2 < t^2, and `MagnitudeComparisons` shows this agrees with any
    non-negative m for which m*m = |w|^2.
- `Fractal` (fractal.dfy): `getNormal`, `getDerivative`, `findRoots` and
  `computeNewtonFractal`.
  - The three loops of the kernel become methods proved against functions:
    `NewtonIterate` against `Newton`, `NearestRoot` against `Nearest`, and
    the two grid loops against `FractalAt`.
  - The output buffers are `array<int>` written in place.
  - A ghost write order shows that each slot below width*height is written
    exactly once, in row-major order, and that nothing beyond it changes.
- `RowMajor` (rowmajor.dfy): the index arithmetic `row * width + col`.
- `Image` (image.dfy): `saveImageBMP`. The file is the sequence of bytes
  written to it.
  - The two headers and the pixel buffer are arrays filled by index, as in
    the source.
  - `SaveImageBMP` returns either those bytes or the size-mismatch error.
  - The pixel rows are stored packed, with no padding of a row to a multiple
    of four bytes. The buffer is width*height*4 bytes, and its last
    width*height bytes stay zero. The model keeps this layout as written.
- `CommandLine` (commandline.dfy): `Config` and `parseArgs`.
  - Arguments are a sequence of strings whose element 0 is the program name.
  - `std::stoi` and `std::stod` are function parameters that return `None`
    where the call would throw.
  - A thrown `std::invalid_argument` becomes a `Failure` carrying a
    `ParseError`. `--help`/`-h` in first position becomes the command
    `ShowHelp`.
- `Coloring` (coloring.dfy): the palette and the framebuffer loop of `main`.
- `Raylib` (raylib.dfy) and `Wrappers` (wrappers.dfy): `Color`, `BLACK`,
  `Option` and `Result`.

Doubles are modelled as mathematical reals (see "Left out"). `cos` and
`sin` are parameters of `findRoots`. Where a property needs them,
cos(0) = 1 and sin(0) = 0 are stated as assumptions on those parameters.

## Model

| member | source | states |
|---|---|---|
| ComplexNumbers.Sub | compute/Fractal.cpp:14 | the difference d of a and b is the number that added to b gives a back |
| ComplexNumbers.Mul | compute/Fractal.cpp:22 | the complex product (a.re*b.re - a.im*b.im, a.re*b.im + a.im*b.re) of `*`, also the step of `Pow` |
| ComplexNumbers.NormSq | compute/Fractal.cpp:74 | the squared magnitude re^2 + im^2 that `std::abs` is the square root of; it is never negative |
| ComplexNumbers.Div | compute/Fractal.cpp:79 | for a divisor of non-zero magnitude, the quotient times the divisor is the dividend |
| ComplexNumbers.Pow | compute/Fractal.cpp:14 | `std::pow(z, n)` with a natural exponent, as repeated multiplication: z^0 = 1 and z^(k+1) = z * z^k, exactly |
| ComplexNumbers.PowOne | compute/Fractal.cpp:14 | every power of 1 is 1 |
| ComplexNumbers.ExceedsSq | compute/Fractal.cpp:90 | `rootDist > tolerance` stated on the squared distance s: a negative tolerance is always exceeded, otherwise tolerance^2 < s |
| ComplexNumbers.AbsLess | compute/Fractal.cpp:74 | `std::abs(w) < tolerance`: a positive tolerance with abs(w)^2 below its square |
| ComplexNumbers.AbsGreater | compute/Fractal.cpp:89-90 | `abs(w) > tolerance`, as ExceedsSq of abs(w)^2 |
| ComplexNumbers.MagnitudeComparisons | compute/Fractal.cpp:74 | the squared comparisons agree with comparing the magnitude itself, strictly below and strictly above the tolerance |
| ComplexNumbers.NotAbsLessNonZero | compute/Fractal.cpp:74-79 | a number whose magnitude is not below a positive tolerance is non-zero, so dividing by it is defined |
| Fractal.Normal | compute/Fractal.cpp:12-15 | getNormal: f(z) = z^n - 1, the power being `Pow` |
| Fractal.Derivative | compute/Fractal.cpp:20-23 | getDerivative: f'(z) = (n, 0) * z^(n-1), for n >= 1 |
| Fractal.OneIsRoot | compute/Fractal.cpp:12-15 | f(1) = 1^n - 1 is zero |
| Fractal.DerivativeVanishesAtOrigin | compute/Fractal.cpp:20-23 | for n >= 2, f'(0) = n * 0^(n-1) is zero |
| Fractal.RootAngle | compute/Fractal.cpp:32 | the angle 2*pi*k/n of root k, with pi as the decimal 3.141592653589793 |
| Fractal.Roots | compute/Fractal.cpp:25-35 | exactly n roots are produced |
| Fractal.FindRoots | compute/Fractal.cpp:25-35 | the loop yields n roots, root k being (cos(2*pi*k/n), sin(2*pi*k/n)) |
| Fractal.FirstRootIsOne | compute/Fractal.cpp:30-33 | root 0 is (1, 0) when cos(0) = 1 and sin(0) = 0 |
| Fractal.Settled | compute/Fractal.cpp:74 | the break test: abs(f(z)) < tolerance or abs(f'(z)) < tolerance, compared on squares |
| Fractal.UnsettledDerivativeNonZero | compute/Fractal.cpp:74-79 | when the loop does not break, f'(z) is non-zero, so the Newton step is defined |
| Fractal.NewtonStep | compute/Fractal.cpp:79-80 | for a point that has not settled, the next point z - f(z)/f'(z); f'(z) is non-zero there, so the division is defined |
| Fractal.Newton | compute/Fractal.cpp:66-82 | the while loop as recursion from a point and a count: stop with both when the count has reached maxIter or the point has settled, otherwise take one Newton step and add one to the count |
| Fractal.NewtonBounds | compute/Fractal.cpp:66-82 | the count never decreases and ends at most at maxIter (or where it started, if that is already past maxIter) |
| Fractal.SettledStaysPut | compute/Fractal.cpp:74-77 | once abs(f(z)) or abs(f'(z)) is below tolerance the loop exits without a step: point and count are unchanged |
| Fractal.NewtonIterate | compute/Fractal.cpp:66-82 | the while loop ends at the orbit Newton describes, with a count between 0 and max(maxIter, 0) |
| Fractal.DistSq | compute/Fractal.cpp:89 | the squared distance abs(z - roots[k])^2 |
| Fractal.Within | compute/Fractal.cpp:89-93 | root k survives the `rootDist > tolerance` skip: `AbsGreater` does not hold of z - roots[k] |
| Fractal.Nearest | compute/Fractal.cpp:85-99 | the index is -1 or a root index, and a root index is always of a root within tolerance |
| Fractal.NearestIsNearest | compute/Fractal.cpp:89-98 | -1 exactly when no root is within tolerance; otherwise the root is within tolerance, no root is strictly closer, and no earlier root is equally close (ties go to the lowest index) |
| Fractal.NearestAmongUnique | compute/Fractal.cpp:89-98 | the classification above determines a single index |
| Fractal.NearestRoot | compute/Fractal.cpp:85-99 | the min-search loop returns that nearest index |
| Fractal.PixelValue | compute/Fractal.cpp:65-99 | the pair stored for sample point z: the index Nearest gives, over all the roots, for the point where the Newton orbit from z with count 0 stopped, and that orbit's count |
| Fractal.ComputePixel | compute/Fractal.cpp:65-99 | one pixel's root index and count are the Newton orbit from its sample point, then classified |
| Fractal.PixelBounds | compute/Fractal.cpp:66-99 | a stored root index lies in [-1, n) and a stored count in [0, max(maxIter, 0)] |
| Fractal.RootStops | compute/Fractal.cpp:69-77 | starting at (1, 0) the loop stops at once, with count 0 |
| Fractal.OriginStops | compute/Fractal.cpp:69-77 | for n >= 2, starting at 0 the loop stops at once, since f'(0) = 0 |
| Fractal.NearestOfFirstRoot | compute/Fractal.cpp:87-98 | a point at distance 0 from root 0 is classified as root 0, whatever the other roots are |
| Fractal.NotCloserKeepsBest | compute/Fractal.cpp:94-98 | a root no closer than the current best does not replace it (replacement needs strict <) |
| Fractal.ExactRootPixel | compute/Fractal.cpp:69-99 | sampling (1, 0) when root 0 is (1, 0) gives root index 0 and count 0 |
| Fractal.ExactRootOfUnityPixel | compute/Fractal.cpp:56-99 | with the roots findRoots produces, the pixel sampled at (1, 0) is root 0 after 0 iterations |
| Fractal.SamplePoint | compute/Fractal.cpp:53-63 | the sample point of pixel (col, row): (xmin + col*(xmax-xmin)/width, ymin + row*(ymax-ymin)/height) |
| Fractal.SampleFromSteps | compute/Fractal.cpp:53-65 | xmin + col*xstep and ymin + row*ystep are the sample point of (col, row), a function of that pixel and the parameters alone |
| Fractal.CellAt | compute/Fractal.cpp:58-99 | the pair the kernel computes for column col of row row: PixelValue at that cell's sample point |
| Fractal.FractalAt | compute/Fractal.cpp:101-103 | the pair stored in slot i below width*height: that of the cell in row i / width and column i % width |
| Fractal.SlotOfCell | compute/Fractal.cpp:101-103 | cell (col, row) owns slot row*width+col, which is inside the buffers and holds that cell's value |
| Fractal.RowCellsAt | compute/Fractal.cpp:60-103 | entry col of a row's values is the value of cell (col, row) |
| Fractal.GridCellsAt | compute/Fractal.cpp:58-103 | entry row*width+col of the grid's values is the value of cell (col, row) |
| Fractal.GridStored | compute/Fractal.cpp:101-103 | buffers holding the grid's values in row-major order hold FractalAt in every slot below width*height |
| Fractal.CellValue | compute/Fractal.cpp:62-65 | the value computed from the loop's running coordinates is the value of cell (col, row) |
| Fractal.ComputeRow | compute/Fractal.cpp:60-104 | one pass of the row loop writes exactly the slots of its row, in column order, with their cells' values, and no other slot |
| Fractal.ComputeNewtonFractal | compute/Fractal.cpp:42-106 | every slot i below width*height receives the value of its own pixel, the slots are written once each in the order 0, 1, ..., and slots beyond are unchanged |
| RowMajor.IndexInGrid | compute/Fractal.cpp:101 | row*width+col lies below width*height for every cell of the grid |
| RowMajor.SlotInGrid | compute/Fractal.cpp:101 | every slot below width*height is row*width+col for exactly row = i/width and col = i%width |
| RowMajor.SpanAppend | compute/Fractal.cpp:58-60 | the slots of the rows written so far, followed by the next row's, are the slots written so far plus that row |
| Image.ByteOf | export/Image.cpp:35-42 | `(unsigned char)(v >> 8k)`: v divided by 256 k times, then taken modulo 256 |
| Image.LE32 | export/Image.cpp:35-42 | the bytes of v for shifts 0, 8, 16 and 24, least significant first; there are always four |
| Image.FromLE32 | export/Image.cpp:35-42 | four bytes read little-endian stand for a value below 2^32 |
| Image.DecodeEncode | export/Image.cpp:35-42 | reading back the bytes (v >> 8k) & 0xFF of any value v gives v modulo 2^32 |
| Image.EncodeDecode | export/Image.cpp:35-42 | writing the value four bytes stand for gives the same four bytes |
| Image.RoundTrip32 | export/Image.cpp:35-42 | a uint32_t written as four bytes is read back unchanged |
| Image.FileSize | export/Image.cpp:25 | the `uint32_t` size field 14 + 40 + width*height*4: the sum modulo 2^32, so always below 2^32 |
| Image.FileHeader | export/Image.cpp:28-42 | the file header is 14 bytes |
| Image.DibHeader | export/Image.cpp:47-59 | the DIB header is 40 bytes |
| Image.FileHeaderLayout | export/Image.cpp:25-42 | bytes 0-1 are 'B','M'; bytes 2-5 read back as 54 + width*height*4 modulo 2^32; bytes 6-9 are zero; bytes 10-13 read back as 54 |
| Image.DibHeaderLayout | export/Image.cpp:47-59 | byte 0 is 40; bytes 4-7 and 8-11 read back as width and height; byte 12 is 1 and byte 14 is 24; every other byte is zero |
| Image.Scale | export/Image.cpp:74-77 | a channel scaled by alpha/255 never exceeds the channel, and alpha 255 leaves it as it is |
| Image.Channel | export/Image.cpp:71-82 | byte k of a pixel in file order: b for k = 0, g for k = 1, r for k = 2, each scaled by the pixel's alpha |
| Image.OpaqueExact | export/Image.cpp:74-77 | an opaque pixel is written with exactly its b, g, r |
| Image.SourceRow | export/Image.cpp:67 | output row y reads source row height-1-y, a row of the image |
| Image.SourceIndex | export/Image.cpp:67-71 | the source slot of output pixel (x, y) lies inside the framebuffer |
| Image.Flip | export/Image.cpp:65-71 | output pixel p, counted row by row, reads framebuffer slot `SourceIndex` of column p % width and output row p / width; the slot lies inside the framebuffer |
| Image.FlipInvolution | export/Image.cpp:65-71 | turning the rows upside down twice is the identity |
| Image.FlipBijective | export/Image.cpp:65-71 | the row reversal maps framebuffer slots onto framebuffer slots one-to-one, so every source pixel is read exactly once |
| Image.PixelByte | export/Image.cpp:64-82 | byte i of the buffer: below 3*width*height, channel i % 3 of the framebuffer pixel that output pixel i / 3 reads after the row flip; zero from there on |
| Image.PixelData | export/Image.cpp:64 | the pixel buffer is width*height*4 bytes long |
| Image.PixelByteAt | export/Image.cpp:71-82 | byte (y*width+x)*3+k of the buffer is channel k (B, G, R) of source pixel (x, height-1-y) |
| Image.PixelOffset | export/Image.cpp:79-82 | the buffer index (y*width+x)*3+k of channel k of output pixel (x, y), which lies below 3*width*height |
| Image.PixelLayout | export/Image.cpp:65-86 | in the file as written, byte 54 + (y*width+x)*3+k holds channel k (B, G, R) of source pixel (x, height-1-y) |
| Image.ZeroTail | export/Image.cpp:64-84 | bytes 3*width*height to 4*width*height-1 of the buffer are zero |
| Image.Encode | export/Image.cpp:24-86 | the file is 54 + width*height*4 bytes: header, DIB header, pixel buffer |
| Image.FileSizeIsLength | export/Image.cpp:25-86 | when it fits in 32 bits, the size recorded in the header is the number of bytes written |
| Image.SaveImageBMP | export/Image.cpp:11-87 | fails with the invalid-size error exactly when the framebuffer does not hold width*height pixels; otherwise the bytes written are the encoded file |
| Image.PutLE32 | export/Image.cpp:35-42 | four consecutive bytes receive (v >> 8k) & 0xFF and no other byte changes |
| Image.FillFileHeader | export/Image.cpp:24-42 | the filled 14-byte array is the file header |
| Image.HeaderBytes | export/Image.cpp:28-42 | fourteen bytes holding 'B','M', the size bytes, zeros and the offset bytes are the file header |
| Image.FillDibHeader | export/Image.cpp:46-59 | the filled 40-byte array is the DIB header |
| Image.DibBytes | export/Image.cpp:47-59 | forty bytes holding 40, width, height, 1 and 24 at their places and zero elsewhere are the DIB header |
| Image.FillPixels | export/Image.cpp:63-84 | the nested loop leaves the whole buffer equal to the pixel data |
| Image.FillRow | export/Image.cpp:69-83 | one pass of the row loop extends the written prefix by one output row and leaves the rest zero |
| CommandLine.DefaultConfig | main.cpp:36-47 | the default `Config{}`: n 5, size 1000 x 1000, viewport (-2, 2, -2, 2), 40 iterations, tolerance 0.0001, no file; it satisfies `Valid` |
| CommandLine.IsHelp | main.cpp:72 | the two spellings of the help request, `--help` and `-h` |
| CommandLine.Square | main.cpp:107-114 | the viewport `-v r` sets: -r to r on both axes |
| CommandLine.Accepted | main.cpp:88-139 | the acceptance rule flag by flag, independent of `ApplyFlag`: -n needs a converted value of at least 1, -s, -i and -t a converted value above 0, -v any converted value, -w any value; no other flag |
| CommandLine.ApplyFlag | main.cpp:88-139 | a pair is accepted exactly when it is one the flag-by-flag acceptance rule allows; a flag other than the six is an unknown argument |
| CommandLine.ParseFrom | main.cpp:78-140 | the for loop from position i with the configuration built so far: success with it once i is past the end, "Not enough arguments" when a flag has no value after it, otherwise the first error of the pair at i or the parse from i + 2 on |
| CommandLine.Parse | main.cpp:72-76 | the result is the help request exactly when argument 1 is --help or -h |
| CommandLine.ParseArgs | main.cpp:67-143 | the i += 2 loop computes the parse of the whole command line |
| CommandLine.NoArguments | main.cpp:36-47 | with no arguments the configuration is n 5, size 1000 x 1000, viewport (-2, 2, -2, 2), 40 iterations, tolerance 0.0001, no file |
| CommandLine.ParseSucceedsIff | main.cpp:78-140 | parsing succeeds exactly when the arguments form whole pairs and every pair is accepted, whatever was set before |
| CommandLine.CommandLineAccepted | main.cpp:67-143 | a command line without a help request is accepted exactly when its arguments form accepted pairs |
| CommandLine.ParseAppend | main.cpp:78-140 | appending arguments after whole pairs continues the parse from the configuration reached, or keeps the earlier error |
| CommandLine.DanglingFlag | main.cpp:78-83 | a flag in last position, with no value after it, gives "Not enough arguments" once the pairs before it were accepted |
| CommandLine.LastPairSets | main.cpp:78-140 | after a successful parse, the field a flag sets comes from the last pair with that flag; without such a pair it keeps its earlier value |
| CommandLine.LastPairWins | main.cpp:78-140 | the same for all six flags at once: a later occurrence overrides an earlier one, and unmentioned fields keep their defaults |
| CommandLine.ParseKeepsValid | main.cpp:88-135 | accepted pairs keep n >= 1, a square positive size, a positive iteration bound and tolerance, a viewport centred on 0, and an empty path without -w |
| CommandLine.ParsedConfigValid | main.cpp:67-143 | every configuration the command line yields has those properties, including the kernel's n >= 1 and tolerance > 0 (over the reals; NaN is not modelled) |
| CommandLine.ViewportUnchecked | main.cpp:107-114 | -v r gives the viewport (-r, r, -r, r) for any number r, zero and negative included |
| CommandLine.SinglePairErrors | main.cpp:88-139 | an unconvertible number, -n below 1, -s, -i or -t at or below 0, and an unknown flag are each refused with their own error |
| CommandLine.LateHelpIsUnknown | main.cpp:72-139 | -h after the first pair is not a help request but an unknown argument |
| Coloring.RootColor | main.cpp:181-185 | the colour has the red, green and blue of BLACK exactly when the pixel converged to no root (-1); a root index picks palette entry root % 12 |
| Coloring.PaletteDistinct | main.cpp:12-26 | `Palette` holds the twelve `Colors` entries in order, and these colours differ pairwise in red, green or blue, and none is black |
| Coloring.SameRootColor | main.cpp:181-185 | two pixels share red, green and blue exactly when neither converged, or both converged to roots equal modulo 12 |
| Coloring.AlphaLevel | main.cpp:188 | the level 255.0 - (255.0 / maxIterations) * iteration before the cast, over the reals |
| Coloring.AlphaLevelBounds | main.cpp:188 | within the iteration bound, 255 - (255/maxIterations)*iteration lies in [0, 255], so the cast is defined |
| Coloring.Alpha | main.cpp:188 | the level truncated by the `unsigned char` cast, which is defined because the level lies in [0, 255] within the bound |
| Coloring.AlphaExact | main.cpp:188 | the alpha is 255*(maxIterations - iteration)/maxIterations rounded down |
| Coloring.LevelAsQuotient | main.cpp:188 | the alpha level is the quotient 255*(maxIterations - iteration)/maxIterations |
| Coloring.AlphaEnds | main.cpp:188 | 0 iterations give alpha 255 and maxIterations iterations give alpha 0 |
| Coloring.AlphaFades | main.cpp:188 | more iterations never give a more opaque pixel |
| Coloring.PixelColor | main.cpp:181-190 | the colour `RootColor` picks for the root index, with its alpha replaced by `Alpha` of the count |
| Coloring.FillFramebuffer | main.cpp:176-191 | slot i of the framebuffer receives the colour of root index i with the alpha of iteration count i |
| Coloring.KernelOutputColorable | main.cpp:166-185 | the values the kernel stores satisfy what the framebuffer loop needs: root index at least -1, count within the bound |

## Left out

- Floating point. Doubles are reals, so `std::pow`, `std::abs`, `std::cos`
  and `std::sin` are exact.
  - The magnitude comparisons are made on squares.
  - `cos`/`sin` are parameters, and pi is the constant
    3.141592653589793.
  - NaN, infinities and rounding are not modelled.
- `minDist = DBL_MAX` is modelled as "no candidate yet". For a tolerance
  below DBL_MAX every distance within tolerance is below DBL_MAX, so the
  outcome is the same. The tolerance DBL_MAX itself (`-t
  1.7976931348623157e308` gets past the parser) is not modelled: a root at
  distance exactly DBL_MAX fails `rootDist < minDist` in the source but is
  kept by `Nearest`.
- Fractal.ComputeNewtonFractal: requires n >= 1 and tolerance > 0. Over the
  reals these are all the parser lets through (`ParsedConfigValid`). A NaN
  tolerance is not modelled: `-t nan` is converted by `std::stod` without
  a throw, and the check `NaN <= 0` is false, so the program passes it on.
  - For n <= 0 the source computes z^(n-1) with a negative exponent, and a
    length-n `roots.reserve` of a negative n.
  - For tolerance <= 0 it may divide by zero.
- Fractal.ComputeNewtonFractal: requires the two output buffers to be
  distinct arrays, as they are in the program. Aliasing between them is
  not modelled.
- Fractal.ComputeNewtonFractal: width and height are naturals.
  - The source's `int` arithmetic, and its overflow in `row * width + col`
    or `width * height`, are not modelled.
  - A negative width or height, which leaves the loops empty, is not
    modelled either.
- Image.SaveImageBMP: width and height are naturals.
  - The signed `int` overflow of `width * height * 4` is not modelled.
    The size field is the mathematical sum taken modulo 2^32.
  - The conversion of a negative `int` to `size_t` in the size check is
    not modelled.
- Image.Scale: is the exact floor of ch * alpha / 255. The source computes
  `c.r * (c.a / 255.0)` in doubles, whose rounding can give one less.
- Coloring.Alpha: the level 255 - (255/maxIterations)*iteration is computed
  exactly. Double rounding before the truncating cast is not modelled.
- Coloring.FillFramebuffer: requires
  - root indices of at least -1. `COLORS_SIZE` is a `size_t`, so for
    root < -1 the source's `root % COLORS_SIZE` first converts root to an
    unsigned 64-bit value (root -2 picks `Colors[(2^64 - 2) % 12]`, that is
    `Colors[2]`). The model does not reproduce this unsigned wrap-around;
    the kernel never stores such an index (`KernelOutputColorable`);
  - counts between 0 and maxIterations. The cast to `unsigned char` is
    defined whenever the truncated level fits, that is for levels in
    (-1, 256), so this asks for more than the cast needs. The kernel only
    produces such counts;
  - maxIterations >= 1.

  `KernelOutputColorable` and `ParsedConfigValid` show that the program
  meets these.
- `std::stoi` / `std::stod`: parsing prefixes, whitespace and range limits
  are not modelled. They are abstract partial functions, and a throw is
  `ConversionFailed`.
- `printHelp` output, the `std::exit` codes, the `std::cerr` messages, and
  the exception text of the parse errors: these are I/O and process
  plumbing. A `ParseError` names the reason and the offending argument.
- Opening and writing the file: `std::ofstream` creation and its failure
  (the "Could not create/open file" error) are I/O. The model returns the
  bytes that would be written, in order.
- The window display (`disp::Display`), the performance tests and the
  allocation of the three vectors in `main` are not modelled. The vectors
  appear only as the arrays and sequences the operations receive.
- Helper splits:
  - `ComputePixel` and `ComputeRow` are parts of `computeNewtonFractal`'s
    loop body.
  - `FillFileHeader`, `FillDibHeader`, `FillPixels`, `FillRow` and
    `PutLE32` are parts of `saveImageBMP`.

  These are not separate functions in the source.
