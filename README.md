# Photometric-stereo and camera-calibration helpers of AliceVision, in Dafny

This project models the small discrete helpers around two AliceVision tools, and
proves properties of them.

- `PhotometricDataIO` (`photometric_data_io.dfy`) covers the masked pixel selection
  and column-major flattening of `photometricDataIO.cpp`:
  - `getIndMask`;
  - both `image2PsMatrix` overloads;
  - `reshapeInImage`;
  - `intensityScaling`;
  - the 1×1 "no mask" sentinel that `loadMask` produces when the mask file is missing.

  One specification function, `Picks`, lists the selected pixels in the order the
  loops visit them: column outer, row inner. The index list, the compacted matrix
  and the round trip are all stated against it.
- `PhotometricStereo` (`photometric_stereo.dfy`) covers the robust-estimation
  helpers of `photometricStereo.cpp`:
  - `shrink`, the element-wise soft threshold;
  - `median`, which copies, sorts and reads the middle;
  - `compareFunction`, the string `<`.
- `CameraCalibration` (`camera_calibration.dfy`) covers the helpers of
  `main_cameraCalibration.cpp`:
  - `getFilename`;
  - `calcChessboardCorners`;
  - the `Pattern` parser `operator>>`;
  - the rule in `main` that turns `--nRadialCoef` into OpenCV calibration flags.
- `Arithmetic` (`arithmetic.dfy`) holds the two facts about products of naturals that the position proofs of `PhotometricDataIO` and `CameraCalibration` share.

## Representation

- **Images.**
  - A single-channel image or mask that the code only reads is a `GreyImage` value: its extent plus a function from (row, column) to value.
  - Every RGB image is an `array3<real>` indexed [row, column, channel], with three channels. This covers both the image `image2PsMatrix` only reads and the image that `intensityScaling` and `reshapeInImage` update in place.
  - Eigen matrices are `array2<real>`. Eigen vectors are `array<real>`.
  - The matrix passed to `median` is only read. It is the `seq<real>` of its coefficients.
- **Numbers and strings.** `float` is `real`. `std::string` is `seq<char>`. The `int flags` of `main` is a `bv32`.
- **Exceptions.** A thrown exception is a `Failure` value that carries the exception's class and message.
- **Output parameters.**
  - The output vector of `getIndMask` (`std::vector&`) is passed in as a sequence. It is returned with the new positions appended.
  - `calcChessboardCorners` empties its output vector first (`resize(0)`). So `CalcChessboardCorners` takes no vector and returns the one its `push_back` calls build from empty.
- **`median` and `std::sort`.** `median`'s `std::sort` is modelled by an in-place insertion sort on the copied array. It is proved sorted and a permutation, and therefore equal to `SortSeq`.
- **OpenCV flag values.** They come from OpenCV's calibration header, which is not part of this model:
  - `CV_CALIB_ZERO_TANGENT_DIST` = 8;
  - `CV_CALIB_FIX_K1..K3` = 32, 64, 128;
  - `CV_CALIB_FIX_K4..K6` = 2048, 4096, 8192.

## Model

| member | source | states |
|---|---|---|
| PhotometricDataIO.NoMaskSentinel | src/aliceVision/photometricStereo/photometricDataIO.cpp:173-179 | with no mask file the mask becomes 1×1 holding 1, which the selection reads as "no mask" |
| PhotometricDataIO.ColumnPicks | src/aliceVision/photometricStereo/photometricDataIO.cpp:194-196 | the pixels selected in one column all lie in that column, above the row bound |
| PhotometricDataIO.Picks | src/aliceVision/photometricStereo/photometricDataIO.cpp:192-196 | every selected pixel lies inside the scanned rows × columns |
| PhotometricDataIO.GetIndMask | src/aliceVision/photometricStereo/photometricDataIO.cpp:187-203 | the earlier contents of `indexes` are kept, followed by the position j·rows+i of each pixel whose mask value exceeds 0.7, in column-outer, row-inner order |
| PhotometricDataIO.IntensityScaling | src/aliceVision/photometricStereo/photometricDataIO.cpp:205-220 | channel ch of every pixel is divided by intensities[ch]; the extent is unchanged |
| PhotometricDataIO.Image2PsMatrix | src/aliceVision/photometricStereo/photometricDataIO.cpp:222-243 | column n receives the three channels of the n-th selected pixel (every pixel with the 1×1 sentinel); all other cells, including the columns past the selected count, keep their values |
| PhotometricDataIO.PlaceColumn | src/aliceVision/photometricStereo/photometricDataIO.cpp:230-243 | one pass of the column loop places column j's selected pixels right after those of the earlier columns, at their positions in the whole selection |
| PhotometricDataIO.PackColumn | src/aliceVision/photometricStereo/photometricDataIO.cpp:232-242 | the row loop writes the selected pixels of one column into consecutive columns from `index` on and advances `index` by their number |
| PhotometricDataIO.CopyPixel | src/aliceVision/photometricStereo/photometricDataIO.cpp:236-239 | the channel loop copies the three channels of one pixel into one column and nothing else |
| PhotometricDataIO.Image2PsVector | src/aliceVision/photometricStereo/photometricDataIO.cpp:246-264 | a selected pixel (i, j) is written at its own position j·rows+i (no compaction); rejected pixels' positions and positions past the image keep their old values |
| PhotometricDataIO.ReshapeInImage | src/aliceVision/photometricStereo/photometricDataIO.cpp:267-283 | pixel (i, j), channel ch, receives matrix entry (ch, j·rows+i) for every pixel and channel |
| PhotometricDataIO.FlattenThenReshape | src/aliceVision/photometricStereo/photometricDataIO.cpp:267-283 | without a mask, `image2PsMatrix` followed by `reshapeInImage` into an image of the same size gives back the original image |
| PhotometricDataIO.ColumnPicksMember | src/aliceVision/photometricStereo/photometricDataIO.cpp:194-196 | a pixel is selected in its column exactly when it is above the row bound and kept by the mask |
| PhotometricDataIO.PicksMember | src/aliceVision/photometricStereo/photometricDataIO.cpp:192-200 | the selection holds exactly the in-image pixels the mask keeps: both directions |
| PhotometricDataIO.ColumnPicksPrefix | src/aliceVision/photometricStereo/photometricDataIO.cpp:194-201 | the pixels selected in the first rows of a column are a prefix of the column's selection |
| PhotometricDataIO.PicksPrefix | src/aliceVision/photometricStereo/photometricDataIO.cpp:192-201 | everything selected before pixel (i, j) in the scan is a prefix of the whole selection |
| PhotometricDataIO.ColumnPicksOrdered | src/aliceVision/photometricStereo/photometricDataIO.cpp:194-196 | a column lists its selected pixels by strictly increasing row |
| PhotometricDataIO.PicksOrdered | src/aliceVision/photometricStereo/photometricDataIO.cpp:192-196 | the selection is in strictly increasing column-major scan order, with no pixel twice |
| PhotometricDataIO.MaskIndicesIncreasing | src/aliceVision/photometricStereo/photometricDataIO.cpp:192-200 | the positions `getIndMask` appends strictly increase and each lies below rows × cols |
| PhotometricDataIO.MaskIndexLocatesColumn | src/aliceVision/photometricStereo/photometricStereo.cpp:233-244 | entry n of the index list decodes (division and remainder by rows) to the n-th selected pixel of the mask, which is the pixel whose channels `image2PsMatrix` puts in column n when the image has the mask's extent |
| PhotometricDataIO.FlattenWithIndices | src/aliceVision/photometricStereo/photometricStereo.cpp:153-237 | with a real mask and an image of the mask's extent, `getIndMask` then `image2PsMatrix` give a list as long as the matrix is wide, each entry inside the image, and column n holds the channels of the pixel at row idx[n] % rows, column idx[n] / rows |
| PhotometricDataIO.MaskIndexIffKept | src/aliceVision/photometricStereo/photometricDataIO.cpp:197-200 | the position of pixel (i, j) appears in the index list exactly when the mask keeps that pixel |
| PhotometricDataIO.NoMaskPicksLength | src/aliceVision/photometricStereo/photometricDataIO.cpp:234-241 | with the sentinel every pixel is selected: rows × cols of them |
| PhotometricDataIO.NoMaskColumn | src/aliceVision/photometricStereo/photometricDataIO.cpp:234-241 | with the sentinel a column lists all its rows in order |
| PhotometricDataIO.NoMaskPicksAt | src/aliceVision/photometricStereo/photometricDataIO.cpp:228-241 | with the sentinel pixel (i, j) lands in column j·rows+i |
| PhotometricDataIO.SentinelMaskIndices | src/aliceVision/photometricStereo/photometricDataIO.cpp:173-179 | `getIndMask` applied to the sentinel itself lists the single position 0 |
| PhotometricStereo.SoftThreshold | src/aliceVision/photometricStereo/photometricStereo.cpp:432-439 | sign preserved (≥ 0 for positive input, ≤ 0 otherwise); 0 when the magnitude is at most rho; the magnitude reduced by exactly rho above it; never larger in magnitude for rho ≥ 0 |
| PhotometricStereo.Shrink | src/aliceVision/photometricStereo/photometricStereo.cpp:426-442 | every cell of E, over E's own extent, is the soft threshold of the same cell of mat; mat is read only within that extent, and the result is the same when mat and E are one matrix |
| PhotometricStereo.SoftThresholdMinimizes | src/aliceVision/photometricStereo/photometricStereo.cpp:270 | for rho ≥ 0 the value `shrink` writes minimises (x−m)²/2 + rho·\|x\|, the proximal step the robust solve takes with rho = 1/mu |
| PhotometricStereo.Insert | src/aliceVision/photometricStereo/photometricStereo.cpp:446 | inserting adds exactly one value to the multiset |
| PhotometricStereo.SortSeq | src/aliceVision/photometricStereo/photometricStereo.cpp:446 | the sorted values are a permutation of the input |
| PhotometricStereo.SortSeqSorted | src/aliceVision/photometricStereo/photometricStereo.cpp:446 | `SortSeq` is in increasing order |
| PhotometricStereo.SortedUnique | src/aliceVision/photometricStereo/photometricStereo.cpp:446 | two sorted permutations of the same values are equal, so whatever sort was used the copy ends up the same |
| PhotometricStereo.SortInPlace | src/aliceVision/photometricStereo/photometricStereo.cpp:446 | the array ends up sorted and a permutation of what it held |
| PhotometricStereo.SinkInto | src/aliceVision/photometricStereo/photometricStereo.cpp:446 | one insertion step extends the sorted prefix by one element, keeps the multiset and leaves the elements past the inserted one untouched |
| PhotometricStereo.SortedCopy | src/aliceVision/photometricStereo/photometricStereo.cpp:445-446 | the copy, once sorted, is a fresh array holding exactly `SortSeq` of the coefficients |
| PhotometricStereo.Median | src/aliceVision/photometricStereo/photometricStereo.cpp:444-451 | for non-empty input the result is `MiddleAsWritten` of the sorted coefficients; the input is not changed |
| PhotometricStereo.MiddleAsWrittenCases | src/aliceVision/photometricStereo/photometricStereo.cpp:447-450 | for odd n the result is sorted[n/2]; for even n it is sorted[n/2−1] + sorted[n/2], a sum |
| PhotometricStereo.MedianPermutationInvariant | src/aliceVision/photometricStereo/photometricStereo.cpp:445-446 | the result depends only on the multiset of coefficients |
| PhotometricStereo.MedianSumExceedsLargest | src/aliceVision/photometricStereo/photometricStereo.cpp:449 | as written, the coefficients 3 and 1 give 4, larger than either |
| PhotometricStereo.MiddleMeanSplits | src/aliceVision/photometricStereo/photometricStereo.hpp:96-100 | the corrected median (the mean of the two middle values for even n) has the lower half of sorted values at or below it and the upper half at or above it |
| PhotometricStereo.MedianCorrected | src/aliceVision/photometricStereo/photometricStereo.hpp:96-100 | the corrected `median` (mean of the two middle values for an even count) equals `MiddleMean` of the sorted coefficients and splits them: the lower half at or below it, the upper half at or above it |
| PhotometricStereo.LexLess | src/aliceVision/photometricStereo/photometricStereo.cpp:424 | a string is never less than itself |
| PhotometricStereo.LexLessIff | src/aliceVision/photometricStereo/photometricStereo.cpp:424 | a < b exactly when at some position the two agree before it, and there a has ended while b goes on, or a has the smaller character: both directions |
| PhotometricStereo.LexLessTransitive | src/aliceVision/photometricStereo/photometricStereo.cpp:421-424 | the order is transitive, so it is a valid `std::sort` comparator |
| PhotometricStereo.LexLessTotal | src/aliceVision/photometricStereo/photometricStereo.cpp:421-424 | two different strings are ordered one way or the other, never both |
| CameraCalibration.RFind | src/software/RigCalibration/main_cameraCalibration.cpp:38 | npos (−1) exactly when the character is absent; otherwise the position of its last occurrence |
| CameraCalibration.GetFilename | src/software/RigCalibration/main_cameraCalibration.cpp:36-43 | a path without '/' is returned whole; otherwise the result is the suffix after the last '/'; the result never contains '/' |
| CameraCalibration.GetFilenameIdempotent | src/software/RigCalibration/main_cameraCalibration.cpp:36-43 | taking the file name twice is the same as once |
| CameraCalibration.GetFilenameOfJoin | src/software/RigCalibration/main_cameraCalibration.cpp:36-43 | for a name without '/', folder + "/" + name gives the name back |
| CameraCalibration.BoardRow | src/software/RigCalibration/main_cameraCalibration.cpp:104-106 | a row of the target has `width` points |
| CameraCalibration.CalcChessboardCorners | src/software/RigCalibration/main_cameraCalibration.cpp:94-125 | earlier contents are dropped; for the three supported patterns the points are the board row by row; CCTag throws `invalid_argument("CCTag not implemented.")` and leaves no points |
| CameraCalibration.RegularGrid | src/software/RigCalibration/main_cameraCalibration.cpp:101-107 | the chessboard and circle-grid loops push the board's points, (j·s, i·s, 0), row by row |
| CameraCalibration.AsymmetricGrid | src/software/RigCalibration/main_cameraCalibration.cpp:109-114 | the asymmetric loops push ((2j + i mod 2)·s, i·s, 0), row by row |
| CameraCalibration.BoardRowAt | src/software/RigCalibration/main_cameraCalibration.cpp:104-106 | point j of row i is the target point of (i, j) |
| CameraCalibration.BoardLength | src/software/RigCalibration/main_cameraCalibration.cpp:103-113 | the board has height × width points |
| CameraCalibration.BoardAtPoint | src/software/RigCalibration/main_cameraCalibration.cpp:103-113 | point i·width + j is the one of row i, column j: (j·s, i·s, 0), or ((2j + i mod 2)·s, i·s, 0) on the asymmetric grid |
| CameraCalibration.BoardIsPlanar | src/software/RigCalibration/main_cameraCalibration.cpp:103-113 | every point of the board has z = 0 |
| CameraCalibration.SkipSpace | src/software/RigCalibration/main_cameraCalibration.cpp:293 | the stream reader skips exactly the leading white space |
| CameraCalibration.Word | src/software/RigCalibration/main_cameraCalibration.cpp:293 | the token is the longest prefix without white space |
| CameraCalibration.ToUpper | src/software/RigCalibration/main_cameraCalibration.cpp:294 | the length is kept and no lower-case letter remains: each one becomes its own capital (same place in the alphabet), and every character outside 'a'..'z' is kept |
| CameraCalibration.ParsePattern | src/software/RigCalibration/main_cameraCalibration.cpp:290-309 | success exactly when the upper-cased token is CHESSBOARD, CIRCLES or ASYMMETRIC_CIRCLES, with the pattern whose keyword it is (never CCTag); otherwise `invalid_option_value("Invalid pattern: " + token)` |
| CameraCalibration.ParseKeyword | src/software/RigCalibration/main_cameraCalibration.cpp:296-301 | each supported pattern is read back from its keyword |
| CameraCalibration.ParseRejectsCCTag | src/software/RigCalibration/main_cameraCalibration.cpp:302-307 | the CCTag keyword is disabled: "CCTAG" throws |
| CameraCalibration.ParseIgnoresCase | src/software/RigCalibration/main_cameraCalibration.cpp:293-294 | upper-casing the input first changes neither the pattern read nor the error message |
| CameraCalibration.ParseSkipsLeadingSpace | src/software/RigCalibration/main_cameraCalibration.cpp:293 | white space before the token does not change the result |
| CameraCalibration.NatToString | src/software/RigCalibration/main_cameraCalibration.cpp:368 | `std::to_string` of a count is a non-empty string of decimal digits |
| CameraCalibration.NatToStringValue | src/software/RigCalibration/main_cameraCalibration.cpp:368 | those digits, read in decimal, give back the count; there is no leading zero, and 0 is written as the single digit "0" |
| CameraCalibration.RadialFlags | src/software/RigCalibration/main_cameraCalibration.cpp:366-371 | the check and the loop, run on the count the user gave, produce exactly the rule's outcome `FlagsFor` for that count (characterised by `FlagsForMeaning`), including the exception for a rejected count |
| CameraCalibration.FlagsForMeaning | src/software/RigCalibration/main_cameraCalibration.cpp:366-371 | a count is accepted exactly when it lies in 1..6; then zero tangential distortion is set, the fix flag of coefficient index i is set exactly when count ≤ i (lower coefficients stay free), and no other bit is set; otherwise `invalid_option_value` with the source's message |
| CameraCalibration.RadialFlagBits | src/software/RigCalibration/main_cameraCalibration.cpp:369-371 | zero tangential distortion OR-ed with the fix flags of indices count..5 has the zero-tangent bit set, of the six fix flags exactly those of indices count..5, and no other bit |
| CameraCalibration.FlagsForOnlyRadial | src/software/RigCalibration/main_cameraCalibration.cpp:366-371 | for an accepted count the flags hold no bit besides zero tangential distortion and the six fix flags (so, for instance, `CV_CALIB_FIX_ASPECT_RATIO` stays clear) |
| CameraCalibration.FlagsAsWritten | src/software/RigCalibration/main_cameraCalibration.cpp:366-373 | as written the count is accepted exactly when the value the variable held before `po::notify` lies in 1..6, whatever the user gave |
| CameraCalibration.FlagsReadBeforeNotify | src/software/RigCalibration/main_cameraCalibration.cpp:319-373 | as written a valid count (3) is rejected when the variable held 0, and an invalid one (9) accepted when it held 2 |

## Left out

- The photometric-stereo solves (`photometricStereo`, `RTI`) are left out. They rely on Eigen SVD solves, floating-point normalisation and image I/O.
- The loaders and writers are left out: `loadPSData`, `getPicturesNames`, the light and mask loaders, `writePSResults` and `convertNormalMap2png`. They do file, JSON and image I/O, or use a platform-dependent float-to-byte conversion.
  - Of `loadMask` only the missing-file branch is modelled, as `NoMaskSentinel`. The file test is not.
- The OpenCV parts of the calibration tool are left out: the detection loop, `runCalibration`, the reprojection error, the savers, `exportDebug` and the option parsing of `main`. They are foreign calls and I/O.
- Floating point is not modelled.
  - Values are reals, so rounding is absent.
  - NaN is absent. With NaN, `mat(i,j) > 0` is false and `std::abs` propagates it.
  - In `calcChessboardCorners`, `float(j * squareSize)` rounds the product to float.
- Integer widths are not modelled:
  - `int` positions j·rows+i are unbounded here: no overflow for huge images;
  - `size_t`;
  - `unsigned int nbRadialCoef` is a `nat`.
- IntensityScaling: requires non-zero intensities, because real division by zero is not defined here. The source would produce infinities, or NaN for a zero pixel value.
- Image2PsMatrix, Image2PsVector and ReshapeInImage: require that the output be large enough. Out-of-range Eigen access is undefined in the source.
- Image2PsMatrix, PlaceColumn, PackColumn and Image2PsVector: with a real mask, not the 1×1 sentinel, they require the mask to be at least as large as the image (`Covers`).
  - The source checks no such thing. It reads `mask(i, j)` over the image's extent at photometricDataIO.cpp:234 and :258, and its caller at photometricStereo.cpp:146-157 and :215 never compares the two sizes.
  - The model does not say what a smaller mask gives, which is an out-of-range read in the source.
- Shrink: the rows and columns of `mat` are required to cover E's extent. The source reads `mat` there without a check.
- Median: requires non-empty input. The source reads `aux(0)` of an empty copy.
- Median: the sort is an insertion sort, not the introsort of `std::sort`. `SortedUnique` shows that any sort gives the same result.
- ParsePattern:
  - `std::toupper` is modelled for ASCII in the C locale only;
  - white space is that of the C locale;
  - a stream that holds no token gives the empty token, which is then rejected;
  - stream state flags are not modelled.
- CalcChessboardCorners: the `default:` branch ("Unknown pattern type.") cannot be reached with the four declared patterns, so it is not modelled. The CCTag pattern is included as in builds with CCTag support.
- RadialFlags:
  - takes the count as a parameter; the option parsing that would supply it, with its default of 3, is not modelled;
  - the message says "2 or 3" while the accepted range is 1..6; the model keeps both as written;
  - the earlier `flags = 0` at line 322 is the starting value.
- FlagsAsWritten: takes the value `nbRadialCoef` holds before `po::notify` as a parameter. In C++ that value is indeterminate and reading it is undefined behaviour, which the model does not capture.
- GetFilename: only '/' separates path parts, as in the source. Backslashes are not special.

## Findings

| source | as written | input that shows it | evidently intended | confidence | as-written member | corrected member |
|---|---|---|---|---|---|---|
| src/aliceVision/photometricStereo/photometricStereo.cpp:447-450 | for an even number of coefficients `median` returns `aux((n-1)/2) + aux((n+1)/2)`, the sum of the two middle values | coefficients {3, 1}: the result is 4, larger than every coefficient | the median the header documents, the mean of the two middle values, which splits the sorted values in halves. Impact: the only caller passes `median` one value per image for every pixel (photometricStereo.cpp:321-324), and line 357 divides the albedo by its maximum, so for an even image count the uniform factor of 2 cancels in the albedo written out; the defect is in `median` itself, not visible in that output | not executed | PhotometricStereo.MedianSumExceedsLargest | PhotometricStereo.MedianCorrected |
| src/software/RigCalibration/main_cameraCalibration.cpp:319-373 | `nbRadialCoef` is declared without an initialiser (line 319). The range check and the flag loop (lines 366-371) read it, but `po::notify`, which stores the parsed option into it, runs only afterwards (line 373). | `--nRadialCoef 3` while the variable happens to hold 0: the valid count is rejected. `--nRadialCoef 9` while it holds 2: the invalid count is accepted. | call `po::notify` before the check, so the rule applies to the count the user gave (or the default 3) | not executed | CameraCalibration.FlagsReadBeforeNotify | CameraCalibration.RadialFlags |
