/**
 * Masked pixel selection and column-major flattening used by the photometric-stereo
 * solver (photometricDataIO.cpp).
 *
 * Representation: a single-channel image or mask (`image::Image<float>`), which the
 * core only reads, is a `GreyImage` value; every RGB image (`image::Image<RGBfColor>`),
 * whether only read or updated in place, is an `array3<real>` indexed [row, column,
 * channel] with exactly three channels; an Eigen matrix is an `array2<real>` and an
 * Eigen vector an `array<real>`. Pixel values are reals.
 */
module PhotometricDataIO {

  import opened Arithmetic

  /** A pixel takes part in the solve when its mask value exceeds this threshold. */
  const MaskThreshold: real := 0.7

  /** A pixel position: row `i`, column `j`. */
  datatype Pixel = Pixel(i: nat, j: nat)

  /**
   * A single-channel image (`image::Image<float>`) that the core only reads: its
   * extent and its value at (row, column).
   */
  datatype GreyImage = GreyImage(rows: nat, cols: nat, at: (nat, nat) -> real)

  /** A 1×1 mask is the sentinel for "no mask": then every pixel is used. */
  predicate HasMask(mask: GreyImage)
  {
    !(mask.rows == 1 && mask.cols == 1)
  }

  /**
   * The mask can be read at every pixel of a `rows`×`cols` image, unless `all`
   * (no mask) says it is never read.
   */
  predicate Covers(mask: GreyImage, all: bool, rows: nat, cols: nat)
  {
    all || rows == 0 || (rows <= mask.rows && cols <= mask.cols)
  }

  /** Whether pixel (i, j) is selected: always when `all`, else when its mask value exceeds the threshold. */
  predicate Keep(mask: GreyImage, all: bool, i: nat, j: nat)
  {
    all || mask.at(i, j) > MaskThreshold
  }

  /** The selected pixels among rows 0 .. i-1 of column j, by increasing row. */
  function ColumnPicks(mask: GreyImage, all: bool, j: nat, i: nat): (r: seq<Pixel>)
    ensures forall n :: 0 <= n < |r| ==> r[n].j == j && r[n].i < i
  {
    if i == 0 then []
    else ColumnPicks(mask, all, j, i - 1) + (if Keep(mask, all, i - 1, j) then [Pixel(i - 1, j)] else [])
  }

  /**
   * The selected pixels of columns 0 .. cols-1 of a `rows`-row image, in the order
   * the source visits them: column index outer, row index inner.
   */
  function Picks(mask: GreyImage, all: bool, rows: nat, cols: nat): (r: seq<Pixel>)
    ensures forall n :: 0 <= n < |r| ==> r[n].i < rows && r[n].j < cols
  {
    if cols == 0 then []
    else
      Picks(mask, all, rows, cols - 1) + ColumnPicks(mask, all, cols - 1, rows)
  }

  /** `p` is visited before `q` by a column-outer, row-inner scan. */
  predicate ColumnMajorBefore(p: Pixel, q: Pixel)
  {
    p.j < q.j || (p.j == q.j && p.i < q.i)
  }

  /** The pixels of `r` are listed in strictly increasing column-major scan order. */
  predicate ScanOrdered(r: seq<Pixel>)
  {
    forall a, b :: 0 <= a < b < |r| ==> ColumnMajorBefore(r[a], r[b])
  }

  /** Position of pixel `p` in the column-major flattening of a `rows`-row image. */
  function FlatIndex(p: Pixel, rows: nat): nat
  {
    p.j * rows + p.i
  }

  /** The column-major positions of a sequence of pixels. */
  function FlatIndices(ps: seq<Pixel>, rows: nat): seq<int>
  {
    seq(|ps|, n requires 0 <= n < |ps| => FlatIndex(ps[n], rows))
  }

  // ---------------------------------------------------------------------------
  // Operations
  // ---------------------------------------------------------------------------

  /**
   * The "no mask file" branch of `loadMask`: the mask becomes the 1×1 sentinel
   * holding 1, which `HasMask` reads as "no mask".
   */
  function NoMaskSentinel(): (mask: GreyImage)
    ensures mask.rows == 1 && mask.cols == 1 && mask.at(0, 0) == 1.0
    ensures !HasMask(mask)
  {
    GreyImage(1, 1, (i: nat, j: nat) => 1.0)
  }

  /**
   * `getIndMask`: appends to `indexes` the column-major position of every pixel of
   * `mask` whose value exceeds the threshold, scanning column by column. The mask
   * is scanned over its own extent and the 1×1 sentinel is not special here.
   */
  method GetIndMask(mask: GreyImage, indexes: seq<int>) returns (result: seq<int>)
    ensures result == indexes + FlatIndices(Picks(mask, false, mask.rows, mask.cols), mask.rows)
  {
    var nbRows, nbCols := mask.rows, mask.cols;
    result := indexes;
    ghost var picked: seq<Pixel> := [];
    for j := 0 to nbCols
      invariant picked == Picks(mask, false, nbRows, j)
      invariant result == indexes + FlatIndices(picked, nbRows)
    {
      for i := 0 to nbRows
        invariant picked == Picks(mask, false, nbRows, j) + ColumnPicks(mask, false, j, i)
        invariant result == indexes + FlatIndices(picked, nbRows)
      {
        assert ColumnPicks(mask, false, j, i + 1) ==
          ColumnPicks(mask, false, j, i) + (if Keep(mask, false, i, j) then [Pixel(i, j)] else []);
        if mask.at(i, j) > MaskThreshold {
          var currentIndex := j * nbRows + i;
          assert currentIndex == FlatIndex(Pixel(i, j), nbRows);
          FlatIndicesSnoc(picked, Pixel(i, j), nbRows);
          result := result + [currentIndex];
          picked := picked + [Pixel(i, j)];
        }
      }
      assert Picks(mask, false, nbRows, j + 1) == Picks(mask, false, nbRows, j) + ColumnPicks(mask, false, j, nbRows);
    }
  }

  /**
   * `intensityScaling`: divides channel `ch` of every pixel by `intensities[ch]`.
   * The image keeps its dimensions.
   */
  method IntensityScaling(intensities: seq<real>, imageToScale: array3<real>)
    requires |intensities| == 3 && imageToScale.Length2 == 3
    requires forall ch :: 0 <= ch < 3 ==> intensities[ch] != 0.0
    modifies imageToScale
    ensures forall i, j, ch :: 0 <= i < imageToScale.Length0 && 0 <= j < imageToScale.Length1 && 0 <= ch < 3 ==>
      imageToScale[i, j, ch] == old(imageToScale[i, j, ch]) / intensities[ch]
  {
    var nbRows, nbCols := imageToScale.Length0, imageToScale.Length1;
    for j := 0 to nbCols
      invariant forall a, b, c :: 0 <= a < nbRows && 0 <= b < nbCols && 0 <= c < 3 ==>
        imageToScale[a, b, c] == if b < j then old(imageToScale[a, b, c]) / intensities[c] else old(imageToScale[a, b, c])
    {
      for i := 0 to nbRows
        invariant forall a, b, c :: 0 <= a < nbRows && 0 <= b < nbCols && 0 <= c < 3 ==>
          imageToScale[a, b, c] ==
            if b < j || (b == j && a < i) then old(imageToScale[a, b, c]) / intensities[c] else old(imageToScale[a, b, c])
      {
        for ch := 0 to 3
          invariant forall a, b, c :: 0 <= a < nbRows && 0 <= b < nbCols && 0 <= c < 3 ==>
            imageToScale[a, b, c] ==
              if b < j || (b == j && (a < i || (a == i && c < ch))) then old(imageToScale[a, b, c]) / intensities[c]
              else old(imageToScale[a, b, c])
        {
          imageToScale[i, j, ch] := imageToScale[i, j, ch] / intensities[ch];
        }
      }
    }
  }

  /**
   * The RGB overload of `image2PsMatrix`: the n-th selected pixel (column-major scan
   * order) has its three channels written into column n of `imageOut`. With the
   * 1×1 sentinel every pixel is selected. Every other cell keeps its value.
   */
  method Image2PsMatrix(imageIn: array3<real>, mask: GreyImage, imageOut: array2<real>)
    requires imageIn.Length2 == 3
    requires Covers(mask, !HasMask(mask), imageIn.Length0, imageIn.Length1)
    requires var count := |Picks(mask, !HasMask(mask), imageIn.Length0, imageIn.Length1)|;
      count <= imageOut.Length1 && (count == 0 || 3 <= imageOut.Length0)
    modifies imageOut
    ensures var ps := Picks(mask, !HasMask(mask), imageIn.Length0, imageIn.Length1);
      forall c, n :: 0 <= c < imageOut.Length0 && 0 <= n < imageOut.Length1 ==>
        imageOut[c, n] == if c < 3 && n < |ps| then imageIn[ps[n].i, ps[n].j, c] else old(imageOut[c, n])
  {
    var nbRows, nbCols := imageIn.Length0, imageIn.Length1;
    var index := 0;
    var hasMask := !(mask.rows == 1 && mask.cols == 1);
    ghost var ps := Picks(mask, !hasMask, nbRows, nbCols);
    for j := 0 to nbCols
      invariant index == |Picks(mask, !hasMask, nbRows, j)| <= |ps|
      invariant forall c, n :: 0 <= c < imageOut.Length0 && 0 <= n < imageOut.Length1 ==>
        imageOut[c, n] == if c < 3 && n < index then imageIn[ps[n].i, ps[n].j, c] else old(imageOut[c, n])
    {
      index := PlaceColumn(imageIn, mask, !hasMask, j, imageOut, index);
    }
  }

  /**
   * One pass of the column loop of the RGB `image2PsMatrix`: the selected pixels of
   * column j take the positions that follow those of columns 0 .. j-1 in the
   * selection of the whole image.
   */
  method PlaceColumn(imageIn: array3<real>, mask: GreyImage, all: bool, j: nat, imageOut: array2<real>, first: nat)
    returns (index: nat)
    requires imageIn.Length2 == 3 && j < imageIn.Length1
    requires Covers(mask, all, imageIn.Length0, imageIn.Length1)
    requires var count := |Picks(mask, all, imageIn.Length0, imageIn.Length1)|;
      count <= imageOut.Length1 && (count == 0 || 3 <= imageOut.Length0)
    requires first == |Picks(mask, all, imageIn.Length0, j)|
    modifies imageOut
    ensures index == |Picks(mask, all, imageIn.Length0, j + 1)|
    ensures index <= |Picks(mask, all, imageIn.Length0, imageIn.Length1)|
    ensures var ps := Picks(mask, all, imageIn.Length0, imageIn.Length1);
      forall c, n :: 0 <= c < imageOut.Length0 && 0 <= n < imageOut.Length1 ==>
        imageOut[c, n] == if c < 3 && first <= n < index then imageIn[ps[n].i, ps[n].j, c] else old(imageOut[c, n])
  {
    var nbRows, nbCols := imageIn.Length0, imageIn.Length1;
    ghost var ps := Picks(mask, all, nbRows, nbCols);
    ghost var front, col := Picks(mask, all, nbRows, j), ColumnPicks(mask, all, j, nbRows);
    PicksPrefix(mask, all, nbRows, j, nbRows, nbCols);
    assert Picks(mask, all, nbRows, j + 1) == front + col;
    index := PackColumn(imageIn, mask, all, j, imageOut, first);
    forall c, n | 0 <= c < imageOut.Length0 && 0 <= n < imageOut.Length1 && c < 3 && first <= n < index
      ensures imageOut[c, n] == imageIn[ps[n].i, ps[n].j, c]
    {
      assert ps[n] == (front + col)[n] == col[n - first];
    }
  }

  /**
   * The row loop of the RGB `image2PsMatrix` for column j: the pixels of column j
   * that are selected take the next columns of `imageOut`, from `first` on.
   */
  method PackColumn(imageIn: array3<real>, mask: GreyImage, all: bool, j: nat, imageOut: array2<real>, first: nat)
    returns (index: nat)
    requires imageIn.Length2 == 3 && j < imageIn.Length1
    requires all || imageIn.Length0 == 0 || (imageIn.Length0 <= mask.rows && j < mask.cols)
    requires var count := |ColumnPicks(mask, all, j, imageIn.Length0)|;
      first + count <= imageOut.Length1 && (count == 0 || 3 <= imageOut.Length0)
    modifies imageOut
    ensures var col := ColumnPicks(mask, all, j, imageIn.Length0);
      index == first + |col| &&
      forall c, n :: 0 <= c < imageOut.Length0 && 0 <= n < imageOut.Length1 ==>
        imageOut[c, n] ==
          if c < 3 && first <= n < index then imageIn[col[n - first].i, j, c] else old(imageOut[c, n])
  {
    var nbRows := imageIn.Length0;
    index := first;
    for i := 0 to nbRows
      invariant index == first + |ColumnPicks(mask, all, j, i)|
      invariant forall c, n :: 0 <= c < imageOut.Length0 && 0 <= n < imageOut.Length1 ==>
        imageOut[c, n] ==
          if c < 3 && first <= n < index then imageIn[ColumnPicks(mask, all, j, i)[n - first].i, j, c]
          else old(imageOut[c, n])
    {
      ghost var done := ColumnPicks(mask, all, j, i);
      assert ColumnPicks(mask, all, j, i + 1) == done + (if Keep(mask, all, i, j) then [Pixel(i, j)] else []);
      ColumnPicksPrefix(mask, all, j, i + 1, nbRows);
      if all || mask.at(i, j) > MaskThreshold {
        CopyPixel(imageIn, i, j, imageOut, index);
        index := index + 1;
      }
    }
  }

  /** The channel loop of the RGB `image2PsMatrix`: column `index` receives the channels of pixel (i, j). */
  method CopyPixel(imageIn: array3<real>, i: nat, j: nat, imageOut: array2<real>, index: nat)
    requires i < imageIn.Length0 && j < imageIn.Length1 && imageIn.Length2 == 3
    requires 3 <= imageOut.Length0 && index < imageOut.Length1
    modifies imageOut
    ensures forall c, n :: 0 <= c < imageOut.Length0 && 0 <= n < imageOut.Length1 ==>
      imageOut[c, n] == if c < 3 && n == index then imageIn[i, j, c] else old(imageOut[c, n])
  {
    for ch := 0 to 3
      invariant forall c, n :: 0 <= c < imageOut.Length0 && 0 <= n < imageOut.Length1 ==>
        imageOut[c, n] == if c < ch && n == index then imageIn[i, j, c] else old(imageOut[c, n])
    {
      imageOut[ch, index] := imageIn[i, j, ch];
    }
  }

  /**
   * The scalar overload of `image2PsMatrix`: the output position advances for every
   * pixel, selected or not, so a selected pixel lands at its own column-major
   * position j*rows + i (no compaction). Positions of unselected pixels and
   * positions past the image keep their values.
   */
  method Image2PsVector(imageIn: GreyImage, mask: GreyImage, imageOut: array<real>)
    requires Covers(mask, !HasMask(mask), imageIn.rows, imageIn.cols)
    requires forall i: nat, j: nat :: i < imageIn.rows && j < imageIn.cols && Keep(mask, !HasMask(mask), i, j) ==>
      FlatIndex(Pixel(i, j), imageIn.rows) < imageOut.Length
    modifies imageOut
    ensures forall i: nat, j: nat :: i < imageIn.rows && j < imageIn.cols && FlatIndex(Pixel(i, j), imageIn.rows) < imageOut.Length ==>
      imageOut[FlatIndex(Pixel(i, j), imageIn.rows)] ==
        if Keep(mask, !HasMask(mask), i, j) then imageIn.at(i, j) else old(imageOut[FlatIndex(Pixel(i, j), imageIn.rows)])
    ensures forall k :: imageIn.cols * imageIn.rows <= k < imageOut.Length ==> imageOut[k] == old(imageOut[k])
  {
    var nbRows, nbCols := imageIn.rows, imageIn.cols;
    var index := 0;
    var hasMask := !(mask.rows == 1 && mask.cols == 1);
    for j := 0 to nbCols
      invariant index == j * nbRows
      invariant forall a, b :: 0 <= a < nbRows && 0 <= b < j ==>
        FlatIndex(Pixel(a, b), nbRows) < index &&
        (FlatIndex(Pixel(a, b), nbRows) < imageOut.Length ==>
          imageOut[FlatIndex(Pixel(a, b), nbRows)] == if Keep(mask, !hasMask, a, b) then imageIn.at(a, b) else old(imageOut[FlatIndex(Pixel(a, b), nbRows)]))
      invariant forall k :: index <= k < imageOut.Length ==> imageOut[k] == old(imageOut[k])
    {
      for i := 0 to nbRows
        invariant index == j * nbRows + i
        invariant forall a, b :: 0 <= a < nbRows && 0 <= b < nbCols && (b < j || (b == j && a < i)) ==>
          FlatIndex(Pixel(a, b), nbRows) < index &&
          (FlatIndex(Pixel(a, b), nbRows) < imageOut.Length ==>
            imageOut[FlatIndex(Pixel(a, b), nbRows)] == if Keep(mask, !hasMask, a, b) then imageIn.at(a, b) else old(imageOut[FlatIndex(Pixel(a, b), nbRows)]))
        invariant forall k :: index <= k < imageOut.Length ==> imageOut[k] == old(imageOut[k])
      {
        assert FlatIndex(Pixel(i, j), nbRows) == index;
        if !hasMask || mask.at(i, j) > MaskThreshold {
          assert Keep(mask, !hasMask, i, j);
          imageOut[index] := imageIn.at(i, j);
        }
        index := index + 1;
      }
      MulSucc(j, nbRows);
    }
  }

  /**
   * `reshapeInImage`: pixel (i, j) of `imageOut` takes, channel by channel, column
   * j*rows + i of `matrixIn`, undoing a column-major flattening.
   */
  method ReshapeInImage(matrixIn: array2<real>, imageOut: array3<real>)
    requires imageOut.Length2 == 3
    requires imageOut.Length0 == 0 || imageOut.Length1 == 0 ||
             (3 <= matrixIn.Length0 && imageOut.Length0 * imageOut.Length1 <= matrixIn.Length1)
    modifies imageOut
    ensures forall i, j, ch :: 0 <= i < imageOut.Length0 && 0 <= j < imageOut.Length1 && 0 <= ch < 3 ==>
      (FlatBound(i, j, imageOut.Length0, imageOut.Length1);
       imageOut[i, j, ch] == matrixIn[ch, j * imageOut.Length0 + i])
  {
    var nbRows, nbCols := imageOut.Length0, imageOut.Length1;
    for j := 0 to nbCols
      invariant forall a, b, c :: 0 <= a < nbRows && 0 <= b < j && 0 <= c < 3 ==>
        (FlatBound(a, b, nbRows, nbCols); imageOut[a, b, c] == matrixIn[c, b * nbRows + a])
    {
      for i := 0 to nbRows
        invariant forall a, b, c :: 0 <= a < nbRows && 0 <= b < nbCols && 0 <= c < 3 && (b < j || (b == j && a < i)) ==>
          (FlatBound(a, b, nbRows, nbCols); imageOut[a, b, c] == matrixIn[c, b * nbRows + a])
      {
        var currentInd := j * nbRows + i;
        FlatBound(i, j, nbRows, nbCols);
        for ch := 0 to 3
          invariant forall a, b, c :: 0 <= a < nbRows && 0 <= b < nbCols && 0 <= c < 3 &&
                                      (b < j || (b == j && (a < i || (a == i && c < ch)))) ==>
            (FlatBound(a, b, nbRows, nbCols); imageOut[a, b, c] == matrixIn[c, b * nbRows + a])
        {
          imageOut[i, j, ch] := matrixIn[ch, currentInd];
        }
      }
    }
  }

  /**
   * Without a mask, flattening an image with `image2PsMatrix` and unflattening the
   * matrix with `reshapeInImage` into an image of the same size reproduces it.
   */
  method FlattenThenReshape(imageIn: array3<real>, mask: GreyImage, matrix: array2<real>, imageOut: array3<real>)
    requires imageIn.Length2 == 3 && imageOut.Length2 == 3
    requires !HasMask(mask)
    requires imageOut.Length0 == imageIn.Length0 && imageOut.Length1 == imageIn.Length1
    requires matrix.Length0 == 3 && matrix.Length1 == imageIn.Length0 * imageIn.Length1
    modifies matrix, imageOut
    ensures forall i, j, ch :: 0 <= i < imageIn.Length0 && 0 <= j < imageIn.Length1 && 0 <= ch < 3 ==>
      imageOut[i, j, ch] == old(imageIn[i, j, ch])
  {
    var rows, cols := imageIn.Length0, imageIn.Length1;
    NoMaskPicksLength(mask, rows, cols);
    Image2PsMatrix(imageIn, mask, matrix);
    ReshapeInImage(matrix, imageOut);
    forall i, j, ch | 0 <= i < rows && 0 <= j < cols && 0 <= ch < 3
      ensures imageOut[i, j, ch] == old(imageIn[i, j, ch])
    {
      NoMaskPicksAt(mask, rows, cols, Pixel(i, j));
    }
  }

  // ---------------------------------------------------------------------------
  // Properties of the selection
  // ---------------------------------------------------------------------------

  /** A pixel is listed in its column exactly when it lies above row i and is selected. */
  lemma {:induction false} ColumnPicksMember(mask: GreyImage, all: bool, j: nat, i: nat, p: Pixel)
    ensures p in ColumnPicks(mask, all, j, i) <==> p.j == j && p.i < i && Keep(mask, all, p.i, p.j)
  {
    if i > 0 {
      ColumnPicksMember(mask, all, j, i - 1, p);
    }
  }

  /**
   * The selection holds exactly the pixels of the image that the mask keeps (every
   * pixel when `all`), as `getIndMask` and `image2PsMatrix` promise.
   */
  lemma {:induction false} PicksMember(mask: GreyImage, all: bool, rows: nat, cols: nat, p: Pixel)
    ensures p in Picks(mask, all, rows, cols) <==> p.i < rows && p.j < cols && Keep(mask, all, p.i, p.j)
  {
    if cols > 0 {
      var front, col := Picks(mask, all, rows, cols - 1), ColumnPicks(mask, all, cols - 1, rows);
      assert Picks(mask, all, rows, cols) == front + col;
      PicksMember(mask, all, rows, cols - 1, p);
      ColumnPicksMember(mask, all, cols - 1, rows, p);
      assert p in front + col <==> p in front || p in col;
    }
  }

  /** The pixels selected in the first rows of a column come first among those of the column. */
  lemma {:induction false} ColumnPicksPrefix(mask: GreyImage, all: bool, j: nat, i: nat, k: nat)
    requires i <= k
    ensures ColumnPicks(mask, all, j, i) <= ColumnPicks(mask, all, j, k)
  {
    if i < k {
      ColumnPicksPrefix(mask, all, j, i, k - 1);
    }
  }

  /** The pixels scanned before (i, j) are a prefix of the whole selection. */
  lemma {:induction false} PicksPrefix(mask: GreyImage, all: bool, rows: nat, j: nat, i: nat, cols: nat)
    requires j < cols && i <= rows
    ensures Picks(mask, all, rows, j) + ColumnPicks(mask, all, j, i) <= Picks(mask, all, rows, cols)
    decreases cols - j
  {
    ColumnPicksPrefix(mask, all, j, i, rows);
    if j + 1 < cols {
      PicksPrefix(mask, all, rows, j + 1, 0, cols);
    }
  }

  /** A column lists its selected pixels by strictly increasing row. */
  lemma {:induction false} ColumnPicksOrdered(mask: GreyImage, all: bool, j: nat, i: nat)
    ensures ScanOrdered(ColumnPicks(mask, all, j, i))
  {
    if i > 0 {
      ColumnPicksOrdered(mask, all, j, i - 1);
      var front := ColumnPicks(mask, all, j, i - 1);
      var r := ColumnPicks(mask, all, j, i);
      forall a, b | 0 <= a < b < |r|
        ensures ColumnMajorBefore(r[a], r[b])
      {
        assert r[a] == front[a];
        if b < |front| {
          assert r[b] == front[b];
        }
      }
    }
  }

  /** The selection lists pixels in column-major scan order, each at most once. */
  lemma {:induction false} PicksOrdered(mask: GreyImage, all: bool, rows: nat, cols: nat)
    ensures ScanOrdered(Picks(mask, all, rows, cols))
  {
    if cols > 0 {
      PicksOrdered(mask, all, rows, cols - 1);
      ColumnPicksOrdered(mask, all, cols - 1, rows);
      var front, last := Picks(mask, all, rows, cols - 1), ColumnPicks(mask, all, cols - 1, rows);
      var r := Picks(mask, all, rows, cols);
      assert r == front + last;
      forall a, b | 0 <= a < b < |r|
        ensures ColumnMajorBefore(r[a], r[b])
      {
        if b < |front| {
          assert r[a] == front[a] && r[b] == front[b];
        } else if a < |front| {
          assert r[a] == front[a] && r[b] == last[b - |front|];
        } else {
          assert r[a] == last[a - |front|] && r[b] == last[b - |front|];
        }
      }
    }
  }

  /**
   * The positions `getIndMask` appends are strictly increasing and each is below
   * rows × cols.
   */
  lemma MaskIndicesIncreasing(mask: GreyImage)
    ensures var ix := FlatIndices(Picks(mask, false, mask.rows, mask.cols), mask.rows);
      (forall a, b :: 0 <= a < b < |ix| ==> ix[a] < ix[b]) &&
      (forall a :: 0 <= a < |ix| ==> 0 <= ix[a] < mask.rows * mask.cols)
  {
    var rows, cols := mask.rows, mask.cols;
    var ps := Picks(mask, false, rows, cols);
    PicksOrdered(mask, false, rows, cols);
    forall a, b | 0 <= a < b < |ps|
      ensures FlatIndex(ps[a], rows) < FlatIndex(ps[b], rows)
    {
      FlatIndexMonotone(ps[a], ps[b], rows);
    }
    forall a | 0 <= a < |ps|
      ensures FlatIndex(ps[a], rows) < rows * cols
    {
      FlatBound(ps[a].i, ps[a].j, rows, cols);
    }
  }

  /**
   * When a mask is present, entry n of the list `getIndMask` builds decodes to the
   * very pixel whose channels `image2PsMatrix` writes into column n: the caller
   * relies on this to scatter per-column results back to pixel positions.
   */
  lemma MaskIndexLocatesColumn(mask: GreyImage, n: nat)
    requires n < |Picks(mask, false, mask.rows, mask.cols)|
    ensures var p := Picks(mask, false, mask.rows, mask.cols)[n];
      var k := FlatIndices(Picks(mask, false, mask.rows, mask.cols), mask.rows)[n];
      k % mask.rows == p.i && k / mask.rows == p.j
  {
    var p := Picks(mask, false, mask.rows, mask.cols)[n];
    DivMod(p.i, p.j, mask.rows);
  }

  /**
   * The solver's use of the two with a mask: it builds the index list with
   * `getIndMask`, flattens an image of the mask's extent into a 3 × maskSize
   * matrix with `image2PsMatrix`, and later reads entry n of the list as the
   * pixel of column n. Column n then indeed holds the channels of the pixel at
   * row idx[n] % rows, column idx[n] / rows.
   */
  method FlattenWithIndices(mask: GreyImage, imageIn: array3<real>, imageOut: array2<real>)
    returns (indexes: seq<int>)
    requires HasMask(mask)
    requires imageIn.Length0 == mask.rows && imageIn.Length1 == mask.cols && imageIn.Length2 == 3
    requires imageOut.Length0 == 3 && imageOut.Length1 == |Picks(mask, false, mask.rows, mask.cols)|
    modifies imageOut
    ensures |indexes| == imageOut.Length1
    ensures |indexes| > 0 ==> mask.rows > 0
    ensures forall n :: 0 <= n < |indexes| ==>
      mask.rows > 0 && 0 <= indexes[n] && indexes[n] % mask.rows < mask.rows && indexes[n] / mask.rows < mask.cols
    ensures forall c, n :: 0 <= c < 3 && 0 <= n < |indexes| ==>
      imageOut[c, n] == imageIn[indexes[n] % mask.rows, indexes[n] / mask.rows, c]
  {
    ghost var ps := Picks(mask, false, mask.rows, mask.cols);
    indexes := GetIndMask(mask, []);
    assert indexes == FlatIndices(ps, mask.rows);
    Image2PsMatrix(imageIn, mask, imageOut);
    if |indexes| > 0 {
      assert ps[0].i < mask.rows;
    }
    forall n | 0 <= n < |indexes|
      ensures mask.rows > 0 && indexes[n] % mask.rows == ps[n].i && indexes[n] / mask.rows == ps[n].j
    {
      MaskIndexLocatesColumn(mask, n);
    }
    forall c, n | 0 <= c < 3 && 0 <= n < |indexes|
      ensures imageOut[c, n] == imageIn[indexes[n] % mask.rows, indexes[n] / mask.rows, c]
    {
      assert imageOut[c, n] == imageIn[ps[n].i, ps[n].j, c];
    }
  }

  /**
   * The list `getIndMask` builds holds the column-major position of pixel (i, j)
   * exactly when the mask keeps that pixel: the positions the scalar
   * `image2PsMatrix` fills are the ones the list names.
   */
  lemma MaskIndexIffKept(mask: GreyImage, i: nat, j: nat)
    requires i < mask.rows && j < mask.cols
    ensures FlatIndex(Pixel(i, j), mask.rows) in FlatIndices(Picks(mask, false, mask.rows, mask.cols), mask.rows)
        <==> Keep(mask, false, i, j)
  {
    var rows := mask.rows;
    var ps := Picks(mask, false, rows, mask.cols);
    var ix := FlatIndices(ps, rows);
    PicksMember(mask, false, rows, mask.cols, Pixel(i, j));
    if Keep(mask, false, i, j) {
      var n :| 0 <= n < |ps| && ps[n] == Pixel(i, j);
      assert ix[n] == FlatIndex(Pixel(i, j), rows);
    }
    if FlatIndex(Pixel(i, j), rows) in ix {
      var n :| 0 <= n < |ix| && ix[n] == FlatIndex(Pixel(i, j), rows);
      var p := ps[n];
      DivMod(p.i, p.j, rows);
      DivMod(i, j, rows);
      assert p == Pixel(i, j);
    }
  }

  /** Without a mask every pixel is selected, one per position. */
  lemma {:induction false} NoMaskPicksLength(mask: GreyImage, rows: nat, cols: nat)
    ensures |Picks(mask, true, rows, cols)| == cols * rows
  {
    if cols > 0 {
      NoMaskPicksLength(mask, rows, cols - 1);
      NoMaskColumn(mask, cols - 1, rows);
      MulSucc(cols - 1, rows);
      assert cols * rows == (cols - 1) * rows + rows;
    }
  }

  /** Without a mask a column lists all its rows in order. */
  lemma {:induction false} NoMaskColumn(mask: GreyImage, j: nat, i: nat)
    ensures |ColumnPicks(mask, true, j, i)| == i
    ensures forall k :: 0 <= k < i ==> ColumnPicks(mask, true, j, i)[k] == Pixel(k, j)
  {
    if i > 0 {
      NoMaskColumn(mask, j, i - 1);
    }
  }

  /** Without a mask pixel (i, j) is selected at position j*rows + i. */
  lemma NoMaskPicksAt(mask: GreyImage, rows: nat, cols: nat, p: Pixel)
    requires p.i < rows && p.j < cols
    ensures FlatIndex(p, rows) < |Picks(mask, true, rows, cols)|
    ensures Picks(mask, true, rows, cols)[FlatIndex(p, rows)] == p
  {
    var front, column := Picks(mask, true, rows, p.j), ColumnPicks(mask, true, p.j, rows);
    PicksPrefix(mask, true, rows, p.j, rows, cols);
    NoMaskPicksLength(mask, rows, p.j);
    NoMaskColumn(mask, p.j, rows);
    assert FlatIndex(p, rows) == |front| + p.i;
    assert (front + column)[|front| + p.i] == p;
  }

  /** With the sentinel, `getIndMask` itself lists the single pixel (0, 0). */
  lemma SentinelMaskIndices(mask: GreyImage)
    requires mask.rows == 1 && mask.cols == 1 && mask.at(0, 0) == 1.0
    ensures FlatIndices(Picks(mask, false, 1, 1), 1) == [0]
  {
    assert Keep(mask, false, 0, 0);
    assert ColumnPicks(mask, false, 0, 1) == [Pixel(0, 0)];
    assert Picks(mask, false, 1, 1) == [Pixel(0, 0)];
  }

  // ---------------------------------------------------------------------------
  // Arithmetic of column-major positions
  // ---------------------------------------------------------------------------

  /** The position of a pixel inside a rows×cols image is below rows × cols. */
  lemma FlatBound(i: nat, j: nat, rows: nat, cols: nat)
    requires i < rows && j < cols
    ensures j * rows + i < rows * cols
  {
    MulMono(j + 1, cols, rows);
  }

  /** A column-major position decodes back to its row and column. */
  lemma DivMod(i: nat, j: nat, rows: nat)
    requires i < rows
    ensures (j * rows + i) / rows == j && (j * rows + i) % rows == i
  {
    var n := j * rows + i;
    var q, r := n / rows, n % rows;
    assert q * rows + r == n;
    if q > j {
      MulMono(j + 1, q, rows);
    } else if q < j {
      MulMono(q + 1, j, rows);
    }
  }

  /** The column-major scan order agrees with the order of positions. */
  lemma FlatIndexMonotone(p: Pixel, q: Pixel, rows: nat)
    requires p.i < rows && q.i < rows
    requires ColumnMajorBefore(p, q)
    ensures FlatIndex(p, rows) < FlatIndex(q, rows)
  {
    if p.j < q.j {
      MulMono(p.j + 1, q.j, rows);
    }
  }

  lemma FlatIndicesSnoc(ps: seq<Pixel>, p: Pixel, rows: nat)
    ensures FlatIndices(ps + [p], rows) == FlatIndices(ps, rows) + [FlatIndex(p, rows)]
  {
    assert forall n :: 0 <= n < |ps| ==> (ps + [p])[n] == ps[n];
  }
}
