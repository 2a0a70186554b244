/**
 * Helpers of the camera-calibration tool (main_cameraCalibration.cpp): the file
 * name of a path, the calibration-target point grid, the parser of the
 * `--pattern` option and the OpenCV flags derived from `--nRadialCoef`.
 *
 * A thrown exception is a `Failure` carrying the exception's class and message;
 * OpenCV's `float` coordinates are reals; `int flags` is a `bv32`.
 */
module CameraCalibration {

  import opened Arithmetic

  /** The calibration targets; `CCTagGrid` exists in builds with CCTag support. */
  datatype Pattern = Chessboard | CirclesGrid | AsymmetricCirclesGrid | CCTagGrid

  /** The exceptions thrown by the modelled code, with their messages. */
  datatype Error = InvalidArgument(what: string) | InvalidOptionValue(what: string)

  datatype Result<T> = Ok(value: T) | Failure(error: Error)

  /** `cv::Point3f`. */
  datatype Point3 = Point3(x: real, y: real, z: real)

  // ---------------------------------------------------------------------------
  // getFilename
  // ---------------------------------------------------------------------------

  /** The position of the last `c` in `s`, if any (`std::string::rfind`). */
  function RFind(s: string, c: char): (r: int)
    ensures -1 <= r < |s|
    ensures r == -1 <==> c !in s
    ensures r >= 0 ==> s[r] == c && c !in s[r + 1..]
  {
    if |s| == 0 then -1
    else if s[|s| - 1] == c then |s| - 1
    else assert s[..|s| - 1] + [s[|s| - 1]] == s; RFind(s[..|s| - 1], c)
  }

  /**
   * `getFilename`: the part of `filepath` after its last '/', or the whole path
   * when it has none. The result holds no '/', is a suffix of the path, and when
   * shorter than the path it is preceded by a '/'.
   */
  function GetFilename(filepath: string): (r: string)
    ensures '/' !in r
    ensures |r| <= |filepath| && r == filepath[|filepath| - |r|..]
    ensures '/' !in filepath ==> r == filepath
    ensures '/' in filepath ==> |r| < |filepath| && filepath[|filepath| - |r| - 1] == '/'
  {
    var found := RFind(filepath, '/');
    if found == -1 then filepath else filepath[found + 1..]
  }

  /** Taking the file name of a file name changes nothing. */
  lemma GetFilenameIdempotent(filepath: string)
    ensures GetFilename(GetFilename(filepath)) == GetFilename(filepath)
  {
  }

  /** Characters other than `c` after the position searched do not move it. */
  lemma {:induction false} RFindSkips(s: string, t: string, c: char)
    requires c !in t
    ensures RFind(s + t, c) == RFind(s, c)
  {
    if |t| == 0 {
      assert s + t == s;
    } else {
      var u := s + t;
      assert u[..|u| - 1] == s + t[..|t| - 1];
      RFindSkips(s, t[..|t| - 1], c);
    }
  }

  /** Joining a folder and a name with '/' and taking the file name gives the name back. */
  lemma GetFilenameOfJoin(folder: string, name: string)
    requires '/' !in name
    ensures GetFilename(folder + "/" + name) == name
  {
    RFindSkips(folder + "/", name, '/');
    assert (folder + "/" + name)[|folder| + 1..] == name;
  }

  // ---------------------------------------------------------------------------
  // calcChessboardCorners
  // ---------------------------------------------------------------------------

  /**
   * Target point (row i, column j) for square size s: (j·s, i·s, 0) on a regular
   * grid and ((2j + i mod 2)·s, i·s, 0) on the asymmetric circle grid, whose odd
   * rows are shifted by one square.
   */
  function BoardPoint(pattern: Pattern, s: real, i: nat, j: nat): Point3
  {
    if pattern == AsymmetricCirclesGrid then Point3(((2 * j + i % 2) as real) * s, (i as real) * s, 0.0)
    else Point3((j as real) * s, (i as real) * s, 0.0)
  }

  /** The points of row i, columns 0 .. w-1. */
  function BoardRow(pattern: Pattern, s: real, i: nat, w: nat): (r: seq<Point3>)
    ensures |r| == w
  {
    if w == 0 then [] else BoardRow(pattern, s, i, w - 1) + [BoardPoint(pattern, s, i, w - 1)]
  }

  /** The points of rows 0 .. h-1, row after row. */
  function Board(pattern: Pattern, s: real, h: nat, w: nat): (r: seq<Point3>)
  {
    if h == 0 then [] else Board(pattern, s, h - 1, w) + BoardRow(pattern, s, h - 1, w)
  }

  /** A negative board dimension makes the source loop run zero times. */
  function Count(n: int): nat
  {
    if n < 0 then 0 else n
  }

  /**
   * `calcChessboardCorners`: whatever `corners` held is dropped; a chessboard, a
   * circle grid or an asymmetric circle grid yields its points row by row, and a
   * CCTag grid throws `invalid_argument` leaving no points.
   */
  method CalcChessboardCorners(height: int, width: int, squareSize: real, pattern: Pattern)
    returns (corners: seq<Point3>, outcome: Result<()>)
    ensures outcome.Failure? <==> pattern == CCTagGrid
    ensures outcome.Failure? ==> corners == [] && outcome.error == InvalidArgument("CCTag not implemented.")
    ensures outcome.Ok? ==> corners == Board(pattern, squareSize, Count(height), Count(width))
  {
    corners := [];
    match pattern
    case Chessboard | CirclesGrid =>
      corners := RegularGrid(corners, pattern, Count(height), Count(width), squareSize);
      outcome := Ok(());
    case AsymmetricCirclesGrid =>
      corners := AsymmetricGrid(corners, Count(height), Count(width), squareSize);
      outcome := Ok(());
    case CCTagGrid =>
      outcome := Failure(InvalidArgument("CCTag not implemented."));
  }

  /** The loops of the chessboard and circle-grid case: point (j·s, i·s, 0) pushed row by row. */
  method RegularGrid(start: seq<Point3>, pattern: Pattern, h: nat, w: nat, squareSize: real)
    returns (corners: seq<Point3>)
    requires pattern == Chessboard || pattern == CirclesGrid
    ensures corners == start + Board(pattern, squareSize, h, w)
  {
    corners := start;
    for i := 0 to h
      invariant corners == start + Board(pattern, squareSize, i, w)
    {
      ghost var done := corners;
      for j := 0 to w
        invariant corners == done + BoardRow(pattern, squareSize, i, j)
      {
        var p := Point3((j as real) * squareSize, (i as real) * squareSize, 0.0);
        assert p == BoardPoint(pattern, squareSize, i, j);
        assert done + BoardRow(pattern, squareSize, i, j) + [p] == done + BoardRow(pattern, squareSize, i, j + 1);
        corners := corners + [p];
      }
      assert done + BoardRow(pattern, squareSize, i, w) == start + Board(pattern, squareSize, i + 1, w);
    }
  }

  /** The loops of the asymmetric-circle-grid case: point ((2j + i mod 2)·s, i·s, 0) row by row. */
  method AsymmetricGrid(start: seq<Point3>, h: nat, w: nat, squareSize: real)
    returns (corners: seq<Point3>)
    ensures corners == start + Board(AsymmetricCirclesGrid, squareSize, h, w)
  {
    corners := start;
    for i := 0 to h
      invariant corners == start + Board(AsymmetricCirclesGrid, squareSize, i, w)
    {
      ghost var done := corners;
      for j := 0 to w
        invariant corners == done + BoardRow(AsymmetricCirclesGrid, squareSize, i, j)
      {
        var p := Point3(((2 * j + i % 2) as real) * squareSize, (i as real) * squareSize, 0.0);
        assert p == BoardPoint(AsymmetricCirclesGrid, squareSize, i, j);
        assert done + BoardRow(AsymmetricCirclesGrid, squareSize, i, j) + [p] ==
          done + BoardRow(AsymmetricCirclesGrid, squareSize, i, j + 1);
        corners := corners + [p];
      }
      assert done + BoardRow(AsymmetricCirclesGrid, squareSize, i, w) ==
        start + Board(AsymmetricCirclesGrid, squareSize, i + 1, w);
    }
  }

  lemma {:induction false} BoardRowAt(pattern: Pattern, s: real, i: nat, w: nat, j: nat)
    requires j < w
    ensures BoardRow(pattern, s, i, w)[j] == BoardPoint(pattern, s, i, j)
  {
    if j < w - 1 {
      BoardRowAt(pattern, s, i, w - 1, j);
    }
  }

  /** The board holds h·w points. */
  lemma {:induction false} BoardLength(pattern: Pattern, s: real, h: nat, w: nat)
    ensures |Board(pattern, s, h, w)| == h * w
  {
    if h > 0 {
      BoardLength(pattern, s, h - 1, w);
      assert (h - 1) * w + w == h * w;
    }
  }

  /**
   * Point i·w + j of the board is the one of row i and column j: the row-major
   * layout OpenCV's detectors report corners in.
   */
  lemma {:induction false} BoardAtPoint(pattern: Pattern, s: real, h: nat, w: nat, i: nat, j: nat)
    requires i < h && j < w
    ensures i * w + j < |Board(pattern, s, h, w)|
    ensures Board(pattern, s, h, w)[i * w + j] == BoardPoint(pattern, s, i, j)
  {
    BoardLength(pattern, s, h - 1, w);
    assert (h - 1) * w + w == h * w;
    if i < h - 1 {
      MulLess(i, h - 1, w);
      BoardAtPoint(pattern, s, h - 1, w, i, j);
    } else {
      BoardRowAt(pattern, s, h - 1, w, j);
    }
  }

  /** Every point of a board lies in the plane z = 0. */
  lemma {:induction false} BoardIsPlanar(pattern: Pattern, s: real, h: nat, w: nat)
    ensures forall k :: 0 <= k < |Board(pattern, s, h, w)| ==> Board(pattern, s, h, w)[k].z == 0.0
  {
    if h > 0 {
      BoardIsPlanar(pattern, s, h - 1, w);
      var front: seq<Point3>, last: seq<Point3> := Board(pattern, s, h - 1, w), BoardRow(pattern, s, h - 1, w);
      forall k | 0 <= k < |front + last|
        ensures (front + last)[k].z == 0.0
      {
        if k >= |front| {
          BoardRowAt(pattern, s, h - 1, w, k - |front|);
        }
      }
    }
  }

  lemma MulLess(i: nat, h: nat, w: nat)
    requires i < h
    ensures i * w + w <= h * w
  {
    MulSucc(i, w);
    MulMono(i + 1, h, w);
  }

  // ---------------------------------------------------------------------------
  // operator>>(std::istream&, Pattern&)
  // ---------------------------------------------------------------------------

  /** The characters `std::isspace` accepts in the C locale. */
  predicate IsSpace(c: char)
  {
    c == ' ' || c == '\t' || c == '\n' || c == '\r' || c == '\U{B}' || c == '\U{C}'
  }

  /** The stream after `operator>>` skipped the leading white space. */
  function SkipSpace(s: string): (r: string)
    ensures |r| <= |s| && r == s[|s| - |r|..]
    ensures |r| > 0 ==> !IsSpace(r[0])
    ensures forall k :: 0 <= k < |s| - |r| ==> IsSpace(s[k])
  {
    if |s| > 0 && IsSpace(s[0]) then SkipSpace(s[1..]) else s
  }

  /** The longest prefix of s without white space. */
  function Word(s: string): (r: string)
    ensures r <= s
    ensures forall k :: 0 <= k < |r| ==> !IsSpace(r[k])
    ensures |r| < |s| ==> IsSpace(s[|r|])
  {
    if |s| > 0 && !IsSpace(s[0]) then [s[0]] + Word(s[1..]) else []
  }

  /** `in >> token`: the first white-space-delimited word of the stream, empty when there is none. */
  function ExtractToken(input: string): string
  {
    Word(SkipSpace(input))
  }

  /** `std::toupper` in the C locale. */
  function Upper(c: char): char
  {
    if 'a' <= c <= 'z' then (c as int - 32) as char else c
  }

  /**
   * `boost::to_upper`: the length is kept, no lower-case letter is left, every
   * lower-case letter becomes its own capital (the capital at the same place in
   * the alphabet) and every other character is kept.
   */
  function ToUpper(s: string): (r: string)
    ensures |r| == |s|
    ensures forall k :: 0 <= k < |r| ==> !('a' <= r[k] <= 'z')
    ensures forall k :: 0 <= k < |s| && 'a' <= s[k] <= 'z' ==> 'A' <= r[k] <= 'Z'
    ensures forall k :: 0 <= k < |s| && 'a' <= s[k] <= 'z' ==>
      r[k] as int - 'A' as int == s[k] as int - 'a' as int
    ensures forall k :: 0 <= k < |s| && !('a' <= s[k] <= 'z') ==> r[k] == s[k]
  {
    seq(|s|, k requires 0 <= k < |s| => Upper(s[k]))
  }

  /** The word that selects each pattern, once upper-cased; CCTag's is disabled in the source. */
  function Keyword(p: Pattern): string
  {
    match p
    case Chessboard => "CHESSBOARD"
    case CirclesGrid => "CIRCLES"
    case AsymmetricCirclesGrid => "ASYMMETRIC_CIRCLES"
    case CCTagGrid => "CCTAG"
  }

  /**
   * `operator>>` for `Pattern`: reads one token, upper-cases it and looks it up.
   * A token that is none of the three keywords (CCTag's included) throws
   * `invalid_option_value` naming the upper-cased token.
   */
  function ParsePattern(input: string): (r: Result<Pattern>)
    ensures var token := ToUpper(ExtractToken(input));
      (r.Ok? <==> token == "CHESSBOARD" || token == "CIRCLES" || token == "ASYMMETRIC_CIRCLES") &&
      (r.Ok? ==> r.value != CCTagGrid && Keyword(r.value) == token) &&
      (r.Failure? ==> r.error == InvalidOptionValue("Invalid pattern: " + token))
  {
    var token := ToUpper(ExtractToken(input));
    if token == "CHESSBOARD" then Ok(Chessboard)
    else if token == "CIRCLES" then Ok(CirclesGrid)
    else if token == "ASYMMETRIC_CIRCLES" then Ok(AsymmetricCirclesGrid)
    else Failure(InvalidOptionValue("Invalid pattern: " + token))
  }

  /** Upper-casing leaves upper-case text as it is. */
  lemma ToUpperKeyword(p: Pattern)
    ensures ToUpper(Keyword(p)) == Keyword(p)
  {
    var k := Keyword(p);
    assert forall n :: 0 <= n < |k| ==> !('a' <= k[n] <= 'z');
  }

  /** A keyword with no surrounding blanks is its own token. */
  lemma ExtractKeyword(p: Pattern)
    ensures ExtractToken(Keyword(p)) == Keyword(p)
  {
    var k := Keyword(p);
    assert forall n :: 0 <= n < |k| ==> !IsSpace(k[n]);
    WordOfUnspaced(k);
  }

  lemma {:induction false} WordOfUnspaced(s: string)
    requires forall n :: 0 <= n < |s| ==> !IsSpace(s[n])
    ensures Word(s) == s
  {
    if |s| > 0 {
      WordOfUnspaced(s[1..]);
    }
  }

  /** Each pattern the parser knows is read back from its keyword. */
  lemma ParseKeyword(p: Pattern)
    requires p != CCTagGrid
    ensures ParsePattern(Keyword(p)) == Ok(p)
  {
    ExtractKeyword(p);
    ToUpperKeyword(p);
  }

  /** The CCTag keyword is disabled: the parser rejects it and never yields `CCTagGrid`. */
  lemma ParseRejectsCCTag()
    ensures ParsePattern(Keyword(CCTagGrid)) == Failure(InvalidOptionValue("Invalid pattern: CCTAG"))
  {
    ExtractKeyword(CCTagGrid);
    ToUpperKeyword(CCTagGrid);
  }

  /** Upper-casing never turns a character into white space or back. */
  lemma UpperKeepsSpace(c: char)
    ensures IsSpace(Upper(c)) <==> IsSpace(c)
    ensures Upper(Upper(c)) == Upper(c)
  {
  }

  lemma ToUpperTail(s: string)
    requires |s| > 0
    ensures ToUpper(s)[1..] == ToUpper(s[1..])
  {
  }

  lemma {:induction false} SkipSpaceUpper(s: string)
    ensures SkipSpace(ToUpper(s)) == ToUpper(SkipSpace(s))
  {
    if |s| > 0 {
      UpperKeepsSpace(s[0]);
      ToUpperTail(s);
      SkipSpaceUpper(s[1..]);
    }
  }

  lemma {:induction false} WordUpper(s: string)
    ensures Word(ToUpper(s)) == ToUpper(Word(s))
  {
    if |s| > 0 {
      var u := ToUpper(s);
      UpperKeepsSpace(s[0]);
      ToUpperTail(s);
      WordUpper(s[1..]);
      if !IsSpace(s[0]) {
        assert Word(u) == [u[0]] + Word(u[1..]);
        ToUpperCons(s[0], Word(s[1..]));
      }
    }
  }

  lemma ToUpperCons(c: char, s: string)
    ensures ToUpper([c] + s) == [Upper(c)] + ToUpper(s)
  {
  }

  lemma ToUpperIdempotent(s: string)
    ensures ToUpper(ToUpper(s)) == ToUpper(s)
  {
    forall k | 0 <= k < |s|
      ensures ToUpper(ToUpper(s))[k] == ToUpper(s)[k]
    {
      UpperKeepsSpace(s[k]);
    }
  }

  /**
   * The parser ignores case: upper-casing the whole input first changes neither
   * the pattern read nor the message of the exception.
   */
  lemma ParseIgnoresCase(input: string)
    ensures ParsePattern(ToUpper(input)) == ParsePattern(input)
  {
    SkipSpaceUpper(input);
    WordUpper(SkipSpace(input));
    ToUpperIdempotent(ExtractToken(input));
  }

  /** White space before the token does not change the result. */
  lemma {:induction false} ParseSkipsLeadingSpace(c: char, input: string)
    requires IsSpace(c)
    ensures ParsePattern([c] + input) == ParsePattern(input)
  {
    assert ([c] + input)[1..] == input;
  }

  // ---------------------------------------------------------------------------
  // Radial distortion flags (main)
  // ---------------------------------------------------------------------------

  const CalibZeroTangentDist: bv32 := 8
  const CalibFixK1: bv32 := 32
  const CalibFixK2: bv32 := 64
  const CalibFixK3: bv32 := 128
  const CalibFixK4: bv32 := 2048
  const CalibFixK5: bv32 := 4096
  const CalibFixK6: bv32 := 8192

  /** `fixRadialCoefs[k]`: the flag that keeps radial coefficient k+1 fixed. */
  function FixRadialCoef(k: nat): bv32
    requires k < 6
  {
    if k == 0 then CalibFixK1
    else if k == 1 then CalibFixK2
    else if k == 2 then CalibFixK3
    else if k == 3 then CalibFixK4
    else if k == 4 then CalibFixK5
    else CalibFixK6
  }

  /** The union of the flags `fixRadialCoefs[lo .. hi-1]`. */
  function FixBits(lo: nat, hi: nat): bv32
    requires hi <= 6
    decreases hi
  {
    if hi <= lo then 0 else FixBits(lo, hi - 1) | FixRadialCoef(hi - 1)
  }

  /** Decimal notation of n (`std::to_string`). */
  function NatToString(n: nat): (r: string)
    ensures |r| > 0 && forall k :: 0 <= k < |r| ==> '0' <= r[k] <= '9'
    decreases n
  {
    var d := [(48 + n % 10) as char];
    if n < 10 then d else NatToString(n / 10) + d
  }

  /** The number a string of decimal digits denotes, most significant digit first. */
  function DecimalValue(s: string): nat
    requires forall k :: 0 <= k < |s| ==> '0' <= s[k] <= '9'
  {
    if |s| == 0 then 0 else DecimalValue(s[..|s| - 1]) * 10 + (s[|s| - 1] as int - '0' as int)
  }

  /** `NatToString` spells n in decimal, with no leading zero. */
  lemma {:induction false} NatToStringValue(n: nat)
    ensures DecimalValue(NatToString(n)) == n
    ensures NatToString(n)[0] == '0' ==> n == 0 && NatToString(n) == "0"
    decreases n
  {
    if n >= 10 {
      var t := NatToString(n);
      NatToStringValue(n / 10);
      assert t[..|t| - 1] == NatToString(n / 10);
    }
  }

  /**
   * The outcome of the radial-coefficient rule for a count n: a count outside
   * 1 .. 6 throws `invalid_option_value`; otherwise zero tangential distortion is
   * set and the coefficients from index n on are fixed (`FlagsForMeaning`).
   */
  function FlagsFor(n: nat): Result<bv32>
  {
    if n < 1 || n > 6 then Failure(InvalidOptionValue("Only supports 2 or 3 radial coefs: " + NatToString(n)))
    else Ok(CalibZeroTangentDist | FixBits(n, 6))
  }

  /**
   * The flag computation of `main` on the count the user gave: zero tangential
   * distortion always; a count of radial coefficients outside 1 .. 6 throws
   * `invalid_option_value`; otherwise the coefficients from index `nbRadialCoef`
   * on are fixed.
   */
  method RadialFlags(nbRadialCoef: nat) returns (r: Result<bv32>)
    ensures r == FlagsFor(nbRadialCoef)
  {
    var flags: bv32 := 0;
    flags := flags | CalibZeroTangentDist;
    if nbRadialCoef < 1 || nbRadialCoef > 6 {
      return Failure(InvalidOptionValue("Only supports 2 or 3 radial coefs: " + NatToString(nbRadialCoef)));
    }
    for i := nbRadialCoef to 6
      invariant flags == CalibZeroTangentDist | FixBits(nbRadialCoef, i)
    {
      flags := flags | FixRadialCoef(i);
    }
    return Ok(flags);
  }

  /**
   * What the rule decides: a count is accepted exactly when it lies in 1 .. 6;
   * then zero tangential distortion is set and the fix flag of coefficient index
   * i is set exactly when n <= i; a rejected count throws with the source's
   * message.
   */
  lemma FlagsForMeaning(n: nat)
    ensures FlagsFor(n).Ok? <==> 1 <= n <= 6
    ensures FlagsFor(n).Ok? ==> FlagsFor(n).value & CalibZeroTangentDist != 0
    ensures FlagsFor(n).Ok? ==> FixesFrom(FlagsFor(n).value, n)
    ensures FlagsFor(n).Ok? ==> OnlyRadialBits(FlagsFor(n).value)
    ensures FlagsFor(n).Failure? ==>
      FlagsFor(n).error == InvalidOptionValue("Only supports 2 or 3 radial coefs: " + NatToString(n))
  {
    if 1 <= n <= 6 {
      RadialFlagBits(n, FlagsFor(n).value);
      FlagsForOnlyRadial(n);
    }
  }

  /** An accepted count sets no bit besides zero tangential distortion and the fix flags. */
  lemma FlagsForOnlyRadial(n: nat)
    requires 1 <= n <= 6
    ensures FlagsFor(n).Ok? && OnlyRadialBits(FlagsFor(n).value)
  {
    if n == 1 {
      assert FixBits(1, 2) == CalibFixK2;
      assert FixBits(1, 3) == CalibFixK2 | CalibFixK3;
      assert FixBits(1, 4) == CalibFixK2 | CalibFixK3 | CalibFixK4;
      assert FixBits(1, 5) == CalibFixK2 | CalibFixK3 | CalibFixK4 | CalibFixK5;
      assert FixBits(1, 6) == CalibFixK2 | CalibFixK3 | CalibFixK4 | CalibFixK5 | CalibFixK6;
    } else if n == 2 {
      assert FixBits(2, 3) == CalibFixK3;
      assert FixBits(2, 4) == CalibFixK3 | CalibFixK4;
      assert FixBits(2, 5) == CalibFixK3 | CalibFixK4 | CalibFixK5;
      assert FixBits(2, 6) == CalibFixK3 | CalibFixK4 | CalibFixK5 | CalibFixK6;
    } else if n == 3 {
      assert FixBits(3, 4) == CalibFixK4;
      assert FixBits(3, 5) == CalibFixK4 | CalibFixK5;
      assert FixBits(3, 6) == CalibFixK4 | CalibFixK5 | CalibFixK6;
    } else if n == 4 {
      assert FixBits(4, 5) == CalibFixK5;
      assert FixBits(4, 6) == CalibFixK5 | CalibFixK6;
    } else if n == 5 {
      assert FixBits(5, 6) == CalibFixK6;
    }
  }

  /** Of the six fix flags, `flags` holds exactly those of the coefficient indices n .. 5. */
  predicate FixesFrom(flags: bv32, n: nat)
  {
    forall i :: 0 <= i < 6 ==> (flags & FixRadialCoef(i) != 0 <==> n <= i)
  }

  /** No bit is set besides zero tangential distortion and the six fix flags. */
  predicate OnlyRadialBits(flags: bv32)
  {
    flags & !(CalibZeroTangentDist | CalibFixK1 | CalibFixK2 | CalibFixK3 | CalibFixK4 | CalibFixK5 | CalibFixK6) == 0
  }

  /** The bits of zero tangential distortion plus the fix flags of indices n .. 5. */
  lemma RadialFlagBits(n: nat, flags: bv32)
    requires flags == CalibZeroTangentDist | FixBits(n, 6)
    ensures flags & CalibZeroTangentDist != 0
    ensures FixesFrom(flags, n)
    ensures OnlyRadialBits(flags)
  {
  }

  /**
   * `main` as written: the check and the loop at lines 366-371 read `nbRadialCoef`
   * before `po::notify` (line 373) stores the option in it. The variable has no
   * initialiser, so they see whatever it held, `heldBeforeNotify`, and the count
   * the user gave plays no part.
   */
  function FlagsAsWritten(userCount: nat, heldBeforeNotify: nat): (r: Result<bv32>)
    ensures r.Ok? <==> 1 <= heldBeforeNotify <= 6
  {
    FlagsFor(heldBeforeNotify)
  }

  /**
   * As written, a valid count is rejected when the variable happens to hold 0,
   * and an invalid count is accepted when it happens to hold 2.
   */
  lemma FlagsReadBeforeNotify()
    ensures FlagsFor(3).Ok? && FlagsAsWritten(3, 0).Failure?
    ensures FlagsFor(9).Failure? && FlagsAsWritten(9, 2).Ok?
  {
  }
}
