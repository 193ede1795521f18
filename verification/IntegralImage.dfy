/** Sums over rectangles of an image by means of a table of the sums over all rectangles from its corner. */
module IntegralImage {
  import opened Basics

  ghost predicate IsImage(img: seq<seq<real>>, height: int, width: int) {
    0 <= height == |img| && 0 <= width && forall i :: 0 <= i < height ==> |img[i]| == width
  }

  // ------------------------------------------------------------- the sums themselves

  /** Columns c0 to c1 of a line, added up. */
  ghost function SegmentSum(line: seq<real>, c0: int, c1: int): real
    requires 0 <= c0 && c1 <= |line|
    decreases c1 - c0
  {
    if c1 <= c0 then 0.0 else SegmentSum(line, c0, c1 - 1) + line[c1 - 1]
  }

  /** Rows r0 to r1 and columns c0 to c1 of an image, added up. */
  ghost function RectangleSum(img: seq<seq<real>>, height: int, width: int, r0: int, r1: int, c0: int, c1: int): real
    requires IsImage(img, height, width) && 0 <= r0 && r1 <= height && 0 <= c0 && c1 <= width
    decreases r1 - r0
  {
    if r1 <= r0 then 0.0
    else RectangleSum(img, height, width, r0, r1 - 1, c0, c1) + SegmentSum(img[r1 - 1], c0, c1)
  }

  /** The sum over everything above row r and left of column c. */
  ghost function CornerSum(img: seq<seq<real>>, height: int, width: int, r: int, c: int): real
    requires IsImage(img, height, width) && 0 <= r <= height && 0 <= c <= width
  {
    RectangleSum(img, height, width, 0, r, 0, c)
  }

  lemma {:induction false} SegmentFromStart(line: seq<real>, c0: int, c1: int)
    requires 0 <= c0 <= c1 <= |line|
    ensures SegmentSum(line, c0, c1) == SegmentSum(line, 0, c1) - SegmentSum(line, 0, c0)
    decreases c1 - c0
  {
    if c0 < c1 {
      SegmentFromStart(line, c0, c1 - 1);
    }
  }

  lemma {:induction false} NoColumns(img: seq<seq<real>>, height: int, width: int, r0: int, r1: int, c0: int, c1: int)
    requires IsImage(img, height, width) && 0 <= r0 && r1 <= height && 0 <= c0 && c1 <= width && c1 <= c0
    ensures RectangleSum(img, height, width, r0, r1, c0, c1) == 0.0
    decreases r1 - r0
  {
    if r0 < r1 {
      NoColumns(img, height, width, r0, r1 - 1, c0, c1);
    }
  }

  /** A rectangle from four corners. */
  lemma {:induction false} RectangleFromCorners(img: seq<seq<real>>, height: int, width: int, r0: int, r1: int, c0: int, c1: int)
    requires IsImage(img, height, width) && 0 <= r0 <= r1 <= height && 0 <= c0 <= c1 <= width
    ensures RectangleSum(img, height, width, r0, r1, c0, c1) ==
      CornerSum(img, height, width, r0, c0) + CornerSum(img, height, width, r1, c1) - CornerSum(img, height, width, r0, c1) - CornerSum(img, height, width, r1, c0)
    decreases r1 - r0
  {
    if r0 < r1 {
      RectangleFromCorners(img, height, width, r0, r1 - 1, c0, c1);
      SegmentFromStart(img[r1 - 1], c0, c1);
    }
  }

  /** A corner sum from its three neighbours. */
  lemma CornerStep(img: seq<seq<real>>, height: int, width: int, i: int, j: int)
    requires IsImage(img, height, width) && 0 <= i < height && 0 <= j < width
    ensures CornerSum(img, height, width, i + 1, j + 1) ==
      img[i][j] - CornerSum(img, height, width, i, j) + CornerSum(img, height, width, i + 1, j) + CornerSum(img, height, width, i, j + 1)
  {
    assert SegmentSum(img[i], 0, j + 1) == SegmentSum(img[i], 0, j) + img[i][j];
  }

  // ----------------------------------------------------------- what a rectangle means

  function Clip(v: int, size: int): int {
    Max(0, Min(v, size))
  }

  /** The sum over the part of a rectangle that lies in the image. */
  ghost function ClippedSum(img: seq<seq<real>>, height: int, width: int, row: int, col: int, w: int, h: int): real
    requires IsImage(img, height, width)
  {
    RectangleSum(img, height, width, Clip(row, height), Clip(row + h, height), Clip(col, width), Clip(col + w, width))
  }

  /** Where the table's rectangle starts and ends: behind the image's last row it starts over from the first. */
  function UsedStart(start: int, size: int): int {
    if start <= size then Clip(start, size) else 0
  }

  function NotNegative(v: real): real {
    if v > 0.0 then v else 0.0
  }

  /** What the table gives: the clipped rectangle, unless it starts behind the image. */
  ghost function TableSum(img: seq<seq<real>>, height: int, width: int, row: int, col: int, w: int, h: int): real
    requires IsImage(img, height, width)
  {
    NotNegative(RectangleSum(img, height, width, UsedStart(row, height), Clip(row + h, height), UsedStart(col, width), Clip(col + w, width)))
  }

  /** A rectangle between two rows and two columns in any order; turning one of the pairs around changes the sign. */
  ghost function SignedSum(img: seq<seq<real>>, height: int, width: int, r0: int, r1: int, c0: int, c1: int): real
    requires IsImage(img, height, width) && 0 <= r0 <= height && 0 <= r1 <= height && 0 <= c0 <= width && 0 <= c1 <= width
  {
    var sum := RectangleSum(img, height, width, Min(r0, r1), Max(r0, r1), Min(c0, c1), Max(c0, c1));
    if (r0 <= r1) == (c0 <= c1) then sum else -sum
  }

  lemma SignedFromCorners(img: seq<seq<real>>, height: int, width: int, r0: int, r1: int, c0: int, c1: int)
    requires IsImage(img, height, width) && 0 <= r0 <= height && 0 <= r1 <= height && 0 <= c0 <= width && 0 <= c1 <= width
    ensures SignedSum(img, height, width, r0, r1, c0, c1) ==
      CornerSum(img, height, width, r0, c0) + CornerSum(img, height, width, r1, c1) - CornerSum(img, height, width, r0, c1) - CornerSum(img, height, width, r1, c0)
  {
    hide RectangleSum;
    hide CornerSum;
    RectangleFromCorners(img, height, width, Min(r0, r1), Max(r0, r1), Min(c0, c1), Max(c0, c1));
  }

  class Table {
    var height: int
    var width: int
    var matrix: array2<real>

    constructor ()
      ensures height == 0 && width == 0 && fresh(matrix)
    {
      height, width := 0, 0;
      matrix := new real[0, 0];
    }

    ghost predicate Valid(img: seq<seq<real>>)
      reads this, matrix
    {
      && IsImage(img, height, width) && matrix.Length0 == height && matrix.Length1 == width
      && forall i, j :: 0 <= i < height && 0 <= j < width ==> matrix[i, j] == CornerSum(img, height, width, i + 1, j + 1)
    }

    method Initialize(img: seq<seq<real>>, heightIn: int, widthIn: int)
      requires IsImage(img, heightIn, widthIn)
      modifies this
      ensures height == heightIn && width == widthIn && fresh(matrix) && Valid(img)
    {
      matrix := new real[heightIn, widthIn];
      height, width := heightIn, widthIn;
      for i := 0 to height
        invariant Filled(img, i)
        modifies matrix
      {
        FillRow(img, i);
      }
    }

    /** The first rows of the table are right. */
    ghost predicate Filled(img: seq<seq<real>>, rows: int)
      reads this, matrix
    {
      && IsImage(img, height, width) && matrix.Length0 == height && matrix.Length1 == width && rows <= height
      && forall i, j :: 0 <= i < rows && 0 <= j < width ==> matrix[i, j] == CornerSum(img, height, width, i + 1, j + 1)
    }

    method FillRow(img: seq<seq<real>>, i: int)
      requires Filled(img, i) && 0 <= i < height
      modifies matrix
      ensures Filled(img, i + 1)
    {
      for j := 0 to width
        invariant Filled(img, i)
        invariant forall k :: 0 <= k < j ==> matrix[i, k] == CornerSum(img, height, width, i + 1, k + 1)
      {
        var val := img[i][j];
        var a, b, c := 0.0, 0.0, 0.0;
        if i - 1 >= 0 && j - 1 >= 0 {
          a := matrix[i - 1, j - 1];
        }
        if j - 1 >= 0 {
          b := matrix[i, j - 1];
        }
        if i - 1 >= 0 {
          c := matrix[i - 1, j];
        }
        CornerStep(img, height, width, i, j);
        NoColumns(img, height, width, 0, i, 0, 0);
        NoColumns(img, height, width, 0, i + 1, 0, 0);
        matrix[i, j] := val - a + b + c;
      }
    }

    function GetValue(row: int, col: int): (v: real)
      requires matrix.Length0 == height && matrix.Length1 == width
      reads this, matrix
    {
      if !(0 <= row < height && 0 <= col < width) then 0.0 else matrix[row, col]
    }

    /** A corner of the rectangle: nothing lies above the first row or left of the first column. */
    lemma ValueIsCornerSum(img: seq<seq<real>>, row: int, col: int)
      requires Valid(img) && row < height && col < width
      ensures GetValue(row, col) == CornerSum(img, height, width, Clip(row + 1, height), Clip(col + 1, width))
    {
      if row < 0 {
      } else if col < 0 {
        NoColumns(img, height, width, 0, row + 1, 0, 0);
      }
    }

    /** A value of the table, where there is one. */
    method Corner(ghost img: seq<seq<real>>, row: int, col: int) returns (v: real)
      requires Valid(img) && row < height && col < width
      ensures v == CornerSum(img, height, width, Clip(row + 1, height), Clip(col + 1, width))
    {
      ValueIsCornerSum(img, row, col);
      v := 0.0;
      if row >= 0 && col >= 0 {
        v := GetValue(row, col);
      }
    }

    /** Four corners of the table, for any start and any size. */
    method GetRectangleSum(ghost img: seq<seq<real>>, row: int, col: int, widthIn: int, heightIn: int) returns (sum: real)
      requires Valid(img)
      ensures sum == NotNegative(SignedSum(img, height, width, UsedStart(row, height), Clip(row + heightIn, height),
                                           UsedStart(col, width), Clip(col + widthIn, width)))
      ensures 0 <= widthIn && 0 <= heightIn ==> sum == TableSum(img, height, width, row, col, widthIn, heightIn)
    {
      hide SignedSum;
      hide TableSum;
      hide CornerSum;
      hide Clip;
      hide UsedStart;
      var w, h := widthIn - 1, heightIn - 1;
      var ltRow := if row <= height then row - 1 else -1;
      var ltCol := if col <= width then col - 1 else -1;
      var rbRow := if row + h < height then row + h else height - 1;
      var rbCol := if col + w < width then col + w else width - 1;
      Ends(row, height, heightIn);
      Ends(col, width, widthIn);
      var a := Corner(img, ltRow, ltCol);
      var b := Corner(img, ltRow, rbCol);
      var c := Corner(img, rbRow, rbCol);
      var d := Corner(img, rbRow, ltCol);
      var res := a + c - b - d;
      SignedFromCorners(img, height, width, Clip(ltRow + 1, height), Clip(rbRow + 1, height), Clip(ltCol + 1, width), Clip(rbCol + 1, width));
      sum := if res > 0.0 then res else 0.0;
      if 0 <= widthIn && 0 <= heightIn {
        SignedSumOfSizes(img, height, width, row, col, widthIn, heightIn);
      }
    }
  }

  /** The ends of a rectangle along one axis. */
  lemma Ends(start: int, size: int, len: int)
    requires 0 <= size
    ensures Clip((if start <= size then start - 1 else -1) + 1, size) == UsedStart(start, size)
    ensures Clip((if start + len - 1 < size then start + len - 1 else size - 1) + 1, size) == Clip(start + len, size)
    ensures 0 <= UsedStart(start, size) <= size && 0 <= Clip(start + len, size) <= size
    ensures 0 <= len ==> UsedStart(start, size) <= Clip(start + len, size)
  {
  }

  lemma SignedSumOfSizes(img: seq<seq<real>>, height: int, width: int, row: int, col: int, w: int, h: int)
    requires IsImage(img, height, width) && 0 <= w && 0 <= h
    ensures NotNegative(SignedSum(img, height, width, UsedStart(row, height), Clip(row + h, height),
                                  UsedStart(col, width), Clip(col + w, width)))
      == TableSum(img, height, width, row, col, w, h)
  {
    hide RectangleSum;
    Ends(row, height, h);
    Ends(col, width, w);
  }

  // ----------------------------------------------------- when that is what was asked

  /** For rectangles that do not start behind the image, the table gives their clipped sum, but nothing negative. */
  lemma TableIsClippedSum(img: seq<seq<real>>, height: int, width: int, row: int, col: int, w: int, h: int)
    requires IsImage(img, height, width) && row <= height && col <= width
    ensures TableSum(img, height, width, row, col, w, h) == NotNegative(ClippedSum(img, height, width, row, col, w, h))
  {
  }

  ghost predicate AlwaysRight(height: int, width: int, row: int, col: int, w: int, h: int) {
    forall img :: IsImage(img, height, width) ==>
      TableSum(img, height, width, row, col, w, h) == NotNegative(ClippedSum(img, height, width, row, col, w, h))
  }

  /** A rectangle that starts behind the image has no part in it. */
  lemma BehindIsEmpty(img: seq<seq<real>>, height: int, width: int, row: int, col: int, w: int, h: int)
    requires IsImage(img, height, width) && 0 <= w && 0 <= h && (row > height || col > width)
    ensures ClippedSum(img, height, width, row, col, w, h) == 0.0
  {
    if row <= height {
      NoColumns(img, height, width, Clip(row, height), Clip(row + h, height), width, width);
    }
  }

  ghost function Ones(height: int, width: int): (img: seq<seq<real>>)
    requires 0 <= height && 0 <= width
    ensures IsImage(img, height, width)
    ensures forall i, j :: 0 <= i < height && 0 <= j < width ==> img[i][j] == 1.0
  {
    seq(height, i => seq(width, j => 1.0))
  }

  lemma {:induction false} OnesSegment(line: seq<real>, c0: int, c1: int)
    requires 0 <= c0 < c1 <= |line| && forall j :: 0 <= j < |line| ==> line[j] == 1.0
    ensures SegmentSum(line, c0, c1) > 0.0
    decreases c1 - c0
  {
    if c0 + 1 < c1 {
      OnesSegment(line, c0, c1 - 1);
    } else {
      assert SegmentSum(line, c0, c1 - 1) == 0.0;
    }
  }

  lemma {:induction false} OnesRectangle(height: int, width: int, r0: int, r1: int, c0: int, c1: int)
    requires 0 <= r0 < r1 <= height && 0 <= c0 < c1 <= width
    ensures RectangleSum(Ones(height, width), height, width, r0, r1, c0, c1) > 0.0
    decreases r1 - r0
  {
    var img := Ones(height, width);
    OnesSegment(img[r1 - 1], c0, c1);
    if r0 + 1 < r1 {
      OnesRectangle(height, width, r0, r1 - 1, c0, c1);
    } else {
      assert RectangleSum(img, height, width, r0, r1 - 1, c0, c1) == 0.0;
    }
  }

  /** The rectangle that the table uses has no cells. */
  predicate UsesNothing(height: int, width: int, row: int, col: int, w: int, h: int) {
    Clip(row + h, height) <= UsedStart(row, height) || Clip(col + w, width) <= UsedStart(col, width)
  }

  /**
   The table is right about a rectangle, whatever the image, exactly if the rectangle
   does not start behind the last row or column, or no cells are used for it anyway.
   */
  lemma WhenTheTableIsRight(height: int, width: int, row: int, col: int, w: int, h: int)
    requires 0 <= height && 0 <= width && 0 <= w && 0 <= h
    ensures AlwaysRight(height, width, row, col, w, h) <==>
      (row <= height && col <= width) || UsesNothing(height, width, row, col, w, h)
  {
    if row <= height && col <= width {
      forall img | IsImage(img, height, width)
        ensures TableSum(img, height, width, row, col, w, h) == NotNegative(ClippedSum(img, height, width, row, col, w, h))
      {
        TableIsClippedSum(img, height, width, row, col, w, h);
      }
    } else if UsesNothing(height, width, row, col, w, h) {
      forall img | IsImage(img, height, width)
        ensures TableSum(img, height, width, row, col, w, h) == NotNegative(ClippedSum(img, height, width, row, col, w, h))
      {
        BehindIsEmpty(img, height, width, row, col, w, h);
        if Clip(row + h, height) > UsedStart(row, height) {
          NoColumns(img, height, width, UsedStart(row, height), Clip(row + h, height), UsedStart(col, width), Clip(col + w, width));
        }
      }
    } else {
      var img := Ones(height, width);
      BehindIsEmpty(img, height, width, row, col, w, h);
      OnesRectangle(height, width, UsedStart(row, height), Clip(row + h, height), UsedStart(col, width), Clip(col + w, width));
      assert TableSum(img, height, width, row, col, w, h) != NotNegative(ClippedSum(img, height, width, row, col, w, h));
    }
  }

  // --------------------------------------------------------------- negative pixels

  ghost predicate NoNegativePixel(img: seq<seq<real>>, height: int, width: int)
    requires IsImage(img, height, width)
  {
    forall i, j :: 0 <= i < height && 0 <= j < width ==> img[i][j] >= 0.0
  }

  /** The table gives the true sum of every rectangle that does not start behind the image. */
  ghost predicate SumsAreTrue(img: seq<seq<real>>, height: int, width: int)
    requires IsImage(img, height, width)
  {
    forall row, col, w, h :: row <= height && col <= width && 0 <= w && 0 <= h ==>
      TableSum(img, height, width, row, col, w, h) == ClippedSum(img, height, width, row, col, w, h)
  }

  lemma {:induction false} SegmentIsNotNegative(line: seq<real>, c0: int, c1: int)
    requires 0 <= c0 && c1 <= |line| && forall j :: 0 <= j < |line| ==> line[j] >= 0.0
    ensures SegmentSum(line, c0, c1) >= 0.0
    decreases c1 - c0
  {
    if c0 < c1 {
      SegmentIsNotNegative(line, c0, c1 - 1);
    }
  }

  lemma {:induction false} RectangleIsNotNegative(img: seq<seq<real>>, height: int, width: int, r0: int, r1: int, c0: int, c1: int)
    requires IsImage(img, height, width) && NoNegativePixel(img, height, width)
    requires 0 <= r0 && r1 <= height && 0 <= c0 && c1 <= width
    ensures RectangleSum(img, height, width, r0, r1, c0, c1) >= 0.0
    decreases r1 - r0
  {
    if r0 < r1 {
      RectangleIsNotNegative(img, height, width, r0, r1 - 1, c0, c1);
      SegmentIsNotNegative(img[r1 - 1], c0, c1);
    }
  }

  lemma OnePixel(img: seq<seq<real>>, height: int, width: int, i: int, j: int)
    requires IsImage(img, height, width) && 0 <= i < height && 0 <= j < width
    ensures ClippedSum(img, height, width, i, j, 1, 1) == img[i][j]
  {
    assert SegmentSum(img[i], j, j) == 0.0;
    assert RectangleSum(img, height, width, i, i, j, j + 1) == 0.0;
  }

  /** The table gives true sums exactly if the image has no negative pixel. */
  lemma TrueIffNoNegativePixel(img: seq<seq<real>>, height: int, width: int)
    requires IsImage(img, height, width)
    ensures SumsAreTrue(img, height, width) <==> NoNegativePixel(img, height, width)
  {
    if NoNegativePixel(img, height, width) {
      forall row, col, w, h | row <= height && col <= width && 0 <= w && 0 <= h
        ensures TableSum(img, height, width, row, col, w, h) == ClippedSum(img, height, width, row, col, w, h)
      {
        TableIsClippedSum(img, height, width, row, col, w, h);
        RectangleIsNotNegative(img, height, width, Clip(row, height), Clip(row + h, height), Clip(col, width), Clip(col + w, width));
      }
    } else {
      var i, j :| 0 <= i < height && 0 <= j < width && img[i][j] < 0.0;
      OnePixel(img, height, width, i, j);
      assert TableSum(img, height, width, i, j, 1, 1) != ClippedSum(img, height, width, i, j, 1, 1);
    }
  }

  /** The whole of an image with the pixels 2 and -3 sums up to -1; the table says 0. */
  method NegativePixelIsLost() returns (sum: real)
    ensures sum == 0.0 && ClippedSum([[2.0, -3.0]], 1, 2, 0, 0, 2, 1) == -1.0
  {
    var img := [[2.0, -3.0]];
    var table := new Table();
    table.Initialize(img, 1, 2);
    sum := table.GetRectangleSum(img, 0, 0, 2, 1);
    assert SegmentSum(img[0], 0, 1) == 2.0 && SegmentSum(img[0], 0, 2) == -1.0;
    assert RectangleSum(img, 1, 2, 0, 0, 0, 2) == 0.0;
    assert RectangleSum(img, 1, 2, 0, 1, 0, 2) == -1.0;
  }
}
