/**
 The 16-bit checksum of an image: read line by line, or chunk by chunk in the
 order of the blocks. Complex images have two values for a pixel. What is read
 are integers or floating-point numbers; `value` is the integer of either.
 */
module Checksum {
  import opened Tiling

  const PRIMES := [7, 11, 13, 17, 19, 23, 29, 31, 37, 41, 43]
  const LARGEST_MODULO := 43

  const INT_MIN := -0x8000_0000
  const INT_MAX := 0x7FFF_FFFF

  /** So many values of at most 42 each may be added to a reduced sum. */
  const SAFE_COUNT := 51_129_002

  /** The remainder of a division that truncates towards zero. */
  function Rem(v: int, p: int): (r: int)
    requires p > 0
    ensures -p < r < p && (v >= 0 ==> r >= 0) && (v <= 0 ==> r <= 0)
    ensures v == p * (if v >= 0 then v / p else -(-v / p)) + r
  {
    if v >= 0 then v % p else -(-v % p)
  }

  datatype Double = NotFinite | Finite(value: real)

  /** The integer that stands for a floating-point value: rounded, and kept in range. */
  function IntFromDouble(d: Double): (n: int)
    ensures INT_MIN <= n <= INT_MAX
    ensures d.Finite? && -2147483647.5 <= d.value <= 2147483646.5 ==> n as real - 0.5 <= d.value < n as real + 0.5
    ensures d.Finite? && d.value < -2147483647.5 ==> n == -2147483647
    ensures d.Finite? && d.value > 2147483646.5 ==> n == INT_MAX
    ensures n == INT_MIN <==> d.NotFinite?
  {
    match d
    case NotFinite => INT_MIN
    case Finite(value) =>
      var v := value + 0.5;
      if v < -2147483647.0 then -2147483647 else if v > 2147483647.0 then 2147483647 else v.Floor
  }

  // ------------------------------------------------------------------ the primes

  ghost predicate IsPrime(n: int) {
    n >= 2 && forall d :: 2 <= d < n ==> n % d != 0
  }

  /** Below 49, a number with a divisor is a multiple of 2, 3 or 5. */
  lemma SmallDivisor(n: int, d: int)
    requires 2 <= d < n < 49 && n % d == 0
    ensures n % 2 == 0 || n % 3 == 0 || n % 5 == 0
  {
    var q := n / d;
    assert n == d * q;
    if d <= 6 {
      SmallFactor(n, d, q);
    } else if q <= 6 {
      assert q >= 2 by {
        assert q <= 0 ==> d * q <= 0;
        assert q == 1 ==> d * q == d;
      }
      assert n == q * d;
      SmallFactor(n, q, d);
    } else {
      Tiling.AtLeast(d, 7, q);
      assert false;
    }
  }

  lemma SmallFactor(n: int, f: int, g: int)
    requires 2 <= f <= 6 && n == f * g
    ensures n % 2 == 0 || n % 3 == 0 || n % 5 == 0
  {
    if f == 2 || f == 3 || f == 5 {
      assert n % f == 0;
    } else {
      assert n == 2 * (f / 2 * g);
    }
  }

  lemma Sieve(n: int)
    requires 7 <= n <= LARGEST_MODULO
    ensures n in PRIMES <==> n % 2 != 0 && n % 3 != 0 && n % 5 != 0
  {
  }

  /** The moduli are the eleven primes from 7 to 43, in order and without a gap. */
  lemma ModuliAreConsecutivePrimes()
    ensures |PRIMES| == 11 && forall i, j :: 0 <= i < j < |PRIMES| ==> PRIMES[i] < PRIMES[j]
    ensures forall n :: 7 <= n <= LARGEST_MODULO ==> (n in PRIMES <==> IsPrime(n))
  {
    forall n | 7 <= n <= LARGEST_MODULO
      ensures n in PRIMES <==> IsPrime(n)
    {
      Sieve(n);
      forall d | 2 <= d < n && n % d == 0
        ensures n !in PRIMES
      {
        SmallDivisor(n, d);
      }
    }
  }

  // ---------------------------------------------------------- the checksum as a sum

  /** Whose turn it is for value number k. */
  function Turn(k: int): (t: int)
    ensures 0 <= t < 11
  {
    k % 11
  }

  function Prime(k: int): (p: int)
    ensures 7 <= p <= LARGEST_MODULO
  {
    PRIMES[Turn(k)]
  }

  lemma NextTurn(k: int)
    ensures Turn(k + 1) == (if Turn(k) + 1 > 10 then 0 else Turn(k) + 1) && Prime(k) == PRIMES[Turn(k)]
  {
  }

  /** The lower 16 bits of a two's complement number. */
  function Low16(n: int): (c: int)
    ensures 0 <= c < 0x1_0000
  {
    n % 0x1_0000
  }

  /** What value number i of a line adds, when `start` values come before the line. */
  function Term<T>(line: seq<T>, value: T -> int, start: int, i: int): (t: int)
    requires 0 <= i < |line|
    ensures -LARGEST_MODULO < t < LARGEST_MODULO
  {
    Rem(value(line[i]), Prime(start + i))
  }

  function LineSum<T>(line: seq<T>, value: T -> int, start: int, n: int): int
    requires 0 <= n <= |line|
  {
    if n == 0 then 0 else LineSum(line, value, start, n - 1) + Term(line, value, start, n - 1)
  }

  ghost predicate Uniform<T>(lines: seq<seq<T>>, len: int) {
    forall y :: 0 <= y < |lines| ==> |lines[y]| == len
  }

  /** The first n values of the lines from a to b. */
  ghost function BandSum<T>(lines: seq<seq<T>>, value: T -> int, len: int, a: int, b: int, n: int): int
    requires Uniform(lines, len) && 0 <= a <= b <= |lines| && 0 <= n <= len
    decreases b - a
  {
    if a == b then 0 else BandSum(lines, value, len, a, b - 1, n) + LineSum(lines[b - 1], value, (b - 1) * len, n)
  }

  /** All values, each modulo the prime whose turn it is when they are counted line by line. */
  ghost function ChecksumOf<T>(lines: seq<seq<T>>, value: T -> int, len: int): (c: int)
    requires Uniform(lines, len) && 0 <= len
    ensures 0 <= c < 0x1_0000
  {
    Low16(BandSum(lines, value, len, 0, |lines|, len))
  }

  lemma {:induction false} BandSumEmpty<T>(lines: seq<seq<T>>, value: T -> int, len: int, a: int, b: int)
    requires Uniform(lines, len) && 0 <= a <= b <= |lines| && 0 <= len
    ensures BandSum(lines, value, len, a, b, 0) == 0
    decreases b - a
  {
    if a < b {
      BandSumEmpty(lines, value, len, a, b - 1);
    }
  }

  lemma {:induction false} BandSumSplit<T>(lines: seq<seq<T>>, value: T -> int, len: int, a: int, m: int, b: int, n: int)
    requires Uniform(lines, len) && 0 <= a <= m <= b <= |lines| && 0 <= n <= len
    ensures BandSum(lines, value, len, a, b, n) == BandSum(lines, value, len, a, m, n) + BandSum(lines, value, len, m, b, n)
    decreases b - m
  {
    if m < b {
      BandSumSplit(lines, value, len, a, m, b - 1, n);
    }
  }

  lemma BandSumOne<T>(lines: seq<seq<T>>, value: T -> int, len: int, y: int, n: int)
    requires Uniform(lines, len) && 0 <= y < |lines| && 0 <= n <= len
    ensures BandSum(lines, value, len, y, y + 1, n) == LineSum(lines[y], value, y * len, n)
  {
    assert BandSum(lines, value, len, y, y, n) == 0;
  }

  /** Reducing on the way does not matter. */
  lemma ReduceOnTheWay(sum: int, c: int, more: int)
    requires c == Low16(sum)
    ensures Low16(c + more) == Low16(sum + more)
  {
  }

  lemma {:induction false} LineSumGrows<T>(line: seq<T>, value: T -> int, start: int, from: int, upTo: int)
    requires 0 <= from <= upTo <= |line|
    ensures -42 * (upTo - from) <= LineSum(line, value, start, upTo) - LineSum(line, value, start, from) <= 42 * (upTo - from)
    decreases upTo - from
  {
    if from < upTo {
      LineSumGrows(line, value, start, from, upTo - 1);
    }
  }

  /** No partial sum of a chunk's line leaves the 32-bit range while the line has at most 51,129,002 values. */
  lemma PartialSumsFit<T>(line: seq<T>, value: T -> int, start: int, from: int, i: int, upTo: int, c0: int)
    requires 0 <= from <= i <= upTo <= |line| && upTo - from <= SAFE_COUNT && 0 <= c0 < 0x1_0000
    ensures INT_MIN <= c0 + LineSum(line, value, start, i) - LineSum(line, value, start, from) <= INT_MAX
  {
    LineSumGrows(line, value, start, from, i);
  }

  // ------------------------------------------------------------------- line by line

  /** Adds `count` values of a buffer; the prime's turn wraps around, and the sum is left unreduced. */
  method AddValues<T>(buffer: seq<T>, value: T -> int, offset: int, count: int, iPrime0: int, c0: int,
                   ghost line: seq<T>, ghost start: int, ghost from: int) returns (c: int, iPrime: int)
    requires 0 <= offset && 0 <= count && offset + count <= |buffer|
    requires 0 <= start && 0 <= from && from + count <= |line| && buffer[offset..offset + count] == line[from..from + count]
    requires iPrime0 == Turn(start + from)
    ensures c == c0 + LineSum(line, value, start, from + count) - LineSum(line, value, start, from)
    ensures iPrime == Turn(start + from + count)
    ensures count <= SAFE_COUNT && 0 <= c0 < 0x1_0000 ==> INT_MIN <= c <= INT_MAX
  {
    hide Rem;
    hide Turn;
    hide Prime;
    c, iPrime := c0, iPrime0;
    for i := 0 to count
      invariant c == c0 + LineSum(line, value, start, from + i) - LineSum(line, value, start, from)
      invariant count <= SAFE_COUNT && 0 <= c0 < 0x1_0000 ==> INT_MIN <= c <= INT_MAX
      invariant iPrime == Turn(start + from + i)
    {
      NextTurn(start + from + i);
      assert buffer[offset + i] == buffer[offset..offset + count][i] == line[from + i];
      c := c + Rem(value(buffer[offset + i]), PRIMES[iPrime]);
      iPrime := iPrime + 1;
      if iPrime > 10 {
        iPrime := 0;
      }
      if count <= SAFE_COUNT && 0 <= c0 < 0x1_0000 {
        PartialSumsFit(line, value, start, from, from + i + 1, from + count, c0);
      }
    }
  }

  /**
   One line at a time, the turn of the primes running on from line to line. The
   sum is reduced after every value.
   */
  method ChecksumByLine<T>(lines: seq<seq<T>>, value: T -> int, len: int, hasMemory: bool, readable: int -> bool) returns (c: int)
    requires Uniform(lines, len) && 0 <= len
    ensures c == if hasMemory && (forall y :: 0 <= y < |lines| ==> readable(y)) then ChecksumOf(lines, value, len) else -1
  {
    hide Turn;
    hide Low16;
    hide LineSum;
    if !hasMemory {
      return -1;
    }
    c := 0;
    var iPrime := 0;
    Beginning(len);
    for y := 0 to |lines|
      invariant c == Low16(BandSum(lines, value, len, 0, y, len))
      invariant iPrime == Turn(y * len)
      invariant forall j :: 0 <= j < y ==> readable(j)
    {
      if !readable(y) {
        return -1;
      }
      NextOffset(y, len);
      c, iPrime := AddLine(lines[y], value, y * len, c, iPrime, BandSum(lines, value, len, 0, y, len));
    }
  }

  lemma Beginning(len: int)
    ensures Low16(0) == 0 && Turn(0 * len) == 0
  {
  }

  method AddLine<T>(line: seq<T>, value: T -> int, ghost start: int, c0: int, iPrime0: int, ghost before: int) returns (c: int, iPrime: int)
    requires 0 <= start && iPrime0 == Turn(start) && c0 == Low16(before)
    ensures c == Low16(before + LineSum(line, value, start, |line|))
    ensures iPrime == Turn(start + |line|)
  {
    hide Rem;
    hide Turn;
    hide Prime;
    hide Low16;
    c, iPrime := c0, iPrime0;
    for i := 0 to |line|
      invariant c == Low16(before + LineSum(line, value, start, i))
      invariant iPrime == Turn(start + i)
    {
      NextTurn(start + i);
      ReduceOnTheWay(before + LineSum(line, value, start, i), c, Term(line, value, start, i));
      c := Low16(c + Rem(value(line[i]), PRIMES[iPrime]));
      iPrime := iPrime + 1;
      if iPrime > 10 {
        iPrime := 0;
      }
    }
  }

  // ------------------------------------------------------------------ chunk by chunk

  /** Line j of a chunk that is stored line after line. */
  ghost predicate ChunkLine<T>(buffer: seq<T>, lines: seq<seq<T>>, yStart: int, from: int, count: int, j: int) {
    && 0 <= j && 0 <= yStart && yStart + j < |lines|
    && 0 <= from && 0 <= count && from + count <= |lines[yStart + j]|
    && 0 <= j * count && j * count + count <= |buffer|
    && buffer[j * count..j * count + count] == lines[yStart + j][from..from + count]
  }

  /** The buffer holds `count` values from `from` on of each of the lines. */
  ghost predicate IsChunk<T>(buffer: seq<T>, lines: seq<seq<T>>, yStart: int, yEnd: int, from: int, count: int) {
    forall j :: 0 <= j < yEnd - yStart ==> ChunkLine(buffer, lines, yStart, from, count, j)
  }

  method ReadChunk<T>(lines: seq<seq<T>>, len: int, yStart: int, yEnd: int, from: int, count: int) returns (buffer: seq<T>)
    requires Uniform(lines, len) && 0 <= yStart <= yEnd <= |lines| && 0 <= from && 0 <= count && from + count <= len
    ensures IsChunk(buffer, lines, yStart, yEnd, from, count)
  {
    buffer := [];
    for y := yStart to yEnd
      invariant |buffer| == (y - yStart) * count
      invariant forall j :: 0 <= j < y - yStart ==> ChunkLine(buffer, lines, yStart, from, count, j)
    {
      var piece := lines[y][from..from + count];
      forall j | 0 <= j < y - yStart
        ensures ChunkLine(buffer + piece, lines, yStart, from, count, j)
      {
        ChunkLineStays(buffer, piece, lines, yStart, from, count, j);
      }
      NextOffset(y - yStart, count);
      assert (buffer + piece)[(y - yStart) * count..(y - yStart) * count + count] == piece;
      buffer := buffer + piece;
    }
  }

  lemma ChunkLineStays<T>(buffer: seq<T>, piece: seq<T>, lines: seq<seq<T>>, yStart: int, from: int, count: int, j: int)
    requires ChunkLine(buffer, lines, yStart, from, count, j)
    ensures ChunkLine(buffer + piece, lines, yStart, from, count, j)
  {
    assert (buffer + piece)[j * count..j * count + count] == buffer[j * count..j * count + count];
  }

  lemma NextOffset(j: int, count: int)
    requires 0 <= j && 0 <= count
    ensures (j + 1) * count == j * count + count && j * count >= 0
  {
  }

  lemma SameTurn(vals: int, y: int, width: int, x: int)
    ensures vals * (y * width + x) == y * (vals * width) + vals * x
  {
    assert vals * (y * width) == y * (vals * width);
  }

  /** One line of a chunk: the turn of the primes is found anew, and the sum is reduced at the end. */
  method AddChunkLine<T>(line: seq<T>, value: T -> int, width: int, vals: int, xStart: int, count: int, y: int, buffer: seq<T>, offset: int,
                      c0: int, ghost sum: int) returns (c: int)
    requires 0 <= width && 1 <= vals && 0 <= y && 0 <= y * (vals * width)
    requires 0 <= count && 0 <= vals * xStart && vals * xStart + count <= |line|
    requires 0 <= offset && offset + count <= |buffer| && buffer[offset..offset + count] == line[vals * xStart..vals * xStart + count]
    requires c0 == Low16(sum)
    ensures c == Low16(sum + LineSum(line, value, y * (vals * width), vals * xStart + count) - LineSum(line, value, y * (vals * width), vals * xStart))
  {
    hide Low16;
    hide Turn;
    hide LineSum;
    var iPrime := Turn(vals * (y * width + xStart));
    SameTurn(vals, y, width, xStart);
    var added;
    added, iPrime := AddValues(buffer, value, offset, count, iPrime, c0, line, y * (vals * width), vals * xStart);
    ReduceOnTheWay(sum, c0, LineSum(line, value, y * (vals * width), vals * xStart + count) - LineSum(line, value, y * (vals * width), vals * xStart));
    c := Low16(added);
  }

  /** All lines of one chunk. */
  method AddChunk<T>(lines: seq<seq<T>>, value: T -> int, width: int, vals: int, xStart: int, xEnd: int, yStart: int, yEnd: int,
                  buffer: seq<T>, c0: int, ghost before: int) returns (c: int)
    requires 0 <= width && 1 <= vals && Uniform(lines, vals * width)
    requires 0 <= xStart <= xEnd <= width && 0 <= yStart <= yEnd <= |lines|
    requires 0 <= vals * xStart <= vals * xEnd <= vals * width && vals * xStart + vals * (xEnd - xStart) == vals * xEnd
    requires IsChunk(buffer, lines, yStart, yEnd, vals * xStart, vals * (xEnd - xStart))
    requires c0 == Low16(before + BandSum(lines, value, vals * width, yStart, yEnd, vals * xStart))
    ensures c == Low16(before + BandSum(lines, value, vals * width, yStart, yEnd, vals * xEnd))
  {
    hide Low16;
    hide BandSum;
    hide LineSum;
    hide IsChunk;
    ghost var len, n0, n1 := vals * width, vals * xStart, vals * xEnd;
    var count := vals * (xEnd - xStart);
    NoLines(lines, value, len, yStart, n1);
    NoLines(lines, value, len, yEnd, n0);
    c := c0;
    for y := yStart to yEnd
      invariant c == Low16(before + BandSum(lines, value, len, yStart, y, n1) + BandSum(lines, value, len, y, yEnd, n0))
    {
      LineOfChunk(buffer, lines, yStart, yEnd, n0, count, y - yStart);
      Tiling.AtLeast(y, 0, len);
      NextLine(lines, value, len, yStart, y, yEnd, n0, n1);
      c := AddChunkLine(lines[y], value, width, vals, xStart, count, y, buffer, (y - yStart) * count, c,
                        before + BandSum(lines, value, len, yStart, y, n1) + BandSum(lines, value, len, y, yEnd, n0));
    }
  }

  lemma NoLines<T>(lines: seq<seq<T>>, value: T -> int, len: int, y: int, n: int)
    requires Uniform(lines, len) && 0 <= y <= |lines| && 0 <= n <= len
    ensures BandSum(lines, value, len, y, y, n) == 0
  {
  }

  lemma LineOfChunk<T>(buffer: seq<T>, lines: seq<seq<T>>, yStart: int, yEnd: int, from: int, count: int, j: int)
    requires IsChunk(buffer, lines, yStart, yEnd, from, count) && 0 <= j < yEnd - yStart
    ensures ChunkLine(buffer, lines, yStart, from, count, j)
  {
  }

  /** A line of a chunk moves from one end of the chunk to the other. */
  lemma NextLine<T>(lines: seq<seq<T>>, value: T -> int, len: int, a: int, y: int, b: int, n0: int, n1: int)
    requires Uniform(lines, len) && 0 <= a <= y < b <= |lines| && 0 <= n0 <= n1 <= len
    ensures BandSum(lines, value, len, a, y + 1, n1) + BandSum(lines, value, len, y + 1, b, n0) ==
      BandSum(lines, value, len, a, y, n1) + BandSum(lines, value, len, y, b, n0) + LineSum(lines[y], value, y * len, n1) - LineSum(lines[y], value, y * len, n0)
  {
    BandSumSplit(lines, value, len, y, y + 1, b, n0);
    BandSumOne(lines, value, len, y, n0);
  }

  ghost predicate AllReadable(readable: (int, int) -> bool, xBlocks: int, yBlocks: int) {
    forall bx, b' :: 0 <= bx < xBlocks && 0 <= b' < yBlocks ==> readable(bx, b')
  }

  /** One row of chunks, from left to right; -1 as soon as a read fails. */
  method AddChunkRow<T>(lines: seq<seq<T>>, value: T -> int, width: int, vals: int, chunkX: int, yStart: int, yEnd: int,
                     c0: int, row: int, readable: (int, int) -> bool, ghost before: int) returns (c: int)
    requires 0 <= width && 1 <= vals && 1 <= chunkX && Uniform(lines, vals * width) && 0 <= vals * width
    requires 0 <= yStart <= yEnd <= |lines| && c0 == Low16(before)
    ensures c < 0 <==> exists bx :: 0 <= bx < Blocks(width, chunkX) && !readable(bx, row)
    ensures c < 0 ==> c == -1
    ensures c >= 0 ==> c == Low16(before + BandSum(lines, value, vals * width, yStart, yEnd, vals * width))
  {
    c := c0;
    var blocks := Blocks(width, chunkX);
    NoBlocks(width, chunkX);
    BandSumEmpty(lines, value, vals * width, yStart, yEnd);
    ghost var seen := 0;
    hide BandSum;
    hide Blocks;
    hide BlockStart;
    hide BlockEnd;
    hide Low16;
    hide IsChunk;
    for bx := 0 to blocks
      invariant seen == Reached(width, chunkX, bx) && 0 <= seen <= width && 0 <= vals * seen <= vals * width
      invariant c == Low16(before + BandSum(lines, value, vals * width, yStart, yEnd, vals * seen))
      invariant forall b :: 0 <= b < bx ==> readable(b, row)
    {
      BlocksTile(width, chunkX, bx);
      var xStart, xEnd := BlockStart(chunkX, bx), BlockEnd(width, chunkX, bx);
      if !readable(bx, row) {
        return -1;
      }
      Offsets(vals, xStart, xEnd, width);
      var buffer := ReadChunk(lines, vals * width, yStart, yEnd, vals * xStart, vals * (xEnd - xStart));
      c := AddChunk(lines, value, width, vals, xStart, xEnd, yStart, yEnd, buffer, c, before);
      seen := xEnd;
    }
  }

  lemma Offsets(vals: int, a: int, b: int, w: int)
    requires 1 <= vals && 0 <= a <= b <= w
    ensures 0 <= vals * a <= vals * b <= vals * w && vals * a + vals * (b - a) == vals * b && vals * (b - a) >= 0
  {
    Tiling.AtLeast(b, a, vals);
    Tiling.AtLeast(w, b, vals);
    Tiling.AtLeast(a, 0, vals);
    Tiling.AtLeast(b - a, 0, vals);
  }

  /**
   Chunk by chunk: for every chunk size, the same checksum as line by line, and
   -1 exactly if there is no memory or a chunk cannot be read.
   */
  method ChecksumByChunk<T>(lines: seq<seq<T>>, value: T -> int, width: int, vals: int, chunkX: int, chunkY: int,
                         hasMemory: bool, readable: (int, int) -> bool) returns (c: int)
    requires 0 <= width && 1 <= vals && 0 <= vals * width && Uniform(lines, vals * width) && 1 <= chunkX && 1 <= chunkY
    ensures c == if hasMemory && AllReadable(readable, Blocks(width, chunkX), Blocks(|lines|, chunkY)) then ChecksumOf(lines, value, vals * width) else -1
  {
    if !hasMemory {
      return -1;
    }
    c := 0;
    var blocks := Blocks(|lines|, chunkY);
    NoBlocks(|lines|, chunkY);
    ghost var done := 0;
    ghost var xBlocks := Blocks(width, chunkX);
    hide Blocks;
    hide BlockStart;
    hide BlockEnd;
    for row := 0 to blocks
      invariant done == Reached(|lines|, chunkY, row) && 0 <= done <= |lines|
      invariant c == Low16(BandSum(lines, value, vals * width, 0, done, vals * width))
      invariant AllReadable(readable, xBlocks, row)
    {
      hide Low16;
      BlocksTile(|lines|, chunkY, row);
      var yStart, yEnd := BlockStart(chunkY, row), BlockEnd(|lines|, chunkY, row);
      BandSumSplit(lines, value, vals * width, 0, yStart, yEnd, vals * width);
      hide BandSum;
      c := AddChunkRow(lines, value, width, vals, chunkX, yStart, yEnd, c, row, readable, BandSum(lines, value, vals * width, 0, yStart, vals * width));
      if c < 0 {
        return;
      }
      done := yEnd;
    }
  }

  // ------------------------------------------------------------------ the four ways

  /** What is read of an image. */
  datatype Image = Integers(ints: seq<seq<int>>) | Floats(doubles: seq<seq<Double>>)

  ghost predicate ImageOf(image: Image, len: int) {
    match image
    case Integers(ints) => Uniform(ints, len)
    case Floats(doubles) => Uniform(doubles, len)
  }

  function Height(image: Image): int {
    match image
    case Integers(ints) => |ints|
    case Floats(doubles) => |doubles|
  }

  ghost function ImageChecksum(image: Image, len: int): int
    requires ImageOf(image, len) && 0 <= len
  {
    match image
    case Integers(ints) => ChecksumOf(ints, (n: int) => n, len)
    case Floats(doubles) => ChecksumOf(doubles, IntFromDouble, len)
  }

  /** A window from the image's corner is read by chunks, any other one by lines; it makes no difference. */
  method ChecksumImage(image: Image, fromCorner: bool, width: int, vals: int, chunkX: int, chunkY: int, hasMemory: bool,
                       lineReadable: int -> bool, chunkReadable: (int, int) -> bool) returns (c: int)
    requires 0 <= width && 1 <= vals && 0 <= vals * width && ImageOf(image, vals * width) && 1 <= chunkX && 1 <= chunkY
    ensures fromCorner ==>
      c == if hasMemory && AllReadable(chunkReadable, Blocks(width, chunkX), Blocks(Height(image), chunkY))
           then ImageChecksum(image, vals * width) else -1
    ensures !fromCorner ==>
      c == if hasMemory && (forall y :: 0 <= y < Height(image) ==> lineReadable(y))
           then ImageChecksum(image, vals * width) else -1
  {
    hide ChecksumOf;
    hide AllReadable;
    hide Blocks;
    match image
    case Integers(ints) =>
      if fromCorner {
        c := ChecksumByChunk(ints, (n: int) => n, width, vals, chunkX, chunkY, hasMemory, chunkReadable);
      } else {
        c := ChecksumByLine(ints, (n: int) => n, vals * width, hasMemory, lineReadable);
      }
    case Floats(doubles) =>
      if fromCorner {
        c := ChecksumByChunk(doubles, IntFromDouble, width, vals, chunkX, chunkY, hasMemory, chunkReadable);
      } else {
        c := ChecksumByLine(doubles, IntFromDouble, vals * width, hasMemory, lineReadable);
      }
  }
}
