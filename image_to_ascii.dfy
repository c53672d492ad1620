/** The quantise-and-render step of `image_to_ascii`: each 8-bit luminance
    value of a grayscale grid is mapped to a position in a fixed ramp of
    twelve characters, each row becomes a string of those characters, and
    the rows are joined with newlines. */
module ImageToAscii {
  import opened Text

  /** The character ramp, darkest first and lightest last. */
  const AsciiChars: string := "@#$%?*+;:,.!"

  /** One grayscale ("L" mode) pixel: an unsigned 8-bit luminance. */
  type Pixel = p: int | 0 <= p <= 255

  /** The grayscale image, one sequence of pixels per row. */
  type Grid = seq<seq<Pixel>>

  /** The normalised value `(p / 255) * (len(AsciiChars) - 1)`, computed
      exactly rather than in floating point. */
  function Normalized(p: Pixel): (r: real)
    ensures 0.0 <= r <= (|AsciiChars| - 1) as real
    ensures r * 255.0 == (p * 11) as real
  {
    (p as real / 255.0) * ((|AsciiChars| - 1) as real)
  }

  /** Conversion of a real to an integer by truncation toward zero, as
      `astype(int)` and `int(...)` do. */
  function Truncate(x: real): (r: int)
    ensures x >= 0.0 ==> 0 <= r && r as real <= x < r as real + 1.0
    ensures x < 0.0 ==> r <= 0 && r as real - 1.0 < x <= r as real
  {
    if x >= 0.0 then x.Floor else -((-x).Floor)
  }

  /** The ramp position of a pixel, in integer arithmetic: the whole number
      of elevenths of full brightness the pixel reaches (11 being the last
      position of the ramp). */
  function RampIndex(p: Pixel): (i: nat)
    ensures i < |AsciiChars|
    ensures i * 255 <= p * 11 < (i + 1) * 255
  {
    p * 11 / 255
  }

  /** The ramp character for one pixel. */
  function PixelChar(p: Pixel): (c: char)
    ensures c in AsciiChars && c != Newline
  {
    AsciiChars[RampIndex(p)]
  }

  /** `"".join(ASCII_CHARS[int(pixel)] for pixel in row)`. */
  function RenderRow(row: seq<Pixel>): (line: string)
    ensures |line| == |row|
    ensures forall j :: 0 <= j < |row| ==> line[j] == AsciiChars[RampIndex(row[j])]
  {
    if |row| == 0 then "" else [PixelChar(row[0])] + RenderRow(row[1..])
  }

  /** The rendered lines, one per row of the grid, in order. */
  function RenderRows(grid: Grid): (lines: seq<string>)
    ensures |lines| == |grid|
    ensures forall i :: 0 <= i < |grid| ==> lines[i] == RenderRow(grid[i])
  {
    if |grid| == 0 then [] else [RenderRow(grid[0])] + RenderRows(grid[1..])
  }

  /** The ASCII art for a grid: the rendered rows joined with newlines. */
  function Render(grid: Grid): (s: string)
    ensures |grid| == 0 ==> s == ""
  {
    JoinLines(RenderRows(grid))
  }

  /** True when every row of the grid has `width` pixels, as the rows of an
      image converted to an array do. */
  predicate Rectangular(grid: Grid, width: nat)
  {
    forall i :: 0 <= i < |grid| ==> |grid[i]| == width
  }

  // ---------------------------------------------------------------------
  // The ramp index

  /** The integer division gives exactly what truncating the exact
      normalised value gives. */
  lemma RampIndexIsTruncatedQuotient(p: Pixel)
    ensures RampIndex(p) == Truncate(Normalized(p))
  {
  }

  /** Away from black and white, the exact normalised value stays at least
      1/255 away from every integer, so a rounding error of floating point
      arithmetic smaller than that cannot change which index it truncates to. */
  lemma QuotientAwayFromIntegers(p: Pixel)
    requires 0 < p < 255
    ensures RampIndex(p) * 255 + 1 <= p * 11 <= RampIndex(p) * 255 + 254
  {
  }

  /** A brighter pixel never gets an earlier (darker) ramp character. */
  lemma RampIndexMonotone(p: Pixel, q: Pixel)
    requires p <= q
    ensures RampIndex(p) <= RampIndex(q)
  {
  }

  /** Black is the first ramp character and white the last. */
  lemma Endpoints()
    ensures RampIndex(0) == 0 && PixelChar(0) == '@'
    ensures RampIndex(255) == |AsciiChars| - 1 && PixelChar(255) == '!'
  {
  }

  /** The first character covers the pixels 0 to 23; the last one is reached
      by pure white only. */
  lemma RampExtremes(p: Pixel)
    ensures RampIndex(p) == 0 <==> p <= 23
    ensures RampIndex(p) == |AsciiChars| - 1 <==> p == 255
  {
  }

  /** Every character of the ramp is produced by some pixel value. */
  lemma EveryRampCharReached(i: nat)
    requires i < |AsciiChars|
    ensures exists p: Pixel :: RampIndex(p) == i
  {
    var p: Pixel := (i * 255 + 10) / 11;
    assert RampIndex(p) == i;
  }

  // ---------------------------------------------------------------------
  // The rendered text

  /** Every character of the output is a newline or a ramp character. */
  lemma RenderAlphabet(grid: Grid)
    ensures DrawnFrom(Render(grid), set c | c in AsciiChars)
  {
    var lines := RenderRows(grid);
    forall i | 0 <= i < |lines|
      ensures DrawnFrom(lines[i], set c | c in AsciiChars)
    {
      assert forall j :: 0 <= j < |lines[i]| ==> lines[i][j] in AsciiChars;
    }
    JoinDrawnFrom(lines, set c | c in AsciiChars);
  }

  /** Splitting the output at newlines gives one line per row, in order;
      line i is as long as row i and its j-th character is the ramp
      character of pixel (i, j). */
  lemma RenderLines(grid: Grid)
    requires |grid| > 0
    ensures var lines := SplitLines(Render(grid));
      && |lines| == |grid|
      && (forall i :: 0 <= i < |grid| ==> |lines[i]| == |grid[i]|)
      && (forall i, j :: 0 <= i < |grid| && 0 <= j < |grid[i]| ==>
            lines[i][j] == AsciiChars[RampIndex(grid[i][j])])
  {
    var rows := RenderRows(grid);
    forall i | 0 <= i < |rows|
      ensures Newline !in rows[i]
    {
      assert forall j :: 0 <= j < |rows[i]| ==> rows[i][j] in AsciiChars;
    }
    SplitJoin(rows);
  }

  /** A grid with rows produces rows - 1 newlines. */
  lemma RenderNewlineCount(grid: Grid)
    requires |grid| > 0
    ensures multiset(Render(grid))[Newline] == |grid| - 1
  {
    RenderLines(grid);
    SplitLinesCount(Render(grid));
  }

  /** The output does not end with a newline unless the last row is empty. */
  lemma RenderNoTrailingNewline(grid: Grid)
    requires |grid| > 0 && |grid[|grid| - 1]| > 0
    ensures |Render(grid)| > 0 && Render(grid)[|Render(grid)| - 1] != Newline
  {
    var rows := RenderRows(grid);
    var last := grid[|grid| - 1];
    JoinEndsWithLastLine(rows);
    assert rows[|rows| - 1][|last| - 1] == PixelChar(last[|last| - 1]);
  }

  /** A grid of `height` rows of `width` pixels renders to `height * width`
      ramp characters and `height - 1` newlines. */
  lemma RenderLength(grid: Grid, width: nat)
    requires |grid| > 0 && Rectangular(grid, width)
    ensures |Render(grid)| == |grid| * (width + 1) - 1
  {
    var rows := RenderRows(grid);
    TotalLengthOfEqualLines(rows, width);
    var h := |grid|;
    assert h * (width + 1) == h * width + h;
  }

  /** An image of one uniform luminance renders every cell as that
      luminance's character; an all-black image is all '@' and an all-white
      image all '!'. */
  lemma UniformGrid(grid: Grid, v: Pixel)
    requires forall i, j :: 0 <= i < |grid| && 0 <= j < |grid[i]| ==> grid[i][j] == v
    ensures DrawnFrom(Render(grid), {PixelChar(v)})
    ensures v == 0 ==> DrawnFrom(Render(grid), {'@'})
    ensures v == 255 ==> DrawnFrom(Render(grid), {'!'})
  {
    var rows := RenderRows(grid);
    var c := PixelChar(v);
    forall i | 0 <= i < |rows|
      ensures DrawnFrom(rows[i], {c})
    {
      forall j | 0 <= j < |rows[i]|
        ensures rows[i][j] == c
      {
        assert rows[i][j] == AsciiChars[RampIndex(grid[i][j])];
      }
    }
    JoinDrawnFrom(rows, {c});
    Endpoints();
  }
}
