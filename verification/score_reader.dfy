/**
  Reading the score off a captured frame.  Each of six digit cells is cut
  out, sampled down to 6 by 8 pixels, and its pixels packed row by row into
  a 64-bit symbol: a bit 1 for the lit colour, 0 for the unlit one, any
  other colour an error.  The symbol is looked up in a table of reference
  digits, parsed from drawings in which `#` is lit and `.` unlit; class 10
  is the empty digit, which ends the number.
 */
module ScoreReaders {
  import opened Wrappers
  import opened IntArith
  import opened Images

  datatype ScoreReaderError = InvalidColor | InvalidDigitShape

  const DIGIT_COLOR_OFF: seq<Byte> := [47, 47, 47, 255]
  const DIGIT_COLOR_ON: seq<Byte> := [255, 255, 255, 255]

  /** The class of the empty digit. */
  const EMPTY_CLASS: nat := 10
  /** Ten digits and the empty one. */
  const N_CLASSES: nat := 11
  /** Lines of a reference drawing. */
  const N_LINES: nat := 8
  const N_DIGITS_TO_READ: nat := 6
  /** A digit cell sampled down: 6 by 8 pixels. */
  const CELL_WIDTH: nat := 6
  const CELL_HEIGHT: nat := 8

  /** `u64::MAX + 1`: the symbol is a `u64` and a shift drops its top bit. */
  const U64_LIMIT: nat := 0x1_0000_0000_0000_0000

  function Pow2(n: nat): (p: nat)
    ensures p >= 1
  {
    if n == 0 then 1 else 2 * Pow2(n - 1)
  }

  function Pow10(n: nat): (p: nat)
    ensures p >= 1
  {
    if n == 0 then 1 else 10 * Pow10(n - 1)
  }

  lemma {:induction false} Pow2Add(a: nat, b: nat)
    ensures Pow2(a + b) == Pow2(a) * Pow2(b)
    decreases a
  {
    if a > 0 {
      Pow2Add(a - 1, b);
    }
  }

  lemma Pow2Of16()
    ensures Pow2(16) == 0x1_0000
  {
    assert Pow2(8) == 256;
    Pow2Add(8, 8);
  }

  lemma Pow2Of32()
    ensures Pow2(32) == 0x1_0000_0000
  {
    Pow2Of16();
    Pow2Add(16, 16);
  }

  /** `Pow2(64)` is the `u64` range. */
  lemma Pow2Of64()
    ensures Pow2(64) == U64_LIMIT
  {
    Pow2Of32();
    Pow2Add(32, 32);
  }

  /** `symbol <<= 1` in 64 bits, then one more for a lit pixel. */
  function Shift(symbol: nat, bit: bool): (s: nat)
    requires symbol < U64_LIMIT
    ensures s < U64_LIMIT
  {
    var doubled := if symbol * 2 < U64_LIMIT then symbol * 2 else symbol * 2 - U64_LIMIT;
    assert doubled == (symbol * 2) % U64_LIMIT && doubled % 2 == 0;
    doubled + if bit then 1 else 0
  }

  /** The symbol of a sequence of bits, first bit most significant, shifted through 64 bits. */
  function PackBits(bits: seq<bool>): (s: nat)
    ensures s < U64_LIMIT
    decreases |bits|
  {
    if |bits| == 0 then 0 else Shift(PackBits(bits[..|bits| - 1]), bits[|bits| - 1])
  }

  lemma PackBitsSnoc(bits: seq<bool>, b: bool)
    ensures PackBits(bits + [b]) == Shift(PackBits(bits), b)
  {
    assert (bits + [b])[..|bits|] == bits;
  }

  /** `Pow2(n)` grows with `n`. */
  lemma Pow2Le64(n: nat)
    requires n <= 64
    ensures Pow2(n) <= U64_LIMIT
  {
    Pow2Add(n, 64 - n);
    Pow2Of64();
    MulLe(1, Pow2(64 - n), Pow2(n));
  }

  /** Up to 64 bits nothing is shifted out: the symbol of `n` bits is below `2^n`. */
  lemma {:induction false} PackBitsBound(bits: seq<bool>)
    requires |bits| <= 64
    ensures PackBits(bits) < Pow2(|bits|)
    decreases |bits|
  {
    if |bits| > 0 {
      var prefix := bits[..|bits| - 1];
      PackBitsBound(prefix);
      Pow2Le64(|bits|);
    }
  }

  /** Up to 64 bits, different bit sequences of one length have different symbols. */
  lemma {:induction false} PackBitsInjective(a: seq<bool>, b: seq<bool>)
    requires |a| == |b| <= 64 && PackBits(a) == PackBits(b)
    ensures a == b
    decreases |a|
  {
    if |a| > 0 {
      var n := |a|;
      var pa, pb := a[..n - 1], b[..n - 1];
      PackBitsBound(pa);
      PackBitsBound(pb);
      Pow2Le64(n);
      assert PackBits(a) == 2 * PackBits(pa) + (if a[n - 1] then 1 else 0);
      assert PackBits(b) == 2 * PackBits(pb) + (if b[n - 1] then 1 else 0);
      assert a[n - 1] == b[n - 1];
      PackBitsInjective(pa, pb);
      assert a == pa + [a[n - 1]] && b == pb + [b[n - 1]];
    }
  }

  /** The two colours a digit cell may have. */
  predicate Lit(c: seq<Byte>) {
    c == DIGIT_COLOR_OFF || c == DIGIT_COLOR_ON
  }

  predicate AllLit(cs: seq<seq<Byte>>) {
    forall i :: 0 <= i < |cs| ==> Lit(cs[i])
  }

  function ColorBits(cs: seq<seq<Byte>>): (bits: seq<bool>)
    ensures |bits| == |cs| && forall i :: 0 <= i < |cs| ==> (bits[i] <==> cs[i] == DIGIT_COLOR_ON)
  {
    seq(|cs|, i requires 0 <= i < |cs| => cs[i] == DIGIT_COLOR_ON)
  }

  /** The symbol of pixels in reading order, or `InvalidColor` when one is neither lit nor unlit. */
  function SymbolOf(cs: seq<seq<Byte>>): (r: Result<nat, ScoreReaderError>)
    ensures r.Err? ==> r.error == InvalidColor
    ensures r.Ok? ==> r.value < U64_LIMIT
  {
    if AllLit(cs) then Ok(PackBits(ColorBits(cs))) else Err(InvalidColor)
  }

  /** Reading fails exactly when some pixel is neither lit nor unlit. */
  lemma SymbolOfFails(cs: seq<seq<Byte>>)
    ensures SymbolOf(cs).Err? <==> exists i :: 0 <= i < |cs| && !Lit(cs[i])
  {
  }

  /** Up to 64 pixels, two cells of lit and unlit pixels with one symbol are the same cell. */
  lemma SymbolInjective(a: seq<seq<Byte>>, b: seq<seq<Byte>>)
    requires |a| == |b| <= 64 && AllLit(a) && AllLit(b) && SymbolOf(a) == SymbolOf(b)
    ensures a == b
  {
    PackBitsInjective(ColorBits(a), ColorBits(b));
    assert forall i :: 0 <= i < |a| ==> (a[i] == DIGIT_COLOR_ON <==> b[i] == DIGIT_COLOR_ON);
  }

  /** The pixels of an image sampled every `step` pixels from `(x0, y0)`. */
  datatype Grid = Grid(img: Image, x0: nat, y0: nat, step: nat)

  /** The grid point `(x, y)` lies in the image. */
  predicate SampleIn(g: Grid, x: nat, y: nat) {
    InData(g.img, g.x0 + g.step * x, g.y0 + g.step * y)
  }

  /** The colour at grid point `(x, y)`; no colour off the image. */
  function Sample(g: Grid, x: nat, y: nat): (c: seq<Byte>)
    ensures SampleIn(g, x, y) ==> |c| == g.img.channels
  {
    if SampleIn(g, x, y) then GetPixel(g.img, g.x0 + g.step * x, g.y0 + g.step * y) else []
  }

  /** The position of point `(x, y)` of a grid `w` points wide in reading order. */
  function At(w: nat, x: nat, y: nat): nat {
    y * w + x
  }

  /** Point `(x, y)` of a grid `w` points wide is at position `y w + x` in reading order. */
  lemma ReadingPosition(x: nat, y: nat, w: nat, rows: nat)
    requires x < w && y < rows
    ensures At(w, x, y) < rows * w && At(w, x, y) / w == y && At(w, x, y) % w == x
  {
    MulLe(y + 1, rows, w);
    DivUnique(y * w + x, w, y, x);
  }

  /** Position `i` in reading order is point `(i % w, i / w)`. */
  lemma ReadingPoint(i: nat, w: nat, rows: nat)
    requires i < rows * w
    ensures w > 0 && i % w < w && i / w < rows
  {
    if i / w >= rows {
      MulLe(rows, i / w, w);
    }
  }

  /** The first `rows` rows of a grid `w` points wide, row after row. */
  function RowMajor(g: Grid, w: nat, rows: nat): (cs: seq<seq<Byte>>)
    ensures |cs| == rows * w
    ensures forall x: nat, y: nat :: x < w && y < rows ==> At(w, x, y) < |cs| && cs[At(w, x, y)] == Sample(g, x, y)
  {
    var cs := seq(rows * w, i => if w == 0 || i < 0 then [] else Sample(g, i % w, i / w));
    forall x: nat, y: nat | x < w && y < rows
      ensures At(w, x, y) < |cs| && cs[At(w, x, y)] == Sample(g, x, y)
    {
      var i := At(w, x, y);
      ReadingPosition(x, y, w, rows);
      assert cs[i] == Sample(g, i % w, i / w);
    }
    cs
  }

  /** Grids that agree point by point read the same. */
  lemma RowMajorAgree(a: Grid, b: Grid, w: nat, rows: nat)
    requires forall x: nat, y: nat :: x < w && y < rows ==> Sample(a, x, y) == Sample(b, x, y)
    ensures RowMajor(a, w, rows) == RowMajor(b, w, rows)
  {
    var ca, cb := RowMajor(a, w, rows), RowMajor(b, w, rows);
    forall i | 0 <= i < rows * w
      ensures ca[i] == cb[i]
    {
      RowMajorAgreeAt(a, b, w, rows, i);
    }
  }

  /** Grids that agree point by point agree at each position of their reading orders. */
  lemma RowMajorAgreeAt(a: Grid, b: Grid, w: nat, rows: nat, i: nat)
    requires i < rows * w
    requires forall x: nat, y: nat :: x < w && y < rows ==> Sample(a, x, y) == Sample(b, x, y)
    ensures RowMajor(a, w, rows)[i] == RowMajor(b, w, rows)[i]
  {
    RowMajorAt(a, w, rows, i);
    RowMajorAt(b, w, rows, i);
    var x: nat, y: nat := i % w, i / w;
    assert Sample(a, x, y) == Sample(b, x, y);
  }

  /** Position `i` of the reading order holds grid point `(i % w, i / w)`, which lies in the first `rows` rows. */
  lemma RowMajorAt(g: Grid, w: nat, rows: nat, i: nat)
    requires i < rows * w
    ensures w > 0 && i % w < w && i / w < rows && RowMajor(g, w, rows)[i] == Sample(g, i % w, i / w)
  {
    ReadingPoint(i, w, rows);
  }

  /** Every pixel of an image. */
  function Whole(img: Image): (g: Grid)
    ensures g.img == img && g.step == 1
  {
    Grid(img, 0, 0, 1)
  }

  /** Sampling the whole image at a pixel of its data reads that pixel. */
  lemma WholeAt(img: Image, x: nat, y: nat)
    requires InData(img, x, y)
    ensures Sample(Whole(img), x, y) == GetPixel(img, x, y)
  {
    assert SampleIn(Whole(img), x, y);
  }

  /** The symbol of a whole image read row by row. */
  function ImageSymbol(img: Image): (r: Result<nat, ScoreReaderError>)
    requires Fits(img)
  {
    SymbolOf(RowMajor(Whole(img), img.width, img.height))
  }

  /** The pixels of row `y`, left to right. */
  function RowPixels(img: Image, y: nat): (row: seq<seq<Byte>>)
    requires Fits(img) && y < img.height
    ensures |row| == img.width && forall x :: 0 <= x < img.width ==> row[x] == GetPixel(img, x, y)
  {
    seq(img.width, x requires 0 <= x < img.width => GetPixel(img, x, y))
  }

  /**
    `digit_image_to_symbol`: the pixels, row by row, shifted into the
    symbol; the first pixel of another colour ends the reading with
    `InvalidColor`.
   */
  method DigitImageToSymbol(img: Image) returns (r: Result<nat, ScoreReaderError>)
    requires Fits(img)
    ensures r == ImageSymbol(img)
  {
    ghost var all := RowMajor(Whole(img), img.width, img.height);
    var symbol := 0;
    var y := 0;
    while y < img.height
      invariant y <= img.height && At(img.width, 0, y) <= |all|
      invariant AllLit(all[..At(img.width, 0, y)]) && symbol == PackBits(ColorBits(all[..At(img.width, 0, y)]))
    {
      var row := RowPixels(img, y);
      ImageRow(img, y);
      var shifted := ShiftColors(symbol, all[..At(img.width, 0, y)], row);
      if shifted.Err? {
        NotAllLitWithin(all, At(img.width, 0, y), At(img.width, 0, y + 1));
        return Err(InvalidColor);
      }
      TakeConcat(all, At(img.width, 0, y), At(img.width, 0, y + 1));
      symbol := shifted.value;
      y := y + 1;
    }
    AtRows(img.width, img.height);
    assert all[..At(img.width, 0, img.height)] == all;
    r := Ok(symbol);
  }

  lemma AtNextRow(w: nat, y: nat)
    ensures At(w, 0, y) + w == At(w, 0, y + 1)
  {
  }

  lemma AtRows(w: nat, h: nat)
    ensures At(w, 0, h) == h * w
  {
  }

  /** Row `y` of an image is the run of its reading order from `At(w, 0, y)` to `At(w, 0, y + 1)`. */
  lemma ImageRow(img: Image, y: nat)
    requires Fits(img) && y < img.height
    ensures At(img.width, 0, y) + img.width == At(img.width, 0, y + 1) <= img.height * img.width
    ensures var all := RowMajor(Whole(img), img.width, img.height);
      all[At(img.width, 0, y)..At(img.width, 0, y + 1)] == RowPixels(img, y)
  {
    AtNextRow(img.width, y);
    ReadingRow(Whole(img), img.width, img.height, y);
    WholeRow(img, y);
  }

  /** Row `y` of a grid `w` points wide, left to right. */
  function GridRow(g: Grid, w: nat, y: nat): (row: seq<seq<Byte>>)
    ensures |row| == w
  {
    seq(w, x requires 0 <= x < w => Sample(g, x, y))
  }

  /** Row `y` of a grid is the run of its reading order from `At(w, 0, y)`. */
  lemma ReadingRow(g: Grid, w: nat, rows: nat, y: nat)
    requires y < rows
    ensures At(w, 0, y) + w <= rows * w
    ensures RowMajor(g, w, rows)[At(w, 0, y)..At(w, 0, y) + w] == GridRow(g, w, y)
  {
    MulLe(y + 1, rows, w);
    var all, row, lo := RowMajor(g, w, rows), GridRow(g, w, y), At(w, 0, y);
    forall x | 0 <= x < w
      ensures all[lo + x] == row[x]
    {
      assert lo + x == At(w, x, y);
    }
    RunIs(all, row, lo);
  }

  /** Sampling the whole image along row `y` reads the row's pixels. */
  lemma WholeRow(img: Image, y: nat)
    requires Fits(img) && y < img.height
    ensures GridRow(Whole(img), img.width, y) == RowPixels(img, y)
  {
    forall x | 0 <= x < img.width
      ensures GridRow(Whole(img), img.width, y)[x] == RowPixels(img, y)[x]
    {
      WholeAt(img, x, y);
    }
  }

  /** A run of `|row|` elements from `lo` that agree with `row` one by one is `row`. */
  lemma RunIs<T>(s: seq<T>, row: seq<T>, lo: nat)
    requires lo + |row| <= |s| && forall x :: 0 <= x < |row| ==> s[lo + x] == row[x]
    ensures s[lo..lo + |row|] == row
  {
  }

  lemma TakeSnoc<T>(s: seq<T>, n: nat)
    requires n < |s|
    ensures s[..n + 1] == s[..n] + [s[n]]
  {
  }

  lemma TakeConcat<T>(s: seq<T>, a: nat, b: nat)
    requires a <= b <= |s|
    ensures s[..b] == s[..a] + s[a..b]
  {
  }

  /** A colour that is neither lit nor unlit somewhere in a run is one in the whole. */
  lemma NotAllLitWithin(cs: seq<seq<Byte>>, a: nat, b: nat)
    requires a <= b <= |cs| && !AllLit(cs[a..b])
    ensures !AllLit(cs)
  {
    var i :| 0 <= i < b - a && !Lit(cs[a..b][i]);
    assert cs[a + i] == cs[a..b][i];
  }

  /**
    The inner loop of `digit_image_to_symbol` over a run of pixels: each is
    shifted into the symbol read so far, and one of another colour stops it.
   */
  method ShiftColors(symbol: nat, ghost seen: seq<seq<Byte>>, cs: seq<seq<Byte>>) returns (r: Result<nat, ScoreReaderError>)
    requires AllLit(seen) && symbol == PackBits(ColorBits(seen))
    ensures r.Ok? <==> AllLit(cs)
    ensures r.Err? ==> r.error == InvalidColor
    ensures r.Ok? ==> AllLit(seen + cs) && r.value == PackBits(ColorBits(seen + cs))
  {
    var sym := symbol;
    ghost var done := seen;
    var i := 0;
    assert seen + cs[..0] == seen;
    while i < |cs|
      invariant i <= |cs| && AllLit(cs[..i]) && done == seen + cs[..i]
      invariant AllLit(done) && sym == PackBits(ColorBits(done))
    {
      var color := cs[i];
      TakeSnoc(cs, i);
      if color == DIGIT_COLOR_OFF {
        ShiftLit(done, color);
        sym := Shift(sym, false);
      } else if color == DIGIT_COLOR_ON {
        ShiftLit(done, color);
        sym := Shift(sym, true);
      } else {
        return Err(InvalidColor);
      }
      done := done + [color];
      i := i + 1;
    }
    assert cs[..i] == cs;
    r := Ok(sym);
  }

  /** Appending a lit or unlit pixel shifts its bit into the symbol. */
  lemma ShiftLit(cs: seq<seq<Byte>>, c: seq<Byte>)
    requires AllLit(cs) && Lit(c)
    ensures AllLit(cs + [c])
    ensures PackBits(ColorBits(cs + [c])) == Shift(PackBits(ColorBits(cs)), c == DIGIT_COLOR_ON)
  {
    assert ColorBits(cs + [c]) == ColorBits(cs) + [c == DIGIT_COLOR_ON];
    PackBitsSnoc(ColorBits(cs), c == DIGIT_COLOR_ON);
  }

  /** The lookup of `classify_digit_image`: an unknown symbol is a bad shape, class 10 the empty digit. */
  function ClassifySymbol(table: map<nat, nat>, symbol: Result<nat, ScoreReaderError>): (r: Result<Option<nat>, ScoreReaderError>)
    ensures symbol.Err? ==> r == Err(symbol.error)
    ensures symbol.Ok? ==>
      (r.Err? <==> symbol.value !in table)
      && (r.Err? ==> r.error == InvalidDigitShape)
      && (r == Ok(None) <==> symbol.value in table && table[symbol.value] == EMPTY_CLASS)
      && (r.Ok? && r.value.Some? ==> r.value.value == table[symbol.value] != EMPTY_CLASS)
  {
    match symbol
    case Err(e) => Err(e)
    case Ok(s) =>
      if s !in table then Err(InvalidDigitShape)
      else if table[s] == EMPTY_CLASS then Ok(None)
      else Ok(Some(table[s]))
  }

  /** `classify_digit_image`: the image's symbol looked up in the table. */
  method ClassifyDigitImage(table: map<nat, nat>, img: Image) returns (r: Result<Option<nat>, ScoreReaderError>)
    requires Fits(img)
    ensures r == ClassifySymbol(table, ImageSymbol(img))
  {
    var symbol := DigitImageToSymbol(img);
    r := ClassifySymbol(table, symbol);
  }

  /** Left edge of digit cell `pos`. */
  function DigitLeft(pos: nat): nat {
    1680 + 32 * pos
  }

  /** A frame large enough for all six digit cells (`1864` by `174` pixels). */
  predicate Readable(img: Image) {
    Fits(img) && DigitLeft(N_DIGITS_TO_READ - 1) + 24 <= img.width && 142 + 32 <= img.height
  }

  /** The sampled pixels of digit cell `pos`: every fourth pixel of its 24 by 32 box. */
  function DigitGrid(img: Image, pos: nat): Grid
    requires Readable(img) && pos < N_DIGITS_TO_READ
  {
    Grid(img, DigitLeft(pos), 142, 4)
  }

  /** Point `(x, y)` of cell `pos`'s grid is pixel `(left + 4 x, 142 + 4 y)` of the frame. */
  lemma DigitGridSamples(img: Image, pos: nat)
    requires Readable(img) && pos < N_DIGITS_TO_READ
    ensures forall x: nat, y: nat :: x < CELL_WIDTH && y < CELL_HEIGHT ==>
      InData(img, DigitLeft(pos) + 4 * x, 142 + 4 * y)
      && Sample(DigitGrid(img, pos), x, y) == GetPixel(img, DigitLeft(pos) + 4 * x, 142 + 4 * y)
  {
    var g := DigitGrid(img, pos);
    forall x: nat, y: nat | x < CELL_WIDTH && y < CELL_HEIGHT
      ensures InData(img, DigitLeft(pos) + 4 * x, 142 + 4 * y)
      && Sample(g, x, y) == GetPixel(img, DigitLeft(pos) + 4 * x, 142 + 4 * y)
    {
      assert InData(img, DigitLeft(pos) + 4 * x, 142 + 4 * y);
      assert SampleIn(g, x, y);
    }
  }

  function DigitSymbol(img: Image, pos: nat): Result<nat, ScoreReaderError>
    requires Readable(img) && pos < N_DIGITS_TO_READ
  {
    SymbolOf(RowMajor(DigitGrid(img, pos), CELL_WIDTH, CELL_HEIGHT))
  }

  /** The class of digit cell `pos`. */
  function CellClass(table: map<nat, nat>, img: Image, pos: nat): Result<Option<nat>, ScoreReaderError>
    requires Readable(img) && pos < N_DIGITS_TO_READ
  {
    ClassifySymbol(table, DigitSymbol(img, pos))
  }

  /** An image holding the sampled pixels of cell `pos` has the cell's symbol. */
  lemma SampledCellSymbol(img: Image, pos: nat, small: Image)
    requires Readable(img) && pos < N_DIGITS_TO_READ
    requires Fits(small) && small.width == CELL_WIDTH && small.height == CELL_HEIGHT
    requires forall x: nat, y: nat :: x < CELL_WIDTH && y < CELL_HEIGHT ==>
      InData(img, DigitLeft(pos) + 4 * x, 142 + 4 * y)
      && GetPixel(small, x, y) == GetPixel(img, DigitLeft(pos) + 4 * x, 142 + 4 * y)
    ensures ImageSymbol(small) == DigitSymbol(img, pos)
  {
    var at, digit := Whole(small), DigitGrid(img, pos);
    DigitGridSamples(img, pos);
    forall x: nat, y: nat | x < CELL_WIDTH && y < CELL_HEIGHT
      ensures Sample(at, x, y) == Sample(digit, x, y)
    {
      assert InData(small, x, y);
      WholeAt(small, x, y);
    }
    RowMajorAgree(at, digit, CELL_WIDTH, CELL_HEIGHT);
  }

  /**
    What `read_score_digit` knows of its two intermediate images: `cropped`
    is the 24 by 32 box of the frame whose top left corner is `(left, 142)`,
    and `small` is every fourth pixel of it in both directions.
   */
  ghost predicate CroppedAndSampled(img: Image, left: nat, cropped: Image, small: Image) {
    && Fits(img) && left + 24 <= img.width && 142 + 32 <= img.height
    && cropped.width == 24 && cropped.height == 32 && Fits(cropped)
    && (forall x: nat, y: nat :: x < cropped.width && y < cropped.height ==>
      GetPixel(cropped, x, y) == GetPixel(img, x + left, y + 142))
    && Fits(small) && small.width == CELL_WIDTH && small.height == CELL_HEIGHT
    && (forall x: nat, y: nat :: x < CELL_WIDTH && y < CELL_HEIGHT ==>
      GetPixel(small, x, y) == GetPixel(cropped, 4 * x, 4 * y))
  }

  /** Sampling the cropped 24 by 32 box of cell `pos` every fourth pixel reads the cell's sampled pixels. */
  lemma CroppedSample(img: Image, pos: nat, cropped: Image, small: Image)
    requires Readable(img) && pos < N_DIGITS_TO_READ
    requires CroppedAndSampled(img, DigitLeft(pos), cropped, small)
    ensures small.width == CELL_WIDTH && small.height == CELL_HEIGHT
    ensures forall x: nat, y: nat :: x < CELL_WIDTH && y < CELL_HEIGHT ==>
      InData(img, DigitLeft(pos) + 4 * x, 142 + 4 * y) && GetPixel(small, x, y) == GetPixel(img, DigitLeft(pos) + 4 * x, 142 + 4 * y)
  {
    forall x: nat, y: nat | x < CELL_WIDTH && y < CELL_HEIGHT
      ensures InData(img, DigitLeft(pos) + 4 * x, 142 + 4 * y) && GetPixel(small, x, y) == GetPixel(img, DigitLeft(pos) + 4 * x, 142 + 4 * y)
    {
      CroppedSampleAt(img, DigitLeft(pos), cropped, small, x, y);
    }
  }

  lemma CroppedSampleAt(img: Image, left: nat, cropped: Image, small: Image, x: nat, y: nat)
    requires CroppedAndSampled(img, left, cropped, small) && x < CELL_WIDTH && y < CELL_HEIGHT
    ensures InData(img, left + 4 * x, 142 + 4 * y) && GetPixel(small, x, y) == GetPixel(img, left + 4 * x, 142 + 4 * y)
  {
    assert GetPixel(small, x, y) == GetPixel(cropped, 4 * x, 4 * y);
    CroppedAt(img, left, cropped, 4 * x, 4 * y);
  }

  /**
    `downscale_by_sample` of the 24 by 32 box to `24 / 4` by `32 / 4` steps
    `24 / 6 = 4` pixels in each direction.
   */
  lemma SampledEveryFourth(cropped: Image, small: Image)
    requires cropped.width == 24 && cropped.height == 32 && Fits(cropped)
    requires Fits(small) && small.width == cropped.width / 4 && small.height == cropped.height / 4
    requires forall x: nat, y: nat :: x < cropped.width / 4 && y < cropped.height / 4 ==>
      x * (cropped.width / (cropped.width / 4)) < cropped.width && y * (cropped.height / (cropped.height / 4)) < cropped.height
      && GetPixel(small, x, y) == GetPixel(cropped, x * (cropped.width / (cropped.width / 4)), y * (cropped.height / (cropped.height / 4)))
    ensures small.width == CELL_WIDTH && small.height == CELL_HEIGHT
    ensures forall x: nat, y: nat :: x < CELL_WIDTH && y < CELL_HEIGHT ==>
      4 * x < cropped.width && 4 * y < cropped.height && GetPixel(small, x, y) == GetPixel(cropped, 4 * x, 4 * y)
  {
    assert cropped.width / 4 == 6 && cropped.height / 4 == 8;
    assert cropped.width / (cropped.width / 4) == 24 / 6 == 4;
    assert cropped.height / (cropped.height / 4) == 32 / 8 == 4;
    forall x: nat, y: nat | x < CELL_WIDTH && y < CELL_HEIGHT
      ensures 4 * x < cropped.width && 4 * y < cropped.height && GetPixel(small, x, y) == GetPixel(cropped, 4 * x, 4 * y)
    {
      assert GetPixel(small, x, y) == GetPixel(cropped, x * 4, y * 4);
    }
  }

  /** Pixel `(cx, cy)` of the box cropped at `(left, 142)` is pixel `(left + cx, 142 + cy)` of the frame. */
  lemma CroppedAt(img: Image, left: nat, cropped: Image, cx: nat, cy: nat)
    requires Fits(img) && Fits(cropped) && left + cropped.width <= img.width && 142 + cropped.height <= img.height
    requires forall x: nat, y: nat :: x < cropped.width && y < cropped.height ==>
      GetPixel(cropped, x, y) == GetPixel(img, x + left, y + 142)
    requires cx < cropped.width && cy < cropped.height
    ensures InData(img, left + cx, 142 + cy) && GetPixel(cropped, cx, cy) == GetPixel(img, left + cx, 142 + cy)
  {
    assert GetPixel(cropped, cx, cy) == GetPixel(img, cx + left, cy + 142);
  }

  /**
    `read_score_digit`: the 24 by 32 box of cell `pos` cropped, sampled
    down by 4 to 6 by 8, and classified.
   */
  method ReadScoreDigit(table: map<nat, nat>, img: Image, pos: nat) returns (r: Result<Option<nat>, ScoreReaderError>)
    requires Readable(img) && pos < N_DIGITS_TO_READ
    ensures r == CellClass(table, img, pos)
  {
    var left := DigitLeft(pos);
    var cropped := Crop(img, left, left + 32 - 8, 142, 142 + 32);
    var sampled := DownscaleBySample(cropped, cropped.width / 4, cropped.height / 4);
    var small := sampled.value;
    SampledEveryFourth(cropped, small);
    CroppedSample(img, pos, cropped, small);
    SampledCellSymbol(img, pos, small);
    r := ClassifyDigitImage(table, small);
  }

  /** The class of each of the six digit cells, left to right. */
  function CellClasses(table: map<nat, nat>, img: Image): (cells: seq<Result<Option<nat>, ScoreReaderError>>)
    requires Readable(img)
    ensures |cells| == N_DIGITS_TO_READ
    ensures forall i :: 0 <= i < N_DIGITS_TO_READ ==> cells[i] == CellClass(table, img, i)
  {
    seq(N_DIGITS_TO_READ, i requires 0 <= i < N_DIGITS_TO_READ => CellClass(table, img, i))
  }

  /**
    Reading the cells from `i` on with `score` so far: each digit is
    appended in decimal until the empty digit, the first error, or the last
    cell.
   */
  function ReadFrom(cells: seq<Result<Option<nat>, ScoreReaderError>>, i: nat, score: nat): (r: Result<nat, ScoreReaderError>)
    requires i <= |cells|
    decreases |cells| - i
  {
    if i == |cells| then Ok(score)
    else
      match cells[i]
      case Err(e) => Err(e)
      case Ok(None) => Ok(score)
      case Ok(Some(d)) => ReadFrom(cells, i + 1, score * 10 + d)
  }

  /** One step of the reading. */
  lemma ReadFromStep(cells: seq<Result<Option<nat>, ScoreReaderError>>, i: nat, score: nat)
    requires i < |cells|
    ensures cells[i].Err? ==> ReadFrom(cells, i, score) == Err(cells[i].error)
    ensures cells[i] == Ok(None) ==> ReadFrom(cells, i, score) == Ok(score)
    ensures cells[i].Ok? && cells[i].value.Some? ==>
      ReadFrom(cells, i, score) == ReadFrom(cells, i + 1, score * 10 + cells[i].value.value)
  {
  }

  /** Cells holding digits below ten give a score with at most as many decimal digits as there are cells. */
  lemma {:induction false} ReadFromBound(cells: seq<Result<Option<nat>, ScoreReaderError>>, i: nat, score: nat)
    requires i <= |cells| && score < Pow10(i)
    requires forall k :: 0 <= k < |cells| && cells[k].Ok? && cells[k].value.Some? ==> cells[k].value.value < 10
    ensures ReadFrom(cells, i, score).Ok? ==> ReadFrom(cells, i, score).value < Pow10(|cells|)
    decreases |cells| - i
  {
    if i < |cells| {
      if cells[i].Ok? && cells[i].value.Some? {
        ReadFromBound(cells, i + 1, score * 10 + cells[i].value.value);
      } else {
        Pow10Grows(i, |cells|);
      }
    }
  }

  /** An error in a cell before any empty digit is the result of the reading. */
  lemma {:induction false} ReadFromError(cells: seq<Result<Option<nat>, ScoreReaderError>>, i: nat, score: nat, k: nat)
    requires i <= k < |cells| && cells[k].Err?
    requires forall j :: i <= j < k ==> cells[j].Ok? && cells[j].value.Some?
    ensures ReadFrom(cells, i, score) == Err(cells[k].error)
    decreases k - i
  {
    if i < k {
      ReadFromError(cells, i + 1, score * 10 + cells[i].value.value, k);
    }
  }

  /** A table whose classes are at most the empty class reads at most six decimal digits. */
  lemma ScoreBelowMillion(table: map<nat, nat>, img: Image)
    requires Readable(img)
    requires forall s :: s in table ==> table[s] <= EMPTY_CLASS
    ensures ReadFrom(CellClasses(table, img), 0, 0).Ok? ==> ReadFrom(CellClasses(table, img), 0, 0).value < 1000000
  {
    var cells := CellClasses(table, img);
    ReadFromBound(cells, 0, 0);
    assert Pow10(N_DIGITS_TO_READ) == 1000000;
  }

  lemma {:induction false} Pow10Grows(a: nat, b: nat)
    requires a <= b
    ensures Pow10(a) <= Pow10(b)
    decreases b - a
  {
    if a < b {
      Pow10Grows(a + 1, b);
    }
  }

  /**
    `read_score`: up to six digits read left to right into a decimal
    number; the empty digit stops the reading and an error on a digit read
    before that is the result.
   */
  method ReadScore(table: map<nat, nat>, img: Image) returns (r: Result<nat, ScoreReaderError>)
    requires Readable(img)
    ensures r == ReadFrom(CellClasses(table, img), 0, 0)
  {
    r := ReadDigits(table, img, CellClasses(table, img));
  }

  /** The loop of `read_score`, against the classes `cells` the cells have. */
  method ReadDigits(table: map<nat, nat>, img: Image, ghost cells: seq<Result<Option<nat>, ScoreReaderError>>) returns (r: Result<nat, ScoreReaderError>)
    requires Readable(img) && |cells| == N_DIGITS_TO_READ
    requires forall i {:trigger CellClass(table, img, i)} :: 0 <= i < N_DIGITS_TO_READ ==> cells[i] == CellClass(table, img, i)
    ensures r == ReadFrom(cells, 0, 0)
  {
    ghost var total := ReadFrom(cells, 0, 0);
    var score := 0;
    var i := 0;
    while i < N_DIGITS_TO_READ
      invariant i <= N_DIGITS_TO_READ && ReadFrom(cells, i, score) == total
    {
      var next := ReadScoreDigit(table, img, i);
      assert next == cells[i];
      ReadFromStep(cells, i, score);
      if next.Err? {
        return Err(next.error);
      }
      if next.value.None? {
        return Ok(score);
      }
      score := score * 10 + next.value.value;
      i := i + 1;
    }
    r := Ok(score);
  }

  /** The bits of a drawing: `#` lit, `.` unlit. */
  predicate Drawn(line: string) {
    forall i :: 0 <= i < |line| ==> line[i] == '.' || line[i] == '#'
  }

  function CharBits(line: string): (bits: seq<bool>)
    ensures |bits| == |line| && forall i :: 0 <= i < |line| ==> (bits[i] <==> line[i] == '#')
  {
    seq(|line|, i requires 0 <= i < |line| => line[i] == '#')
  }

  function Concat(lines: seq<string>): (s: string)
    decreases |lines|
  {
    if |lines| == 0 then "" else lines[0] + Concat(lines[1..])
  }

  /**
    The symbol of a reference drawing: the bits of its lines, one line after
    another, shifted into one symbol; `None` for any character other than
    `.` and `#` (the source panics).
   */
  function LinesSymbol(lines: seq<string>): (r: Option<nat>)
    ensures r.Some? <==> Drawn(Concat(lines))
    ensures r.Some? ==> r.value == PackBits(CharBits(Concat(lines)))
  {
    var s := Concat(lines);
    if Drawn(s) then Some(PackBits(CharBits(s))) else None
  }

  /** A drawing of a cell, `#` for each lit pixel. */
  function Render(cs: seq<seq<Byte>>): (line: string)
    requires AllLit(cs)
    ensures |line| == |cs| && Drawn(line)
  {
    seq(|cs|, i requires 0 <= i < |cs| => if cs[i] == DIGIT_COLOR_ON then '#' else '.')
  }

  /** A cell drawn in the reference format has the symbol the image reader gives the cell. */
  lemma RenderedSymbol(cs: seq<seq<Byte>>)
    requires AllLit(cs)
    ensures LinesSymbol([Render(cs)]) == Some(SymbolOf(cs).value)
  {
    assert Concat([Render(cs)]) == Render(cs);
    assert CharBits(Render(cs)) == ColorBits(cs);
  }

  predicate IsDigitChar(c: char) {
    '0' <= c <= '9'
  }

  /** The value of a string of decimal digits. */
  function DecimalValue(ds: string): (v: nat)
    requires forall i :: 0 <= i < |ds| ==> IsDigitChar(ds[i])
    ensures v < Pow10(|ds|)
    decreases |ds|
  {
    if |ds| == 0 then 0
    else
      var high := DecimalValue(ds[..|ds| - 1]);
      MulLe(high + 1, Pow10(|ds| - 1), 10);
      high * 10 + DigitValue(ds[|ds| - 1])
  }

  function DigitValue(c: char): (v: nat)
    requires IsDigitChar(c)
    ensures v < 10
  {
    c as int - '0' as int
  }

  /** At least one character, every one a decimal digit. */
  predicate IsNumeral(ds: string) {
    |ds| > 0 && forall i :: 0 <= i < |ds| ==> IsDigitChar(ds[i])
  }

  /** The text after one optional leading `+`. */
  function Unsigned(s: string): (ds: string)
    ensures |s| > 0 && s[0] == '+' ==> ds == s[1..]
    ensures !(|s| > 0 && s[0] == '+') ==> ds == s
  {
    if |s| > 0 && s[0] == '+' then s[1..] else s
  }

  /** `str::parse::<u8>`: an optional `+`, at least one digit, nothing else, and a value below 256. */
  function ParseU8(s: string): (r: Option<nat>)
    ensures r.Some? ==> r.value < 256
    ensures r.Some? ==> |s| > 0 && (IsDigitChar(s[0]) || s[0] == '+')
    ensures r.Some? <==> IsNumeral(Unsigned(s)) && DecimalValue(Unsigned(s)) < 256
    ensures r.Some? ==> r.value == DecimalValue(Unsigned(s))
  {
    var ds := if |s| > 0 && s[0] == '+' then s[1..] else s;
    if |ds| == 0 || exists i :: 0 <= i < |ds| && !IsDigitChar(ds[i]) then None
    else if DecimalValue(ds) < 256 then Some(DecimalValue(ds))
    else None
  }

  /** A one-digit numeral parses to its value. */
  lemma ParseDigit(d: nat)
    requires d < 10
    ensures ParseU8([('0' as int + d) as char]) == Some(d)
  {
    var s := [('0' as int + d) as char];
    assert s[..0] == "";
    assert DecimalValue(s) == DigitValue(s[0]) == d;
  }

  /** The class of a reference entry: `None` is the empty digit, anything else a `u8` numeral. */
  function ParseClass(name: string): (r: Option<nat>)
    ensures name == "None" ==> r == Some(EMPTY_CLASS)
    ensures name != "None" ==> r == ParseU8(name)
  {
    if name == "None" then Some(EMPTY_CLASS) else ParseU8(name)
  }

  /** A reference entry: its name and its eight lines. */
  datatype Entry = Entry(name: string, lines: seq<string>)

  /** The eleven entries of whitespace-separated tokens, nine tokens each; `None` when tokens run out. */
  function Entries(tokens: seq<string>): (r: Option<seq<Entry>>)
    ensures r.Some? <==> |tokens| >= N_CLASSES * (1 + N_LINES)
    ensures r.Some? ==> |r.value| == N_CLASSES && forall k :: 0 <= k < N_CLASSES ==>
      r.value[k] == Entry(tokens[9 * k], tokens[9 * k + 1..9 * k + 9])
  {
    if |tokens| < N_CLASSES * (1 + N_LINES) then None
    else Some(seq(N_CLASSES, k requires 0 <= k < N_CLASSES => Entry(tokens[9 * k], tokens[9 * k + 1..9 * k + 9])))
  }

  /** An entry parses when its name and its drawing do. */
  predicate EntryValid(e: Entry) {
    ParseClass(e.name).Some? && LinesSymbol(e.lines).Some?
  }

  /** The table after inserting the entries in order, a later entry replacing an earlier one of the same symbol. */
  function BuildTable(entries: seq<Entry>): (r: Option<map<nat, nat>>)
    ensures r.Some? <==> forall k :: 0 <= k < |entries| ==> EntryValid(entries[k])
    ensures r.Some? ==> forall s :: s in r.value ==> r.value[s] <= 255
    decreases |entries|
  {
    if |entries| == 0 then Some(map[])
    else
      var last := entries[|entries| - 1];
      match BuildTable(entries[..|entries| - 1])
      case None => None
      case Some(table) =>
        if EntryValid(last) then Some(table[LinesSymbol(last.lines).value := ParseClass(last.name).value])
        else None
  }

  /** `ScoreReader::new`: the table of the reference digits, `None` where the source panics. */
  function NewScoreReader(tokens: seq<string>): (r: Option<map<nat, nat>>)
    ensures r.Some? <==> Entries(tokens).Some? && forall k :: 0 <= k < N_CLASSES ==> EntryValid(Entries(tokens).value[k])
  {
    match Entries(tokens)
    case None => None
    case Some(entries) => BuildTable(entries)
  }

  /** With distinct symbols, every entry's symbol finds that entry's class. */
  lemma {:induction false} BuildTableFinds(entries: seq<Entry>, k: nat)
    requires BuildTable(entries).Some? && k < |entries|
    requires forall i, j :: 0 <= i < j < |entries| ==> LinesSymbol(entries[i].lines) != LinesSymbol(entries[j].lines)
    ensures LinesSymbol(entries[k].lines).value in BuildTable(entries).value
    ensures BuildTable(entries).value[LinesSymbol(entries[k].lines).value] == ParseClass(entries[k].name).value
    decreases |entries|
  {
    var n := |entries|;
    if k < n - 1 {
      var prefix := entries[..n - 1];
      assert prefix[k] == entries[k];
      BuildTableFinds(prefix, k);
    }
  }

  /**
    A cell whose lit pixels are drawn exactly as reference entry `k` is
    classified as that entry's class (the empty digit as `None`), when the
    reference symbols are distinct.
   */
  lemma ReferenceCellClassifies(tokens: seq<string>, k: nat, cs: seq<seq<Byte>>)
    requires NewScoreReader(tokens).Some? && k < N_CLASSES
    requires forall i, j :: 0 <= i < j < N_CLASSES ==>
      LinesSymbol(Entries(tokens).value[i].lines) != LinesSymbol(Entries(tokens).value[j].lines)
    requires AllLit(cs) && Concat(Entries(tokens).value[k].lines) == Render(cs)
    ensures var cls := ParseClass(Entries(tokens).value[k].name).value;
      ClassifySymbol(NewScoreReader(tokens).value, SymbolOf(cs)) == if cls == EMPTY_CLASS then Ok(None) else Ok(Some(cls))
  {
    var entries := Entries(tokens).value;
    BuildTableFinds(entries, k);
    RenderedSymbol(cs);
    assert Concat([Render(cs)]) == Render(cs);
  }
}
