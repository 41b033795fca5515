/**
 * PixelFudger.fudge: the worker that applies the selected strategy to every
 * pixel, row by row, in a copy of the bitmap's pixels, and copies each
 * finished band of rows back into the bitmap (one frame of the animation).
 *
 * The bitmap is its pixel buffer, row-major, `width` pixels per row. The
 * frame pacing (sleeping until FRAME_TIME has passed) and the UI refresh
 * after each band carry no state of the model; each band copied back is
 * recorded in the ghost sequence `published` instead.
 */
module Fudger {
  import opened Pixels
  import opened Arith
  import opened Frames

  /** Rows `[0, rows)` of a `width`-wide buffer end at index `rows * width`, inside the buffer. */
  lemma RowsInBuffer(rows: nat, width: nat, height: nat)
    requires rows <= height
    ensures rows * width <= width * height
  {
    MulMono(width, rows, height);
  }

  /**
   * Where the row loop stands with respect to the bands: `row` rows are
   * processed, the bands in `published` are copied back and the open band
   * starts at `lastRow`, never holding `rpf` or more rows while rows remain.
   */
  ghost predicate BandState(height: nat, rpf: nat, row: nat, lastRow: nat, published: seq<Band>)
  {
    && lastRow <= row <= height
    && (row < height ==> row < lastRow + rpf)
    && (row == height ==> lastRow == height)
    && published == BandsOf(height, rpf, |published|)
    && lastRow == Min(|published| * rpf, height)
    && (|published| > 0 ==> (|published| - 1) * rpf < height)
  }

  /**
   * One turn of the row loop, on the bands alone: after row `row` the test
   * `(row + 1) % rpf == 0 || row + 1 == height` publishes exactly the next
   * band of Bands, and without it the open band stays below `rpf` rows.
   */
  lemma BandStep(height: nat, rpf: nat, row: nat, lastRow: nat, published: seq<Band>)
    requires rpf > 0 && row < height && BandState(height, rpf, row, lastRow, published)
    ensures ((row + 1) % rpf == 0 || row + 1 == height) ==>
      BandState(height, rpf, row + 1, row + 1, published + [Band(lastRow, row + 1)])
    ensures !((row + 1) % rpf == 0 || row + 1 == height) ==>
      BandState(height, rpf, row + 1, lastRow, published)
  {
    var n := |published|;
    PublishTest(height, rpf, n, lastRow, row);
    if (row + 1) % rpf == 0 || row + 1 == height {
      BandsOfNext(height, rpf, n);
      MulStep(n + 1, rpf);
    }
  }

  /** Once every row is processed, the published bands are all of Bands. */
  lemma BandStateDone(height: nat, rpf: nat, lastRow: nat, published: seq<Band>)
    requires rpf > 0 && BandState(height, rpf, height, lastRow, published)
    ensures published == Bands(height, rpf)
  {
    CeilDivUnique(height, rpf, |published|);
  }

  /** The publishing test, on the arithmetic of the open band `[n * rpf, row + 1)`. */
  lemma PublishTest(height: nat, rpf: nat, n: nat, lastRow: nat, row: nat)
    requires rpf > 0 && row < height
    requires lastRow == Min(n * rpf, height) && lastRow <= row < lastRow + rpf
    ensures lastRow == n * rpf
    ensures ((row + 1) % rpf == 0 || row + 1 == height) <==> row + 1 == Min((n + 1) * rpf, height)
    ensures row + 1 < lastRow + rpf || row + 1 == Min((n + 1) * rpf, height)
  {
    MulStep(n, rpf);
    if (row + 1) % rpf == 0 {
      DivBracket(row + 1, rpf);
      var q := (row + 1) / rpf;
      assert q * rpf == row + 1;
      MulOrder(n, q, rpf);
      MulOrder(q, n + 2, rpf);
      MulStep(n + 1, rpf);
    }
    if row + 1 == (n + 1) * rpf {
      assert (row + 1) % rpf == 0 by {
        DivMulExact(n + 1, rpf);
      }
    }
  }

  /** Appending the next band to the first `n` bands gives the first `n + 1`. */
  lemma BandsOfNext(height: nat, rpf: nat, n: nat)
    ensures BandsOf(height, rpf, n) + [Band(n * rpf, Min((n + 1) * rpf, height))] == BandsOf(height, rpf, n + 1)
  {
  }

  /** The pixels of `a` below index `upto` are `orig`'s transformed, the rest are `orig`'s. */
  ghost predicate TransformedBelow(a: array<Pixel>, orig: seq<Pixel>, st: Strategy, c: Component, upto: int)
    reads a
  {
    forall k :: 0 <= k < a.Length && k < |orig| ==>
      a[k] == if k < upto then Operate(st, orig[k], c) else orig[k]
  }

  /**
   * The inner loop of fudge: `for (i = lo; i < hi; i++) pixels[i] = operate(pixels[i], shift)`.
   * Before it, the pixels below `lo` are transformed and the rest are as in
   * `orig`; after it, the same holds with `hi` in place of `lo`.
   */
  method ApplyRange(pixels: array<Pixel>, lo: nat, hi: nat, st: Strategy, c: Component, ghost orig: seq<Pixel>)
    requires lo <= hi <= pixels.Length == |orig|
    requires TransformedBelow(pixels, orig, st, c, lo)
    modifies pixels
    ensures TransformedBelow(pixels, orig, st, c, hi)
  {
    var i := lo;
    while i < hi
      invariant lo <= i <= hi
      invariant TransformedBelow(pixels, orig, st, c, i)
    {
      pixels[i] := Operate(st, pixels[i], c);
      i := i + 1;
    }
  }

  /**
   * `bitmap.setPixels` of the rows whose pixels are the indices `[lo, hi)`:
   * when the pixels are transformed below `hi` and the bitmap below `lo`,
   * the bitmap is transformed below `hi` afterwards.
   */
  method CopyRange(bitmap: array<Pixel>, pixels: array<Pixel>, lo: nat, hi: nat,
                   st: Strategy, c: Component, ghost orig: seq<Pixel>)
    requires bitmap != pixels && lo <= hi <= bitmap.Length == pixels.Length == |orig|
    requires TransformedBelow(pixels, orig, st, c, hi) && TransformedBelow(bitmap, orig, st, c, lo)
    modifies bitmap
    ensures TransformedBelow(bitmap, orig, st, c, hi)
    ensures forall k :: 0 <= k < bitmap.Length ==>
      bitmap[k] == if lo <= k < hi then pixels[k] else old(bitmap[k])
  {
    forall k | lo <= k < hi {
      bitmap[k] := pixels[k];
    }
  }

  /** fudge's publishing test after row `row`: the row closes a band. */
  predicate ClosesBand(height: nat, rpf: nat, row: nat)
    requires rpf > 0
  {
    (row + 1) % rpf == 0 || row + 1 == height
  }

  /** `lastRow` once rows `[0, row)` have been processed. */
  ghost function LastRowAfter(height: nat, rpf: nat, row: nat): nat
    requires row == 0 || rpf > 0
  {
    if row == 0 then 0
    else if ClosesBand(height, rpf, row - 1) then row
    else LastRowAfter(height, rpf, row - 1)
  }

  /** The bands published once rows `[0, row)` have been processed. */
  ghost function PublishedAfter(height: nat, rpf: nat, row: nat): seq<Band>
    requires row == 0 || rpf > 0
  {
    if row == 0 then []
    else if ClosesBand(height, rpf, row - 1)
    then PublishedAfter(height, rpf, row - 1) + [Band(LastRowAfter(height, rpf, row - 1), row)]
    else PublishedAfter(height, rpf, row - 1)
  }

  /** The loop's bookkeeping after `row` rows satisfies BandState. */
  lemma {:induction false} AfterRowsState(height: nat, rpf: nat, row: nat)
    requires rpf > 0 && row <= height
    ensures BandState(height, rpf, row, LastRowAfter(height, rpf, row), PublishedAfter(height, rpf, row))
  {
    if row > 0 {
      AfterRowsState(height, rpf, row - 1);
      BandStep(height, rpf, row - 1, LastRowAfter(height, rpf, row - 1), PublishedAfter(height, rpf, row - 1));
    }
  }

  /**
   * The bands fudge publishes over the whole bitmap are exactly Bands: in
   * order, contiguous, covering every row, at most `rpf` rows each.
   */
  lemma PublishedAllBands(height: nat, rpf: nat)
    requires rpf > 0
    ensures LastRowAfter(height, rpf, height) == height
    ensures PublishedAfter(height, rpf, height) == Bands(height, rpf)
  {
    AfterRowsState(height, rpf, height);
    BandStateDone(height, rpf, LastRowAfter(height, rpf, height), PublishedAfter(height, rpf, height));
  }

  /** The open band never starts after the current row. */
  lemma LastRowAtMost(height: nat, rpf: nat, row: nat)
    requires rpf > 0 && row <= height
    ensures LastRowAfter(height, rpf, row) <= row
  {
    AfterRowsState(height, rpf, row);
  }

  /**
   * One turn of fudge's row loop: transform row `row` in `pixels`, then, if
   * the row closes a band, copy the band `[lastRow, row + 1)` back into the
   * bitmap and record it as published.
   */
  method FudgeRow(bitmap: array<Pixel>, pixels: array<Pixel>, width: nat, height: nat, rpf: nat,
                  row: nat, lastRow: nat, st: Strategy, c: Component,
                  ghost orig: seq<Pixel>, ghost published: seq<Band>)
    returns (newLastRow: nat, ghost newPublished: seq<Band>)
    requires bitmap != pixels && bitmap.Length == pixels.Length == |orig| == width * height
    requires rpf > 0 && row < height
    requires lastRow == LastRowAfter(height, rpf, row) && published == PublishedAfter(height, rpf, row)
    requires TransformedBelow(pixels, orig, st, c, row * width)
    requires TransformedBelow(bitmap, orig, st, c, lastRow * width)
    modifies bitmap, pixels
    ensures newLastRow == LastRowAfter(height, rpf, row + 1)
    ensures newPublished == PublishedAfter(height, rpf, row + 1)
    ensures TransformedBelow(pixels, orig, st, c, (row + 1) * width)
    ensures TransformedBelow(bitmap, orig, st, c, newLastRow * width)
  {
    RowsInBuffer(row + 1, width, height);
    MulStep(row, width);
    MulNonneg(row, width);
    MulNonneg(row + 1, width);
    ApplyRange(pixels, row * width, (row + 1) * width, st, c, orig);
    newLastRow, newPublished := lastRow, published;
    if (row + 1) % rpf == 0 || row + 1 == height {
      LastRowAtMost(height, rpf, row);
      MulNonneg(lastRow, width);
      MulMono(width, lastRow, row + 1);
      CopyRange(bitmap, pixels, lastRow * width, (row + 1) * width, st, c, orig);
      newPublished := published + [Band(lastRow, row + 1)];
      newLastRow := row + 1;
    }
  }

  /**
   * fudge's row loop, `for (row = 0; row < height; row++)`: afterwards every
   * pixel of `pixels` and of the bitmap is transformed, and the bands
   * published are those of all `height` rows.
   */
  method FudgeRows(bitmap: array<Pixel>, pixels: array<Pixel>, width: nat, height: nat, rpf: nat,
                   st: Strategy, c: Component, ghost orig: seq<Pixel>)
    returns (ghost published: seq<Band>)
    requires bitmap != pixels && bitmap.Length == pixels.Length == |orig| == width * height
    requires height > 0 ==> rpf > 0
    requires TransformedBelow(pixels, orig, st, c, 0) && TransformedBelow(bitmap, orig, st, c, 0)
    modifies bitmap, pixels
    ensures TransformedBelow(bitmap, orig, st, c, LastRowAfter(height, rpf, height) * width)
    ensures published == PublishedAfter(height, rpf, height)
  {
    var lastRow: nat := 0;
    published := [];
    var row: nat := 0;
    while row < height
      invariant row <= height
      invariant lastRow == LastRowAfter(height, rpf, row) && published == PublishedAfter(height, rpf, row)
      invariant TransformedBelow(pixels, orig, st, c, row * width)
      invariant TransformedBelow(bitmap, orig, st, c, lastRow * width)
    {
      lastRow, published := FudgeRow(bitmap, pixels, width, height, rpf, row, lastRow, st, c, orig, published);
      row := row + 1;
    }
  }

  /**
   * fudge: every pixel of the bitmap ends up transformed by the strategy
   * exactly once, and the bands of rows copied back into the bitmap are
   * Bands(height, rpf), in order, with `rpf = ceil(height / FRAMES)`.
   */
  method Fudge(bitmap: array<Pixel>, width: nat, height: nat, st: Strategy, c: Component)
    returns (ghost published: seq<Band>)
    requires bitmap.Length == width * height
    modifies bitmap
    ensures forall k :: 0 <= k < bitmap.Length ==> bitmap[k] == Operate(st, old(bitmap[k]), c)
    ensures height > 0 ==> published == Bands(height, RowsPerFrame(height, FudgeFrames))
    ensures height == 0 ==> published == []
  {
    FramesValues();
    var rpf := RowsPerFrame(height, FudgeFrames);
    RowsPerFrameSpec(height, FudgeFrames);
    ghost var orig := bitmap[..];
    var pixels := new Pixel[width * height];
    forall k | 0 <= k < width * height {
      pixels[k] := bitmap[k];
    }
    published := FudgeRows(bitmap, pixels, width, height, rpf, st, c, orig);
    if height > 0 {
      PublishedAllBands(height, rpf);
    }
    assert LastRowAfter(height, rpf, height) * width == bitmap.Length;
  }
}
