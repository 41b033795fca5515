/**
 * Frame pacing shared by PixelFudger.fudge and ColorStripper.strip: the number
 * of frames an animation is split into, the rows per frame, and the bands of
 * rows that fudge publishes one frame at a time.
 *
 * `(int) Math.ceil(x / (double) y)` on non-negative ints is integer ceiling
 * division: for the image heights an int can hold the quotient is never
 * rounded across an integer.
 */
module Frames {
  import opened Arith

  function Min(x: int, y: int): int
  {
    if x <= y then x else y
  }

  /** `(int) Math.ceil(x / (double) y)` for `x >= 0`, `y > 0`. */
  function CeilDiv(x: nat, y: nat): nat
    requires y > 0
  {
    (x + y - 1) / y
  }

  /** CeilDiv(x, y) is the least `n` with `n * y >= x`. */
  lemma CeilDivBounds(x: nat, y: nat)
    requires y > 0
    ensures CeilDiv(x, y) * y >= x
    ensures CeilDiv(x, y) > 0 ==> (CeilDiv(x, y) - 1) * y < x
    ensures CeilDiv(x, y) == 0 <==> x == 0
  {
    var n := CeilDiv(x, y);
    var t := x + y - 1;
    assert t == n * y + t % y && 0 <= t % y < y;
    MulStep(n, y);
  }

  /** Any `n` with `(n - 1) * y < x <= n * y` is CeilDiv(x, y). */
  lemma CeilDivUnique(x: nat, y: nat, n: nat)
    requires y > 0 && n * y >= x
    requires n == 0 || (n - 1) * y < x
    ensures n == CeilDiv(x, y)
  {
    var m := CeilDiv(x, y);
    CeilDivBounds(x, y);
    if n < m {
      MulMono(y, n, m - 1);
    } else if m < n {
      MulMono(y, m, n - 1);
    }
  }

  /** If `n` multiples of `y` reach `x`, CeilDiv(x, y) is at most `n`. */
  lemma CeilDivAtMost(x: nat, y: nat, n: nat)
    requires y > 0 && n * y >= x
    ensures CeilDiv(x, y) <= n
  {
    var m := CeilDiv(x, y);
    CeilDivBounds(x, y);
    if m > n {
      MulMono(y, n, m - 1);
    }
  }

  // ---------------------------------------------------------------------------
  // FRAMES and rows per frame

  /** PixelFudger: STRIP_TIME and FRAME_TIME in milliseconds. */
  const FudgeStripTime: nat := 2000
  const FudgeFrameTime: nat := 32

  /** PixelFudger.FRAMES = ceil(STRIP_TIME / FRAME_TIME). */
  const FudgeFrames: nat := CeilDiv(FudgeStripTime, FudgeFrameTime)

  /** ColorStripper.strip: STRIP_TIME and FRAME_TIME in milliseconds. */
  const StripStripTime: nat := 1000
  const StripFrameTime: nat := 16

  /** ColorStripper's FRAMES = ceil(STRIP_TIME / FRAME_TIME). */
  const StripFrames: nat := CeilDiv(StripStripTime, StripFrameTime)

  /** Both animations are cut into 63 frames. */
  lemma FramesValues()
    ensures FudgeFrames == 63
    ensures StripFrames == 63
  {
    assert (2000 + 32 - 1) / 32 == 63;
    assert (1000 + 16 - 1) / 16 == 63;
  }

  /** `rpf = (int) Math.ceil(height / (double) FRAMES)`. */
  function RowsPerFrame(height: nat, frames: nat): nat
    requires frames > 0
  {
    CeilDiv(height, frames)
  }

  /**
   * The rows per frame are the fewest with which `frames` frames reach the
   * last row; there is at least one row per frame as soon as there is a row,
   * so `(row + 1) % rpf` is defined wherever the row loop evaluates it.
   */
  lemma RowsPerFrameSpec(height: nat, frames: nat)
    requires frames > 0
    ensures height > 0 ==> RowsPerFrame(height, frames) >= 1
    ensures frames * RowsPerFrame(height, frames) >= height
    ensures RowsPerFrame(height, frames) > 0 ==> frames * (RowsPerFrame(height, frames) - 1) < height
  {
    CeilDivBounds(height, frames);
  }

  // ---------------------------------------------------------------------------
  // The bands fudge publishes

  /** The rows `[lo, hi)` that one setPixels call copies back into the bitmap. */
  datatype Band = Band(lo: nat, hi: nat)

  /** The first `n` bands of `rpf` rows each, the last one cut off at `height`. */
  function BandsOf(height: nat, rpf: nat, n: nat): (bands: seq<Band>)
    ensures |bands| == n
  {
    if n == 0 then [] else BandsOf(height, rpf, n - 1) + [Band((n - 1) * rpf, Min(n * rpf, height))]
  }

  /** Band `k` holds the rows `[k * rpf, (k + 1) * rpf)`, cut off at `height`. */
  lemma {:induction false} BandsOfAt(height: nat, rpf: nat, n: nat, k: nat)
    requires k < n
    ensures BandsOf(height, rpf, n)[k] == Band(k * rpf, Min((k + 1) * rpf, height))
  {
    if k < n - 1 {
      BandsOfAt(height, rpf, n - 1, k);
    }
  }

  /** Every band fudge publishes, in order: one per `rpf` rows, and one for the rest. */
  function Bands(height: nat, rpf: nat): seq<Band>
    requires rpf > 0
  {
    BandsOf(height, rpf, CeilDiv(height, rpf))
  }

  /** Band `k` of Bands, in closed form. */
  lemma BandAt(height: nat, rpf: nat, k: nat)
    requires rpf > 0 && k < |Bands(height, rpf)|
    ensures Bands(height, rpf)[k] == Band(k * rpf, Min((k + 1) * rpf, height))
  {
    BandsOfAt(height, rpf, CeilDiv(height, rpf), k);
  }

  /** Band `k` of Bands is non-empty and holds at most `rpf` rows. */
  lemma BandShape(height: nat, rpf: nat, k: nat)
    requires rpf > 0 && k < |Bands(height, rpf)|
    ensures Bands(height, rpf)[k].lo < Bands(height, rpf)[k].hi <= height
    ensures Bands(height, rpf)[k].hi - Bands(height, rpf)[k].lo <= rpf
  {
    BandAt(height, rpf, k);
    CeilDivBounds(height, rpf);
    MulMono(rpf, k, CeilDiv(height, rpf) - 1);
    MulStep(k, rpf);
  }

  /**
   * The bands tile the rows: none for an empty bitmap, otherwise the first
   * starts at row 0, each starts where the one before ended, and the last
   * ends at `height`.
   */
  lemma BandsTile(height: nat, rpf: nat)
    requires rpf > 0
    ensures |Bands(height, rpf)| == 0 <==> height == 0
    ensures |Bands(height, rpf)| > 0 ==> Bands(height, rpf)[0].lo == 0
    ensures |Bands(height, rpf)| > 0 ==> Bands(height, rpf)[|Bands(height, rpf)| - 1].hi == height
    ensures forall k :: 0 <= k < |Bands(height, rpf)| - 1 ==>
      Bands(height, rpf)[k].hi == Bands(height, rpf)[k + 1].lo
  {
    var n := CeilDiv(height, rpf);
    var bands := Bands(height, rpf);
    CeilDivBounds(height, rpf);
    if n > 0 {
      BandAt(height, rpf, 0);
      BandAt(height, rpf, n - 1);
      MulStep(n - 1, rpf);
      assert bands[n - 1].hi == Min(n * rpf, height) == height;
    }
    forall k | 0 <= k < n - 1
      ensures bands[k].hi == bands[k + 1].lo
    {
      BandAt(height, rpf, k);
      BandAt(height, rpf, k + 1);
      MulMono(rpf, k + 2, n);
      MulStep(k + 1, rpf);
      MulStep(n - 1, rpf);
      assert (k + 1) * rpf <= (n - 1) * rpf < height;
    }
  }

  /** Row `row` lies in band `row / rpf`. */
  lemma BandOfRow(height: nat, rpf: nat, row: nat)
    requires rpf > 0 && row < height
    ensures row / rpf < |Bands(height, rpf)|
    ensures Bands(height, rpf)[row / rpf].lo <= row < Bands(height, rpf)[row / rpf].hi
  {
    var n := CeilDiv(height, rpf);
    var q := row / rpf;
    DivBracket(row, rpf);
    CeilDivBounds(height, rpf);
    if q >= n {
      MulMono(rpf, n, q);
    }
    BandAt(height, rpf, q);
    var band := Bands(height, rpf)[q];
    assert band == Band(q * rpf, Min((q + 1) * rpf, height));
  }

  /** Bands are disjoint and in increasing order, so a row lies in one band only. */
  lemma BandsDisjoint(height: nat, rpf: nat, k: nat, l: nat)
    requires rpf > 0 && k < l < |Bands(height, rpf)|
    ensures Bands(height, rpf)[k].hi <= Bands(height, rpf)[l].lo
  {
    var bands := Bands(height, rpf);
    BandAt(height, rpf, k);
    BandAt(height, rpf, l);
    assert bands[k].hi <= (k + 1) * rpf;
    assert bands[l].lo == l * rpf;
    MulMono(rpf, k + 1, l);
  }

  /** With `rpf = ceil(height / FRAMES)` there are at most FRAMES bands. */
  lemma BandsFitFrames(height: nat, frames: nat)
    requires frames > 0 && height > 0
    ensures |Bands(height, RowsPerFrame(height, frames))| <= frames
  {
    var rpf := RowsPerFrame(height, frames);
    RowsPerFrameSpec(height, frames);
    CeilDivAtMost(height, rpf, frames);
  }
}
