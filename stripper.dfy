/**
 * ColorStripperActivity.strip: clear the selected colour byte of every
 * pixel, FRAMES bands of `rpf` rows at a time, in place in the pixel buffer.
 *
 * The buffer is row-major, `width` pixels per row, so iteration `i` of the
 * frame loop visits the indices `[i * rpf * width, (i + 1) * rpf * width)`,
 * cut off at the end of the buffer. The sleep and the UI refresh after each
 * frame carry no state of the model.
 *
 * Strip computes the index bounds exactly, as `long` arithmetic would; the
 * bounds as the source computes them, in `int`, are StartAsWritten and
 * StripGuardAsWritten, and StripIndexWrapsAsWritten shows a bitmap on which
 * they wrap to a negative index.
 */
module Stripper {
  import opened Arith
  import opened Pixels
  import opened Frames

  /** The pixels of `a` below index `upto` have channel `c` cleared, the rest are `orig`'s. */
  ghost predicate ClearedBelow(a: array<Pixel>, orig: seq<Pixel>, c: Component, upto: int)
    reads a
  {
    forall k :: 0 <= k < a.Length && k < |orig| ==>
      a[k] == if k < upto then Discard(orig[k], c) else orig[k]
  }

  /** The first index iteration `i` visits, `i * rpf * width`. */
  function FrameStart(i: nat, rpf: nat, width: nat): nat
  {
    MulNonneg(i * rpf, width);
    MulNonneg(i, rpf);
    i * rpf * width
  }

  /** Iteration `i` starts no later than it ends, and ends where iteration `i + 1` starts. */
  lemma FrameStartStep(i: nat, rpf: nat, width: nat)
    ensures FrameStart(i, rpf, width) <= FrameStart(i + 1, rpf, width)
    ensures FrameStart(i + 1, rpf, width) == (i + 1) * rpf * width
  {
    MulStep(i, rpf);
    MulMono(width, i * rpf, (i + 1) * rpf);
  }

  /**
   * The inner loop of strip for frame `i`: clear channel `c` of the pixels
   * from `i * rpf * width` while below `(i + 1) * rpf * width` and inside
   * the buffer. It writes no index outside `[start, min(end, n))`.
   */
  method StripFrame(pixels: array<Pixel>, width: nat, height: nat, rpf: nat, i: nat, c: Component,
                    ghost orig: seq<Pixel>)
    requires pixels.Length == |orig| == width * height
    requires ClearedBelow(pixels, orig, c, FrameStart(i, rpf, width))
    modifies pixels
    ensures ClearedBelow(pixels, orig, c, FrameStart(i + 1, rpf, width))
    ensures forall k :: 0 <= k < pixels.Length && !(FrameStart(i, rpf, width) <= k < FrameStart(i + 1, rpf, width)) ==>
      pixels[k] == old(pixels[k])
  {
    FrameStartStep(i, rpf, width);
    var j := i * rpf * width;
    while j < (i + 1) * rpf * width && j < width * height
      invariant FrameStart(i, rpf, width) <= j <= FrameStart(i + 1, rpf, width)
      invariant ClearedBelow(pixels, orig, c, j)
    {
      pixels[j] := Discard(pixels[j], c);
      j := j + 1;
    }
  }

  /** Later iterations start no earlier than earlier ones end: their index ranges are disjoint and in order. */
  lemma FramesInOrder(i: nat, l: nat, rpf: nat, width: nat)
    requires i < l
    ensures FrameStart(i + 1, rpf, width) <= FrameStart(l, rpf, width)
  {
    MulMono(rpf, i + 1, l);
    MulMono(width, (i + 1) * rpf, l * rpf);
  }

  /**
   * An iteration with `i * rpf >= height` starts at or past the end of the
   * buffer, so it writes nothing; in particular iteration FRAMES would.
   */
  lemma FrameBeyondBuffer(i: nat, rpf: nat, width: nat, height: nat)
    requires i * rpf >= height
    ensures FrameStart(i, rpf, width) >= width * height
  {
    MulMono(width, height, i * rpf);
  }

  /**
   * strip: after all FRAMES iterations every pixel of the buffer has
   * channel `c` cleared and nothing else changed.
   */
  method Strip(pixels: array<Pixel>, width: nat, height: nat, c: Component)
    requires pixels.Length == width * height
    modifies pixels
    ensures forall k :: 0 <= k < pixels.Length ==> pixels[k] == Discard(old(pixels[k]), c)
  {
    FramesValues();
    var rpf := RowsPerFrame(height, StripFrames);
    RowsPerFrameSpec(height, StripFrames);
    ghost var orig := pixels[..];
    var i := 0;
    while i < StripFrames
      invariant i <= StripFrames
      invariant ClearedBelow(pixels, orig, c, FrameStart(i, rpf, width))
    {
      StripFrame(pixels, width, height, rpf, i, c, orig);
      i := i + 1;
    }
    FrameBeyondBuffer(StripFrames, rpf, width, height);
  }

  // ---------------------------------------------------------------------------
  // The inner loop as written, on 32-bit ints

  /** `i * rpf * width` as Java evaluates it: each product wraps to an `int`. */
  function StartAsWritten(i: int, rpf: int, width: int): int
  {
    Wrap32(Wrap32(i * rpf) * width)
  }

  /** The inner loop's guard as written, for index `j` of iteration `i`. */
  predicate StripGuardAsWritten(j: int, i: int, rpf: int, width: int, height: int)
  {
    j < Wrap32(Wrap32((i + 1) * rpf) * width) && j < Wrap32(width * height)
  }

  /**
   * A one-row bitmap 34636834 pixels wide: `rpf` is 1 and iteration 62
   * starts at 62 * 34636834 = 2147483708, past the buffer. In `int` that
   * start wraps to a negative index, the wrapped end of the iteration is a
   * larger negative int, so the guard admits the negative index and
   * `pixels[j]` is out of bounds. With exact arithmetic (FrameStart) the
   * iteration starts past the buffer and writes nothing.
   */
  lemma StripIndexWrapsAsWritten()
    ensures RowsPerFrame(1, StripFrames) == 1
    ensures StartAsWritten(62, 1, 34636834) == -2147483588 < 0
    ensures StripGuardAsWritten(StartAsWritten(62, 1, 34636834), 62, 1, 34636834, 1)
    ensures FrameStart(62, 1, 34636834) >= 34636834 * 1
  {
    FramesValues();
  }
}
