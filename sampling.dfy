/**
 * PixelFudger's LoadBitmap: the down-sampling factor `inSampleSize`, the
 * smallest power of two by which the image's bounds `w` x `h` must be
 * divided to fit the display's `displayW` x `displayH`.
 *
 * The loop as the source writes it computes `displayW * sample` and
 * `sample * 2` in 32-bit ints; SampleSize computes them on unbounded
 * integers (as with `long` arithmetic, which cannot overflow here), and
 * SampleLoopHangsAsWritten shows an input on which the 32-bit loop never ends.
 */
module Sampling {
  import opened Arith

  /** `n` is 1, 2, 4, 8, ... */
  predicate IsPowerOfTwo(n: int)
    decreases if n < 0 then 0 else n
  {
    n == 1 || (n > 1 && n % 2 == 0 && IsPowerOfTwo(n / 2))
  }

  /** Sampling by `sample` brings the image within the display bounds. */
  predicate Fits(w: int, h: int, displayW: int, displayH: int, sample: int)
  {
    w <= displayW * sample && h <= displayH * sample
  }

  /** A power of two below twice another power of two is at most that one. */
  lemma {:induction false} PowerBelowDouble(p: int, s: int)
    requires IsPowerOfTwo(p) && IsPowerOfTwo(s) && p < 2 * s
    ensures p <= s
  {
    if p != 1 && s != 1 {
      PowerBelowDouble(p / 2, s / 2);
    }
  }

  /** A positive multiple of `sample` is at least `sample`. */
  lemma AtLeastSample(d: int, sample: int)
    requires d > 0 && sample > 0
    ensures d * sample >= sample
  {
  }

  /** Powers of two are positive. */
  lemma PowerOfTwoPositive(n: int)
    requires IsPowerOfTwo(n)
    ensures n > 0
  {
  }

  /** Twice a power of two is a power of two. */
  lemma DoubledIsPowerOfTwo(s: int)
    requires IsPowerOfTwo(s)
    ensures IsPowerOfTwo(2 * s)
  {
    assert (2 * s) / 2 == s;
  }

  /**
   * The sample-size loop on unbounded integers: starting from 1, `sample`
   * doubles while either bound exceeds the display's bound times `sample`.
   * It ends, with the smallest power of two by which the image fits the display.
   */
  method SampleSize(w: int, h: int, displayW: int, displayH: int) returns (sample: int)
    requires displayW > 0 && displayH > 0
    ensures IsPowerOfTwo(sample)
    ensures Fits(w, h, displayW, displayH, sample)
    ensures forall p :: IsPowerOfTwo(p) && p < sample ==> !Fits(w, h, displayW, displayH, p)
  {
    sample := 1;
    while w > displayW * sample || h > displayH * sample
      invariant IsPowerOfTwo(sample)
      invariant forall p :: IsPowerOfTwo(p) && p < sample ==> !Fits(w, h, displayW, displayH, p)
      decreases (if w < h then h else w) - sample
    {
      PowerOfTwoPositive(sample);
      AtLeastSample(displayW, sample);
      AtLeastSample(displayH, sample);
      forall p | IsPowerOfTwo(p) && p < 2 * sample
        ensures !Fits(w, h, displayW, displayH, p)
      {
        PowerBelowDouble(p, sample);
      }
      DoubledIsPowerOfTwo(sample);
      sample := sample * 2;
    }
  }

  // ---------------------------------------------------------------------------
  // The loop as written, on 32-bit ints

  /** Wrapping an even number to 32 bits keeps it even. */
  lemma WrapKeepsEven(x: int)
    requires x % 2 == 0
    ensures Wrap32(x) % 2 == 0
  {
    var r := Wrap32(x);
    var q := (x - r) / 0x1_0000_0000;
    assert x - r == q * 0x1_0000_0000;
    assert r == x - 2 * (q * 0x8000_0000);
  }

  /** The loop guard as written: `displayW * sample` and `displayH * sample` overflow silently. */
  predicate GuardAsWritten(w: int, h: int, displayW: int, displayH: int, sample: int)
  {
    w > Wrap32(displayW * sample) || h > Wrap32(displayH * sample)
  }

  /**
   * An image whose bounds report a width of Integer.MAX_VALUE, on a display
   * of even width: `displayW * sample` wraps to an even int, which is never
   * Integer.MAX_VALUE, so the guard holds for every value `sample` can take
   * and the loop as written never ends.
   */
  lemma SampleLoopHangsAsWritten(h: int, displayW: int, displayH: int, sample: int)
    requires displayW > 0 && displayW % 2 == 0
    ensures GuardAsWritten(0x7FFF_FFFF, h, displayW, displayH, sample)
  {
    var half := displayW / 2;
    assert displayW * sample == 2 * (half * sample);
    WrapKeepsEven(displayW * sample);
  }
}
