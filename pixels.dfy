/**
 * Packed ARGB pixels, the colour components a transform can select, and the
 * four per-pixel channel operators of PixelFudger (the STRATEGY enum).
 *
 * A pixel is a 32-bit word; Java keeps it in a signed `int`, but the
 * operators only act on the pixel word with `&`, `|`, `^`, `~`, `<<` and
 * `>>` followed by `& 255`, which give the same bits on an unsigned `bv32`.
 * The arithmetic of DISCARD_CHANNEL_AND_ALPHA and LEVEL's comparison work
 * on the extracted bytes, as non-negative integers.
 */
module Pixels {
  import opened Arith

  /** Alpha, red, green and blue bytes at bit offsets 24, 16, 8 and 0. */
  type Pixel = bv32

  /** COLOR_COMPONENT: the colour byte a transform acts on. */
  datatype Component = Red | Green | Blue

  /** COLOR_COMPONENT.getShift: the bit offset of the component's byte. */
  function Shift(c: Component): bv32
  {
    match c
    case Red => 16
    case Green => 8
    case Blue => 0
  }

  /** `(pixel >> shift) & 255`: the byte at bit offset `shift`. */
  function ByteAt(p: Pixel, shift: bv32): bv8
    requires shift <= 24
  {
    ((p >> shift) & 0xFF) as bv8
  }

  function Alpha(p: Pixel): bv8
  {
    ByteAt(p, 24)
  }

  /** The byte of component `c`, `(pixel >> getShift()) & 255`, unfolded per component. */
  function Channel(p: Pixel, c: Component): bv8
  {
    match c
    case Red => ByteAt(p, 16)
    case Green => ByteAt(p, 8)
    case Blue => ByteAt(p, 0)
  }

  /** `255 << getShift()`: the bits of component `c`, as a constant per component. */
  function ChannelMask(c: Component): Pixel
  {
    match c
    case Red => 0x00FF_0000
    case Green => 0x0000_FF00
    case Blue => 0x0000_00FF
  }

  /** The bits of the alpha byte. */
  const AlphaMask: Pixel := 0xFF00_0000

  /** Channel and ChannelMask are the source's shift expressions for the component's shift. */
  lemma ChannelIsShifted(p: Pixel, c: Component)
    ensures Channel(p, c) == ByteAt(p, Shift(c))
    ensures ChannelMask(c) == 0xFF << Shift(c)
    ensures AlphaMask == 0xFF << 24
  {
    match c
    case Red =>
    case Green =>
    case Blue =>
  }

  /** `p` and `q` agree on every bit outside the mask `m`. */
  predicate SameOutside(p: Pixel, q: Pixel, m: Pixel)
  {
    p & !m == q & !m
  }

  /** Color.argb: `(alpha << 24) | (red << 16) | (green << 8) | blue`. */
  function Argb(a: bv8, r: bv8, g: bv8, b: bv8): Pixel
  {
    (a as bv32 << 24) | (r as bv32 << 16) | (g as bv32 << 8) | b as bv32
  }

  /** Unpacking what Color.argb packed gives back the four bytes ... */
  lemma ArgbUnpacks(a: bv8, r: bv8, g: bv8, b: bv8)
    ensures Alpha(Argb(a, r, g, b)) == a
    ensures Channel(Argb(a, r, g, b), Red) == r
    ensures Channel(Argb(a, r, g, b), Green) == g
    ensures Channel(Argb(a, r, g, b), Blue) == b
  {
  }

  /** ... and packing the four bytes of a pixel gives back the pixel. */
  lemma ArgbPacks(p: Pixel)
    ensures Argb(Alpha(p), Channel(p, Red), Channel(p, Green), Channel(p, Blue)) == p
  {
  }

  // ---------------------------------------------------------------------------
  // Bit facts about one mask, each kept to a single small proof obligation

  lemma ClearedChannel(p: Pixel, c: Component)
    ensures Channel(p & !ChannelMask(c), c) == 0
  {
  }

  lemma SetChannel(p: Pixel, c: Component)
    ensures Channel(p | ChannelMask(c), c) == 255
  {
  }

  lemma FlippedChannel(p: Pixel, c: Component)
    ensures Channel(p ^ ChannelMask(c), c) == 255 - Channel(p, c)
  {
  }

  lemma ClearKeepsOutside(p: Pixel, m: Pixel)
    ensures SameOutside(p, p & !m, m)
    ensures (p & !m) & !m == p & !m
  {
  }

  lemma SetKeepsOutside(p: Pixel, m: Pixel)
    ensures SameOutside(p, p | m, m)
    ensures (p | m) | m == p | m
  {
  }

  lemma FlipKeepsOutside(p: Pixel, m: Pixel)
    ensures SameOutside(p, p ^ m, m)
    ensures (p ^ m) ^ m == p
  {
  }

  lemma AlphaOutsideChannel(p: Pixel, c: Component)
    ensures Alpha(p & !ChannelMask(c)) == Alpha(p)
  {
  }

  /** Agreeing outside `m` implies agreeing outside any larger mask `m | k`. */
  lemma SameOutsideWiden(p: Pixel, q: Pixel, m: Pixel, k: Pixel)
    requires SameOutside(p, q, m)
    ensures SameOutside(p, q, m | k)
  {
  }

  /** Outside the alpha byte, a packing does not depend on its alpha. */
  lemma ArgbOutsideAlpha(a: bv8, r: bv8, g: bv8, b: bv8)
    ensures Argb(a, r, g, b) & !AlphaMask == Argb(0, r, g, b)
  {
  }

  /** A pixel is determined by its byte of `c` and its bits outside that byte. */
  lemma DeterminedByChannel(p: Pixel, q: Pixel, c: Component)
    requires SameOutside(p, q, ChannelMask(c)) && Channel(p, c) == Channel(q, c)
    ensures p == q
  {
  }

  // ---------------------------------------------------------------------------
  // The strategies

  /** STRATEGY: the four operators a user can pick. */
  datatype Strategy = DiscardChannel | DiscardChannelAndAlpha | Level | Invert

  /** STRATEGY.operate(pixel, shift) with `shift = getShift()` of `c`. */
  function Operate(st: Strategy, p: Pixel, c: Component): Pixel
  {
    match st
    case DiscardChannel => Discard(p, c)
    case DiscardChannelAndAlpha => DiscardWithAlpha(p, c)
    case Level => LevelChannel(p, c)
    case Invert => InvertChannel(p, c)
  }

  /** DISCARD_CHANNEL: `pixel & ~(255 << shift)`. */
  function Discard(p: Pixel, c: Component): Pixel
  {
    p & !ChannelMask(c)
  }

  /** DISCARD_CHANNEL zeroes the selected byte, leaves every other bit alone, and is idempotent. */
  lemma DiscardSpec(p: Pixel, c: Component)
    ensures Channel(Discard(p, c), c) == 0
    ensures SameOutside(p, Discard(p, c), ChannelMask(c))
    ensures Discard(Discard(p, c), c) == Discard(p, c)
  {
    ClearedChannel(p, c);
    ClearKeepsOutside(p, ChannelMask(c));
  }

  /** INVERT: `pixel ^ (255 << shift)`. */
  function InvertChannel(p: Pixel, c: Component): Pixel
  {
    p ^ ChannelMask(c)
  }

  /** INVERT maps the selected byte v to 255 - v, leaves every other bit alone, and is an involution. */
  lemma InvertSpec(p: Pixel, c: Component)
    ensures Channel(InvertChannel(p, c), c) == 255 - Channel(p, c)
    ensures SameOutside(p, InvertChannel(p, c), ChannelMask(c))
    ensures InvertChannel(InvertChannel(p, c), c) == p
  {
    FlippedChannel(p, c);
    FlipKeepsOutside(p, ChannelMask(c));
  }

  /** LEVEL: clear the selected byte when it is below 127, fill it with ones otherwise. */
  function LevelChannel(p: Pixel, c: Component): Pixel
  {
    if Channel(p, c) < 127 then p & !ChannelMask(c) else p | ChannelMask(c)
  }

  lemma LevelLow(p: Pixel, c: Component)
    requires Channel(p, c) < 127
    ensures LevelChannel(p, c) == p & !ChannelMask(c)
  {
  }

  lemma LevelHigh(p: Pixel, c: Component)
    requires Channel(p, c) >= 127
    ensures LevelChannel(p, c) == p | ChannelMask(c)
  {
  }

  /** LEVEL thresholds the selected byte at 127: 0 below it, 255 from it on. */
  lemma LevelValue(p: Pixel, c: Component)
    ensures Channel(LevelChannel(p, c), c) == if Channel(p, c) < 127 then 0 else 255
  {
    if Channel(p, c) < 127 {
      LevelLow(p, c);
      ClearedChannel(p, c);
    } else {
      LevelHigh(p, c);
      SetChannel(p, c);
    }
  }

  /** LEVEL leaves every bit outside the selected byte alone. */
  lemma LevelOutside(p: Pixel, c: Component)
    ensures SameOutside(p, LevelChannel(p, c), ChannelMask(c))
  {
    if Channel(p, c) < 127 {
      LevelLow(p, c);
      ClearKeepsOutside(p, ChannelMask(c));
    } else {
      LevelHigh(p, c);
      SetKeepsOutside(p, ChannelMask(c));
    }
  }

  /** LEVEL thresholds the selected byte at 127 and leaves every other bit alone. */
  lemma LevelSpec(p: Pixel, c: Component)
    ensures Channel(LevelChannel(p, c), c) == if Channel(p, c) < 127 then 0 else 255
    ensures SameOutside(p, LevelChannel(p, c), ChannelMask(c))
  {
    LevelValue(p, c);
    LevelOutside(p, c);
  }

  /** A levelled byte is 0 or 255, which LEVEL maps to itself. */
  lemma LevelIdempotent(p: Pixel, c: Component)
    ensures LevelChannel(LevelChannel(p, c), c) == LevelChannel(p, c)
  {
    var q := LevelChannel(p, c);
    LevelValue(p, c);
    LevelValue(q, c);
    LevelOutside(q, c);
    DeterminedByChannel(q, LevelChannel(q, c), c);
  }

  /** The selected byte is one of r, g, b, so it never exceeds r + g + b. */
  lemma ChannelAtMostSum(p: Pixel, c: Component)
    ensures Channel(p, c) as nat <= ColourSum(p)
  {
    match c
    case Red =>
    case Green =>
    case Blue =>
  }

  /** `r + g + b` of a pixel. */
  function ColourSum(p: Pixel): nat
  {
    Channel(p, Red) as nat + Channel(p, Green) as nat + Channel(p, Blue) as nat
  }

  /**
   * The alpha DISCARD_CHANNEL_AND_ALPHA keeps: 0 when the selected channel `s`
   * is the whole of `sum = r + g + b`, otherwise `a - (a * s) / sum`.
   */
  function ScaledAlpha(a: nat, s: nat, sum: nat): (alpha: nat)
    requires s <= sum
    ensures alpha <= a
    ensures sum == s ==> alpha == 0
  {
    if sum == s then 0 else
      QuotientAtMost(a, s, sum);
      a - (a * s) / sum
  }

  /**
   * The kept alpha is `a` scaled by the share `(sum - s) / sum` of the two
   * colours that remain, rounded up.
   */
  lemma ScaledAlphaIsShare(a: nat, s: nat, sum: nat)
    requires 0 < sum && s <= sum
    ensures a * (sum - s) <= ScaledAlpha(a, s, sum) * sum < a * (sum - s) + sum
  {
    if sum == s {
      assert a * (sum - s) == 0;
    } else {
      ScaledAlphaBounds(a, s, sum);
    }
  }

  /** `a * s <= a * sum`, so the quotient `(a * s) / sum` never exceeds `a`. */
  lemma QuotientAtMost(a: nat, s: nat, sum: nat)
    requires 0 < sum && s <= sum
    ensures (a * s) / sum <= a
  {
    var q := (a * s) / sum;
    assert a * s == q * sum + (a * s) % sum;
    MulMono(a, s, sum);
    if q > a {
      MulMono(sum, a + 1, q);
      MulSub(sum, a + 1, 1);
    }
  }

  lemma ScaledAlphaBounds(a: nat, s: nat, sum: nat)
    requires 0 < sum && s <= sum
    ensures (a - (a * s) / sum) * sum >= a * (sum - s)
    ensures (a - (a * s) / sum) * sum < a * (sum - s) + sum
  {
    var q := (a * s) / sum;
    var m := (a * s) % sum;
    assert a * s == q * sum + m && 0 <= m < sum;
    QuotientAtMost(a, s, sum);
    MulSub(sum, a, q);
    MulSub(a, sum, s);
    assert a * (sum - s) == (sum - s) * a == sum * a - s * a;
    assert (a - q) * sum == a * (sum - s) + m;
  }

  /** DISCARD_CHANNEL_AND_ALPHA: rescale alpha, repack with Color.argb, then clear the selected byte. */
  function DiscardWithAlpha(p: Pixel, c: Component): Pixel
  {
    Argb(ByteOf(KeptAlpha(p, c)), Channel(p, Red), Channel(p, Green), Channel(p, Blue)) & !ChannelMask(c)
  }

  /** The new alpha of DISCARD_CHANNEL_AND_ALPHA, computed from the pixel's bytes as Java ints. */
  function KeptAlpha(p: Pixel, c: Component): (alpha: nat)
    ensures alpha <= Alpha(p) as nat
  {
    ChannelAtMostSum(p, c);
    ScaledAlpha(Alpha(p) as nat, Channel(p, c) as nat, ColourSum(p))
  }

  /**
   * A small int as the byte Color.argb shifts into place; the value of
   * `n as bv8`, written as a recursion so that the proof obligations about
   * the packed pixel stay small bit-vector facts.
   */
  function ByteOf(n: nat): bv8
    requires n < 256
  {
    if n == 0 then 0 else ByteOf(n - 1) + 1
  }

  lemma {:induction false} ByteOfValue(n: nat)
    requires n < 256
    ensures ByteOf(n) as nat == n
  {
    if n > 0 {
      ByteOfValue(n - 1);
      ByteSucc(ByteOf(n - 1));
    }
  }

  lemma ByteSucc(x: bv8)
    requires x as nat < 255
    ensures (x + 1) as nat == x as nat + 1
  {
  }

  /**
   * The division in DISCARD_CHANNEL_AND_ALPHA is never by zero: `r + g + b = 0`
   * forces the selected byte to be 0 as well, which takes the `sum == s` branch.
   */
  lemma DiscardWithAlphaNeverDividesByZero(p: Pixel, c: Component)
    ensures ColourSum(p) == 0 ==> ColourSum(p) == Channel(p, c) as nat
    ensures ColourSum(p) != Channel(p, c) as nat ==> ColourSum(p) > 0
  {
    ChannelAtMostSum(p, c);
  }

  /** DISCARD_CHANNEL_AND_ALPHA clears the selected byte ... */
  lemma DiscardWithAlphaClears(p: Pixel, c: Component)
    ensures Channel(DiscardWithAlpha(p, c), c) == 0
  {
    var packed := Argb(ByteOf(KeptAlpha(p, c)), Channel(p, Red), Channel(p, Green), Channel(p, Blue));
    ClearedChannel(packed, c);
  }

  /** ... and writes KeptAlpha as the new alpha. */
  lemma DiscardWithAlphaAlpha(p: Pixel, c: Component)
    ensures Alpha(DiscardWithAlpha(p, c)) as nat == KeptAlpha(p, c)
  {
    var alpha := ByteOf(KeptAlpha(p, c));
    var packed := Argb(alpha, Channel(p, Red), Channel(p, Green), Channel(p, Blue));
    AlphaOutsideChannel(packed, c);
    ArgbUnpacks(alpha, Channel(p, Red), Channel(p, Green), Channel(p, Blue));
    ByteOfValue(KeptAlpha(p, c));
  }

  /** Repacking a pixel's colour bytes under another alpha changes nothing outside alpha. */
  lemma RepackOutsideAlpha(p: Pixel, a: bv8)
    ensures SameOutside(p, Argb(a, Channel(p, Red), Channel(p, Green), Channel(p, Blue)), AlphaMask)
  {
    var r, g, b := Channel(p, Red), Channel(p, Green), Channel(p, Blue);
    ArgbPacks(p);
    ArgbOutsideAlpha(Alpha(p), r, g, b);
    ArgbOutsideAlpha(a, r, g, b);
  }

  /** Agreeing outside `k`, then clearing `m`, agrees outside `m | k`. */
  lemma ClearAfterSameOutside(p: Pixel, u: Pixel, m: Pixel, k: Pixel)
    requires SameOutside(p, u, k)
    ensures SameOutside(p, u & !m, m | k)
  {
  }

  /** DISCARD_CHANNEL_AND_ALPHA changes no bit outside alpha and the selected byte. */
  lemma DiscardWithAlphaOutside(p: Pixel, c: Component)
    ensures SameOutside(p, DiscardWithAlpha(p, c), ChannelMask(c) | AlphaMask)
  {
    var packed := Argb(ByteOf(KeptAlpha(p, c)), Channel(p, Red), Channel(p, Green), Channel(p, Blue));
    RepackOutsideAlpha(p, ByteOf(KeptAlpha(p, c)));
    ClearAfterSameOutside(p, packed, ChannelMask(c), AlphaMask);
  }

  /**
   * DISCARD_CHANNEL_AND_ALPHA clears the selected byte, keeps the other two
   * colour bytes, and lowers alpha to the share of the other two colours in
   * `r + g + b` (rounded up); alpha drops to 0 when the other two are 0.
   */
  lemma DiscardWithAlphaSpec(p: Pixel, c: Component)
    ensures Channel(DiscardWithAlpha(p, c), c) == 0
    ensures SameOutside(p, DiscardWithAlpha(p, c), ChannelMask(c) | AlphaMask)
    ensures Alpha(DiscardWithAlpha(p, c)) as nat <= Alpha(p) as nat
    ensures ColourSum(p) == Channel(p, c) as nat ==> Alpha(DiscardWithAlpha(p, c)) == 0
    ensures var a, a', sum, rest := Alpha(p) as nat, Alpha(DiscardWithAlpha(p, c)) as nat, ColourSum(p), ColourSum(p) - Channel(p, c) as nat;
      sum > 0 ==> a * rest <= a' * sum < a * rest + sum
  {
    DiscardWithAlphaClears(p, c);
    DiscardWithAlphaAlpha(p, c);
    DiscardWithAlphaOutside(p, c);
    ChannelAtMostSum(p, c);
    if ColourSum(p) > 0 {
      ScaledAlphaIsShare(Alpha(p) as nat, Channel(p, c) as nat, ColourSum(p));
    }
  }

  /** DISCARD_CHANNEL, LEVEL and INVERT change no bit outside the selected byte. */
  lemma OperateKeepsOutsideChannel(st: Strategy, p: Pixel, c: Component)
    requires st != DiscardChannelAndAlpha
    ensures SameOutside(p, Operate(st, p, c), ChannelMask(c))
  {
    match st
    case DiscardChannel =>
      DiscardSpec(p, c);
    case Level =>
      LevelOutside(p, c);
    case Invert =>
      InvertSpec(p, c);
  }

  /**
   * Every operator confines its change to the selected byte, except
   * DISCARD_CHANNEL_AND_ALPHA, which may also change alpha.
   */
  lemma OperateTouchesOnlySelected(st: Strategy, p: Pixel, c: Component)
    ensures SameOutside(p, Operate(st, p, c), ChannelMask(c) | AlphaMask)
  {
    if st == DiscardChannelAndAlpha {
      DiscardWithAlphaOutside(p, c);
    } else {
      OperateKeepsOutsideChannel(st, p, c);
      SameOutsideWiden(p, Operate(st, p, c), ChannelMask(c), AlphaMask);
    }
  }

  /** The end-to-end example: INVERT on RED of 0xFFFF0000 and 0xFFFFFFFF. */
  lemma InvertRedExample()
    ensures InvertChannel(0xFFFF0000, Red) == 0xFF000000
    ensures InvertChannel(0xFFFFFFFF, Red) == 0xFF00FFFF
  {
  }
}
