/** The hue-sector table at the heart of `hsl_to_rgb` (src/lib.rs).

    The chroma `c`, the intermediate value `x` and the zero channel are
    floating-point numbers in the source; here they are opaque values of any
    type, because the table only decides which of them goes to which
    channel. The sector index is the saturating `as u8` cast of `h * 6`. */
module Sector {
  import opened Words

  datatype Rgb<T> = Rgb(r: T, g: T, b: T)

  /** The channel at position 0 (red), 1 (green) or 2 (blue). */
  function Channel<T>(rgb: Rgb<T>, i: nat): T
    requires i < 3
  {
    if i == 0 then rgb.r else if i == 1 then rgb.g else rgb.b
  }

  /** The source's `match` on the sector index. */
  function SectorTable<T>(sector: u8, c: T, x: T, zero: T): (rgb: Rgb<T>)
    ensures multiset{rgb.r, rgb.g, rgb.b} == multiset{c, x, zero}
  {
    match sector
    case 0 | 6 => Rgb(c, x, zero)
    case 1 => Rgb(x, c, zero)
    case 2 => Rgb(zero, c, x)
    case 3 => Rgb(zero, x, c)
    case 4 => Rgb(x, zero, c)
    case _ => Rgb(c, zero, x)
  }

  /** The sixth of the hue wheel an index stands for: 6 is the wrap-around
      back to the first sixth, and every other index past 4 is the last. */
  function WheelSixth(sector: u8): (w: nat)
    ensures w < 6
  {
    if sector == 6 then 0 else if sector >= 5 then 5 else sector
  }

  /** On the hue wheel, red dominates around sixths 5 and 0, green around
      1 and 2, blue around 3 and 4. */
  function DominantChannel(w: nat): (i: nat)
    requires w < 6
    ensures i < 3
  {
    if w == 0 || w == 5 then 0 else if w <= 2 then 1 else 2
  }

  /** The channel opposite the hue, which is switched off. */
  function DarkChannel(w: nat): (i: nat)
    requires w < 6
    ensures i < 3
  {
    if w <= 1 then 2 else if w <= 3 then 0 else 1
  }

  /** The table agrees with the textbook HSL conversion: the dominant
      channel of the sixth gets the chroma, the opposite channel gets zero
      and the remaining one gets the intermediate value. */
  lemma SectorTableIsHueWheel<T>(sector: u8, c: T, x: T, zero: T)
    ensures var rgb := SectorTable(sector, c, x, zero);
            var w := WheelSixth(sector);
            var hi, lo := DominantChannel(w), DarkChannel(w);
            && hi != lo
            && Channel(rgb, hi) == c
            && Channel(rgb, lo) == zero
            && Channel(rgb, 3 - hi - lo) == x
  {
    if sector == 0 {
    } else if sector == 1 {
    } else if sector == 2 {
    } else if sector == 3 {
    } else if sector == 4 {
    } else if sector == 6 {
    } else {
      assert WheelSixth(sector) == 5;
    }
  }

  /** Index 6 shares the arm of index 0, and every index from 5 on other
      than 6 takes the default arm. */
  lemma SectorWrapAround<T>(sector: u8, c: T, x: T, zero: T)
    ensures SectorTable(6, c, x, zero) == SectorTable(0, c, x, zero)
    ensures sector >= 5 && sector != 6 ==> SectorTable(sector, c, x, zero) == Rgb(c, zero, x)
  {
  }
}
