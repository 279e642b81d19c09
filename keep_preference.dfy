/**
 * KeepPreference.cs: the eight preferences that rank the photos of a group,
 * and Convert, which gives the sort key of each. Every key is modelled as an
 * integer: a DateTime by its ticks, a TimeSpan by its ticks, a long or an int
 * by its value; keys of one preference always have the same C# type, so
 * comparing them as integers is comparing them as IComparable.
 */
module KeepPreferences {
  import opened Wrappers
  import opened MappedImages

  /** The enum, as its underlying `int`: a cast can give it any 32-bit value. */
  newtype KeepPreference = x: int | -0x8000_0000 <= x < 0x8000_0000

  const Newest: KeepPreference := 0
  const Oldest: KeepPreference := 1
  const Largest: KeepPreference := 2
  const Smallest: KeepPreference := 3
  const HighestResolution: KeepPreference := 4
  const LowestResolution: KeepPreference := 5
  const GrayScale: KeepPreference := 6
  const Colorful: KeepPreference := 7

  /** One of the eight named values. */
  predicate Named(preference: KeepPreference)
  {
    Newest <= preference <= Colorful
  }

  datatype ConvertError = ArgumentOutOfRange(preference: KeepPreference)

  /** Convert: the key a preference sorts by; any other value is an ArgumentOutOfRangeException. */
  function Convert(preference: KeepPreference): (r: Result<Photo -> int, ConvertError>)
    ensures r.Success? <==> Named(preference)
    ensures r.Failure? ==> r.error == ArgumentOutOfRange(preference)
  {
    if preference == Newest then Success((t: Photo) => t.lastWriteTime)
    else if preference == Oldest then Success((t: Photo) => MaxTicks - t.lastWriteTime)
    else if preference == Largest then Success((t: Photo) => t.size)
    else if preference == Smallest then Success((t: Photo) => Int64Max - t.size)
    else if preference == HighestResolution then Success((t: Photo) => t.resolution)
    else if preference == LowestResolution then Success((t: Photo) => -1 * t.resolution)
    else if preference == GrayScale then Success((t: Photo) => if t.isGrayscale then 1 else 0)
    else if preference == Colorful then Success((t: Photo) => if t.isGrayscale then 0 else 1)
    else Failure(ArgumentOutOfRange(preference))
  }

  /** The key of `p` under a named preference. */
  function Key(preference: KeepPreference, p: Photo): int
    requires Named(preference)
  {
    Convert(preference).value(p)
  }

  /** Newest keys on the write time, Largest on the size, HighestResolution on the resolution. */
  lemma DirectKeys(p: Photo)
    ensures Key(Newest, p) == p.lastWriteTime
    ensures Key(Largest, p) == p.size
    ensures Key(HighestResolution, p) == p.resolution
  {
  }

  /**
   * Each opposite pair orders two photos in strictly opposite directions:
   * whichever of the two ranks higher under one ranks lower under the other.
   */
  lemma OppositeOrders(p: Photo, q: Photo)
    ensures Key(Newest, p) > Key(Newest, q) <==> Key(Oldest, p) < Key(Oldest, q)
    ensures Key(Largest, p) > Key(Largest, q) <==> Key(Smallest, p) < Key(Smallest, q)
    ensures Key(HighestResolution, p) > Key(HighestResolution, q)
            <==> Key(LowestResolution, p) < Key(LowestResolution, q)
    ensures Key(Newest, p) == Key(Newest, q) <==> Key(Oldest, p) == Key(Oldest, q)
    ensures Key(Largest, p) == Key(Largest, q) <==> Key(Smallest, p) == Key(Smallest, q)
    ensures Key(HighestResolution, p) == Key(HighestResolution, q)
            <==> Key(LowestResolution, p) == Key(LowestResolution, q)
  {
  }

  /** GrayScale keys 1 exactly on grayscale photos, and Colorful is its complement. */
  lemma GrayscaleKeys(p: Photo)
    ensures Key(GrayScale, p) == 1 <==> p.isGrayscale
    ensures Key(GrayScale, p) + Key(Colorful, p) == 1
    ensures 0 <= Key(GrayScale, p) <= 1
  {
  }

  /**
   * For a well-formed photo the subtractions and the negation stay within
   * their C# types: `DateTime.MaxValue - t` is a non-negative TimeSpan within
   * the DateTime range, `long.MaxValue - Size` a non-negative long, and
   * `-1 * Resolution` a long.
   */
  lemma KeysInRange(p: Photo)
    requires WellFormed(p)
    ensures 0 <= Key(Oldest, p) <= MaxTicks
    ensures 0 <= Key(Smallest, p) <= Int64Max
    ensures -Int64Max - 1 <= Key(LowestResolution, p) <= Int64Max
  {
  }
}
