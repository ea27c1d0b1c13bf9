/**
 * A span of time in one of three units, compared by its length in
 * milliseconds.
 */
module Durations {
  import opened Bytes

  datatype Duration =
    | MilliSeconds(ms: u64)
    | Seconds(secs: u32)
    | Minutes(mins: u16)

  /** `Duration::millis`: the length in milliseconds; no unit's largest value overflows a `u64`. */
  function Millis(d: Duration): (r: u64)
    ensures d.MilliSeconds? ==> r == d.ms
    ensures d.Seconds? ==> r == d.secs * 1000 && r % 1000 == 0
    ensures d.Minutes? ==> r == d.mins * 60000 && r % 60000 == 0
  {
    match d
    case MilliSeconds(n) => n
    case Seconds(s) => s * 1000
    case Minutes(m) => m * 60 * 1000
  }

  /** `PartialEq for Duration`: the same number of milliseconds. */
  predicate Equal(a: Duration, b: Duration)
  {
    Millis(a) == Millis(b)
  }

  /** Equality of durations is an equivalence relation. */
  lemma EqualIsEquivalence(a: Duration, b: Duration, c: Duration)
    ensures Equal(a, a)
    ensures Equal(a, b) ==> Equal(b, a)
    ensures Equal(a, b) && Equal(b, c) ==> Equal(a, c)
  {
  }

  /** Two durations in the same unit are equal exactly when they are identical. */
  lemma EqualSameUnit(a: Duration, b: Duration)
    requires a.MilliSeconds? == b.MilliSeconds? && a.Seconds? == b.Seconds?
    ensures Equal(a, b) <==> a == b
  {
  }

  /** Every whole number of minutes equals that many times sixty seconds. */
  lemma MinutesAsSeconds(m: u16)
    ensures m * 60 < 0x1_0000_0000
    ensures Equal(Minutes(m), Seconds(m * 60))
  {
  }

  /** The pairs the program compares are equal. */
  lemma EqualExamples()
    ensures Equal(Seconds(120), Minutes(2))
    ensures Equal(Seconds(420), Minutes(7))
    ensures Equal(MilliSeconds(420000), Minutes(7))
    ensures Equal(MilliSeconds(43000), Seconds(43))
    ensures !Equal(Seconds(1), Minutes(1))
  {
  }
}
