/** Shared vocabulary: optional values, Go's fixed-width integers and the
    "15:04:05" clock text used in status strings. */
module Prelude {

  /** Go's nil-or-value results (`interface{}` or a pointer that may be nil). */
  datatype Option<+T> = None | Some(value: T)

  /** Go's `byte` (uint8). */
  newtype byte = x: int | 0 <= x < 0x100

  const TwoTo63: int := 0x8000_0000_0000_0000
  const TwoTo64: int := 0x1_0000_0000_0000_0000

  /** Go's 64-bit `int`. */
  newtype int64 = x: int | -0x8000_0000_0000_0000 <= x < 0x8000_0000_0000_0000

  /** Go's conversion `uint(v)` of a 64-bit `int`: the two's-complement bits read unsigned. */
  function ToUint(v: int64): (u: nat)
    ensures u < TwoTo64
    ensures v >= 0 ==> u == v as int
    ensures v < 0 ==> u == v as int + TwoTo64
  {
    v as int % TwoTo64
  }

  /** The result of a 64-bit `int` subtraction or addition whose exact value is `v`:
      the representative of `v` modulo 2^64 in the int64 range. */
  function WrapInt64(v: int): (w: int64)
    ensures (w as int - v) % TwoTo64 == 0
  {
    ((v + TwoTo63) % TwoTo64 - TwoTo63) as int64
  }

  /** A wrapped difference of two int64 values is zero exactly when they are equal. */
  lemma WrapDifferenceZero(a: int64, b: int64)
    ensures WrapInt64(a as int - b as int) == 0 <==> a == b
  {
  }

  lemma Associative<T>(a: seq<T>, b: seq<T>, c: seq<T>)
    ensures a + b + c == a + (b + c)
  {
  }

  const NanosPerSecond: int := 1_000_000_000
  const SecondsPerDay: int := 86_400

  /** The value of a decimal digit character. */
  function DigitValue(c: char): int {
    c as int - '0' as int
  }

  function Digit(n: nat): (c: char)
    requires n < 10
    ensures '0' <= c <= '9' && DigitValue(c) == n
  {
    (('0' as int) + n) as char
  }

  function TwoDigits(n: nat): (s: string)
    requires n < 100
    ensures |s| == 2 && '0' <= s[0] <= '9' && '0' <= s[1] <= '9'
    ensures TwoDigitsValue(s) == n
  {
    [Digit(n / 10), Digit(n % 10)]
  }

  /** The number a two-digit decimal text reads as. */
  function TwoDigitsValue(s: string): int
    requires |s| == 2
  {
    DigitValue(s[0]) * 10 + DigitValue(s[1])
  }

  /** Go's `t.Format("15:04:05")` for a time `t` in nanoseconds since the epoch,
      read in UTC: the hour, minute and second of the day, each two digits. */
  /** A second of the day splits into hour, minute and second. */
  lemma SplitSeconds(secs: int)
    requires 0 <= secs < SecondsPerDay
    ensures 0 <= secs / 3600 < 24 && 0 <= secs / 60 % 60 < 60 && 0 <= secs % 60 < 60
    ensures secs / 3600 * 3600 + secs / 60 % 60 * 60 + secs % 60 == secs
  {
    var minutes := secs / 60;
    assert secs == minutes * 60 + secs % 60;
    assert minutes == minutes / 60 * 60 + minutes % 60;
    assert secs == minutes / 60 * 3600 + minutes % 60 * 60 + secs % 60;
    assert minutes / 60 == secs / 3600;
  }

  /** Where the three fields sit in "hh:mm:ss". */
  lemma ClockLayout(h: string, m: string, x: string)
    requires |h| == 2 && |m| == 2 && |x| == 2
    ensures var s := h + ":" + m + ":" + x;
            |s| == 8 && s[2] == ':' && s[5] == ':' &&
            s[0..2] == h && s[3..5] == m && s[6..8] == x
  {
    var s := h + ":" + m + ":" + x;
    assert s[0..2] == h;
    assert s[3..5] == m;
    assert s[6..8] == x;
  }

  function ClockText(t: int): (s: string)
    ensures |s| == 8 && s[2] == ':' && s[5] == ':'
    ensures forall i :: 0 <= i < 8 && i != 2 && i != 5 ==> '0' <= s[i] <= '9'
    ensures var hour, minute, second := TwoDigitsValue(s[0..2]), TwoDigitsValue(s[3..5]), TwoDigitsValue(s[6..8]);
            0 <= hour < 24 && 0 <= minute < 60 && 0 <= second < 60 &&
            hour * 3600 + minute * 60 + second == (t / NanosPerSecond) % SecondsPerDay
  {
    var secs := (t / NanosPerSecond) % SecondsPerDay;
    SplitSeconds(secs);
    var hour, minute, second := TwoDigits(secs / 3600), TwoDigits(secs / 60 % 60), TwoDigits(secs % 60);
    ClockLayout(hour, minute, second);
    hour + ":" + minute + ":" + second
  }
}
