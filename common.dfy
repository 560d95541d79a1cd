/** Shared vocabulary of the model: optional values, the outcome of a call
    that may panic, exact decimals, timestamps and the ASCII helpers the
    string codecs rely on. */
module Common {

  datatype Option<+T> = None | Some(value: T)

  /** The result of a `TryFrom<String>` conversion: the value or the error text. */
  datatype Result<+T> = Ok(value: T) | Err(error: string)

  /** What a call that can panic (an `unwrap`, an `expect`, a division by zero,
      an unsupported `match` arm) does: return a value or abort. */
  datatype Outcome<+T> = Returns(value: T) | Panics

  /** rust_decimal values; the model computes with exact rationals. */
  type Decimal = real

  /** `Decimal::MAX` and `Decimal::MIN`: plus and minus (2^96 - 1). */
  const DECIMAL_MAX: Decimal := 79228162514264337593543950335.0
  const DECIMAL_MIN: Decimal := -79228162514264337593543950335.0

  predicate InDecimalRange(x: Decimal) {
    DECIMAL_MIN <= x <= DECIMAL_MAX
  }

  function Max(a: Decimal, b: Decimal): Decimal { if a >= b then a else b }
  function Min(a: Decimal, b: Decimal): Decimal { if a <= b then a else b }
  function Abs(a: Decimal): Decimal { if a < 0.0 then -a else a }

  /** A `DateTime<Utc>` is a count of microseconds since 1970-01-01T00:00:00Z,
      and a chrono `Duration` a count of microseconds. */
  type Instant = int

  const MICROS_PER_SECOND: int := 1_000_000
  const MICROS_PER_MINUTE: int := 60_000_000
  const MICROS_PER_HOUR: int := 3_600_000_000
  const MICROS_PER_DAY: int := 86_400_000_000

  function Seconds(n: int): int { n * 1_000_000 }
  function Minutes(n: int): int { n * 60_000_000 }
  function Hours(n: int): int { n * 3_600_000_000 }
  function Days(n: int): int { n * 86_400_000_000 }
  function Weeks(n: int): int { n * 604_800_000_000 }

  /** The latest multiple of `d` that is not after `t`: chrono's
      `duration_trunc` for an instant at least `d` after the epoch (for an
      earlier one chrono returns an error instead). */
  function Trunc(t: Instant, d: int): (r: Instant)
    requires d > 0
    ensures r <= t < r + d
    ensures r % d == 0
  {
    MultipleHasNoRemainder(t / d, d);
    (t / d) * d
  }

  /** A multiple of `d` leaves no remainder. */
  lemma MultipleHasNoRemainder(k: int, d: int)
    requires d > 0
    ensures (k * d) % d == 0
  {
    DivUnique(k * d, d, k);
  }

  lemma {:induction false} MulLess(a: int, b: int, d: int)
    requires d > 0 && a < b
    ensures a * d + d <= b * d
    decreases b - a
  {
    if a + 1 < b {
      MulLess(a + 1, b, d);
    }
  }

  /** Euclidean division is pinned down by its remainder bounds. */
  lemma DivUnique(x: int, d: int, q: int)
    requires d > 0
    requires q * d <= x < q * d + d
    ensures x / d == q
  {
    var p := x / d;
    if p < q {
      MulLess(p, q, d);
    } else if p > q {
      MulLess(q, p, d);
    }
  }

  /** A multiple of `d` is its own truncation. */
  lemma TruncOfMultiple(k: int, d: int)
    requires d > 0
    ensures Trunc(k * d, d) == k * d
  {
    DivUnique(k * d, d, k);
  }

  /** Truncation never reorders two instants. */
  lemma TruncMonotone(a: Instant, b: Instant, d: int)
    requires d > 0 && a <= b
    ensures Trunc(a, d) <= Trunc(b, d)
  {
    var p, q := a / d, b / d;
    if p > q {
      MulLess(q, p, d);
    }
  }

  lemma DivMonotone(a: int, b: int, d: int)
    requires d > 0 && a <= b
    ensures a / d <= b / d
  {
    var p, q := a / d, b / d;
    if p > q {
      MulLess(q, p, d);
    }
  }

  /** Ceiling division for a positive divisor. */
  function CeilDiv(n: int, d: int): int
    requires d > 0
  {
    (n + d - 1) / d
  }

  lemma CeilDivUnique(n: int, d: int, k: int)
    requires d > 0
    requires (k - 1) * d < n <= k * d
    ensures CeilDiv(n, d) == k
  {
    DivUnique(n + d - 1, d, k);
  }

  function Pow10(n: nat): (r: nat)
    ensures r >= 1
  {
    if n == 0 then 1 else 10 * Pow10(n - 1)
  }

  predicate StrictlyIncreasing(s: seq<int>) {
    forall i, j :: 0 <= i < j < |s| ==> s[i] < s[j]
  }

  lemma IncreasingCons(x: int, s: seq<int>)
    requires StrictlyIncreasing(s)
    requires forall i :: 0 <= i < |s| ==> x < s[i]
    ensures StrictlyIncreasing([x] + s)
  {
    var r := [x] + s;
    forall i, j | 0 <= i < j < |r|
      ensures r[i] < r[j]
    {
      assert r[j] == s[j - 1];
      if i > 0 {
        assert r[i] == s[i - 1];
      }
    }
  }

  /** Rust's `to_lowercase`, restricted to ASCII letters. */
  function ToLowerChar(c: char): (r: char)
    ensures 'A' <= c <= 'Z' ==> 'a' <= r <= 'z'
    ensures !('A' <= c <= 'Z') ==> r == c
  {
    if 'A' <= c <= 'Z' then (c as int - 'A' as int + 'a' as int) as char else c
  }

  function ToLower(s: string): (r: string)
    ensures |r| == |s|
  {
    if s == [] then [] else [ToLowerChar(s[0])] + ToLower(s[1..])
  }

  /** Lower-casing works character by character. */
  lemma {:induction false} ToLowerAt(s: string)
    ensures forall i :: 0 <= i < |s| ==> ToLower(s)[i] == ToLowerChar(s[i])
    decreases |s|
  {
    if s != [] {
      ToLowerAt(s[1..]);
    }
  }

  function ToUpperChar(c: char): char {
    if 'a' <= c <= 'z' then (c as int - 'a' as int + 'A' as int) as char else c
  }

  function ToUpper(s: string): (r: string)
    ensures |r| == |s|
  {
    if s == [] then [] else [ToUpperChar(s[0])] + ToUpper(s[1..])
  }

  lemma {:induction false} ToUpperAt(s: string)
    ensures forall i :: 0 <= i < |s| ==> ToUpper(s)[i] == ToUpperChar(s[i])
    decreases |s|
  {
    if s != [] {
      ToUpperAt(s[1..]);
    }
  }

  predicate NoUpper(s: string) {
    forall i :: 0 <= i < |s| ==> !('A' <= s[i] <= 'Z')
  }

  lemma LowerOfLower(s: string)
    requires NoUpper(s)
    ensures ToLower(s) == s
  {
    ToLowerAt(s);
  }

  lemma LowerIdempotent(s: string)
    ensures NoUpper(ToLower(s))
    ensures ToLower(ToLower(s)) == ToLower(s)
  {
    ToLowerAt(s);
    ToLowerAt(ToLower(s));
  }

  /** Lower-casing undoes upper-casing. */
  lemma LowerOfUpper(s: string)
    ensures ToLower(ToUpper(s)) == ToLower(s)
  {
    ToLowerAt(s);
    ToUpperAt(s);
    ToLowerAt(ToUpper(s));
  }

  /** `i64::to_string`: the decimal digits of an integer. */
  function DigitChar(d: nat): char
    requires d < 10
  {
    "0123456789"[d]
  }

  function NatToString(n: nat): (r: string)
    ensures |r| >= 1
    decreases n
  {
    if n < 10 then [DigitChar(n)] else NatToString(n / 10) + [DigitChar(n % 10)]
  }

  function IntToString(i: int): string {
    if i < 0 then "-" + NatToString(-i) else NatToString(i)
  }
}
