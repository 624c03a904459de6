/**
 * `format_size` from the bandwidth host: a byte count scaled down by 1024
 * at most three times and printed in decimal with its unit, and a reader
 * for such strings that recovers the scaled value and the unit.
 */
module FormatSize {
  import opened CInt

  datatype Option<T> = None | Some(value: T)

  /** The units `format_size` can print. */
  datatype Unit = B | KB | MB | GB

  /** The unit's text. */
  function UnitName(u: Unit): string {
    match u
    case B => "B"
    case KB => "KB"
    case MB => "MB"
    case GB => "GB"
  }

  /** Bytes per unit. */
  function Magnitude(u: Unit): nat {
    match u
    case B => 1
    case KB => 1024
    case MB => 1048576
    case GB => 1073741824
  }

  /**
   * The three scaling steps: each divides by 1024 if the value is still at
   * least 1024, moving to the next unit. The value is the byte count
   * floor-divided by the unit's size, and the unit is the largest whose
   * size the count reaches.
   */
  function Scale(size: nat): (r: (nat, Unit))
    ensures r.0 == size / Magnitude(r.1)
    ensures r.1 != GB ==> r.0 < 1024
    ensures r.1 == B || Magnitude(r.1) <= size
    ensures r.1 == GB || size < 1024 * Magnitude(r.1)
    ensures size < 1024 ==> r == (size, B)
  {
    var (s1, u1) := if size >= 1024 then (size / 1024, KB) else (size, B);
    var (s2, u2) := if s1 >= 1024 then (s1 / 1024, MB) else (s1, u1);
    if s2 >= 1024 then (s2 / 1024, GB) else (s2, u2)
  }

  /** Whether `c` is a decimal digit. */
  predicate IsDigit(c: char) {
    '0' <= c <= '9'
  }

  /** A non-empty run of decimal digits. */
  predicate AllDigits(s: string) {
    forall i :: 0 <= i < |s| ==> IsDigit(s[i])
  }

  /** The digit character for `d`. */
  function DigitChar(d: nat): (c: char)
    requires d < 10
    ensures IsDigit(c) && c as int - '0' as int == d
  {
    ('0' as int + d) as char
  }

  /** `std::to_string` on an unsigned value: its decimal digits, without leading zeros. */
  function Decimal(n: nat): (s: string)
    ensures |s| >= 1 && AllDigits(s)
    ensures |s| > 1 ==> s[0] != '0'
    decreases n
  {
    if n < 10 then [DigitChar(n)] else Decimal(n / 10) + [DigitChar(n % 10)]
  }

  /** The number a run of decimal digits spells. */
  function DigitsValue(s: string): nat
    requires AllDigits(s)
    decreases |s|
  {
    if |s| == 0 then 0 else DigitsValue(s[..|s| - 1]) * 10 + (s[|s| - 1] as int - '0' as int)
  }

  /** Reading the decimal form back gives the number. */
  lemma {:induction false} DecimalRoundTrip(n: nat)
    ensures DigitsValue(Decimal(n)) == n
    decreases n
  {
    if n >= 10 {
      DecimalRoundTrip(n / 10);
      var s := Decimal(n);
      assert s[..|s| - 1] == Decimal(n / 10);
    }
  }

  /**
   * `format_size` on a `uint64_t` byte count: the scaled value in decimal,
   * a space and the unit.
   */
  function FormatSize(size: nat): (s: string)
    requires size < Word64
    ensures size < 1024 ==> s == Decimal(size) + " B"
  {
    var (value, unit) := Scale(size);
    Decimal(value) + " " + UnitName(unit)
  }

  /** Leading decimal digits of `s`. */
  function DigitPrefix(s: string): (k: nat)
    ensures k <= |s| && AllDigits(s[..k])
    ensures k < |s| ==> !IsDigit(s[k])
    decreases |s|
  {
    if |s| == 0 || !IsDigit(s[0]) then 0
    else
      var k := 1 + DigitPrefix(s[1..]);
      assert s[..k] == [s[0]] + s[1..][..k - 1];
      k
  }

  /** The unit a text names, if any. */
  function UnitOf(t: string): (r: Option<Unit>)
    ensures r.Some? ==> UnitName(r.value) == t
  {
    if t == "B" then Some(B)
    else if t == "KB" then Some(KB)
    else if t == "MB" then Some(MB)
    else if t == "GB" then Some(GB)
    else None
  }

  /** Reads "<digits> <unit>" back into a value and a unit. */
  function ParseSize(s: string): (r: Option<(nat, Unit)>)
    ensures r.Some? ==> exists k :: 0 < k < |s| && s[k] == ' ' && AllDigits(s[..k])
  {
    var k := DigitPrefix(s);
    if k == 0 || k == |s| || s[k] != ' ' then None
    else
      match UnitOf(s[k + 1..])
      case None => None
      case Some(u) => Some((DigitsValue(s[..k]), u))
  }

  /** The digit prefix of digits followed by a non-digit is the digits. */
  lemma {:induction false} DigitPrefixOf(d: string, rest: string)
    requires AllDigits(d) && |rest| > 0 && !IsDigit(rest[0])
    ensures DigitPrefix(d + rest) == |d|
    decreases |d|
  {
    if |d| > 0 {
      DigitPrefixOf(d[1..], rest);
      assert (d + rest)[1..] == d[1..] + rest;
    }
  }

  /** Each unit's text names that unit. */
  lemma UnitOfName(u: Unit)
    ensures UnitOf(UnitName(u)) == Some(u)
  {
    match u
    case B =>
    case KB =>
    case MB =>
    case GB =>
  }

  /** A value in decimal, a space and a unit's text read back as that value and unit. */
  lemma ParseFormatted(value: nat, unit: Unit)
    ensures ParseSize(Decimal(value) + " " + UnitName(unit)) == Some((value, unit))
  {
    var d := Decimal(value);
    var rest := " " + UnitName(unit);
    var s := d + " " + UnitName(unit);
    assert s == d + rest;
    DigitPrefixOf(d, rest);
    assert s[..|d|] == d;
    assert s[|d| + 1..] == UnitName(unit);
    UnitOfName(unit);
    DecimalRoundTrip(value);
  }

  /** Every string `format_size` prints reads back as the scaled value and unit. */
  lemma FormatSizeRoundTrip(size: nat)
    requires size < Word64
    ensures ParseSize(FormatSize(size)) == Some(Scale(size))
  {
    var (value, unit) := Scale(size);
    ParseFormatted(value, unit);
  }
}
