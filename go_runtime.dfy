/** The parts of Go's runtime and standard library that the core relies on and
    whose exact behaviour matters to it: 64-bit integers and their wrap-around,
    the UTF-8 byte length that `len` reports on a string, `strings.HasPrefix`,
    decimal formatting (`strconv.FormatInt`) and the `%d` verb of `fmt.Sscanf`. */
module GoRuntime {
  import opened Wrappers

  const MinInt64: int := -0x8000_0000_0000_0000
  const MaxInt64: int := 0x7FFF_FFFF_FFFF_FFFF

  /** Go's `int64`. */
  type Int64 = x: int | MinInt64 <= x <= MaxInt64

  /** The result of an `int64` operation whose exact value is `x`: two's
      complement wrap-around, as Go's arithmetic does silently. */
  function Wrap64(x: int): (r: Int64)
    ensures (r - x) % 0x1_0000_0000_0000_0000 == 0
    ensures MinInt64 <= x <= MaxInt64 ==> r == x
  {
    (x - MinInt64) % 0x1_0000_0000_0000_0000 + MinInt64
  }

  /** The number of bytes of the UTF-8 encoding of one character. */
  function Utf8Width(c: char): (n: nat)
    ensures 1 <= n <= 4
    ensures n == 1 <==> (c as int) < 0x80
  {
    if (c as int) < 0x80 then 1
    else if (c as int) < 0x800 then 2
    else if (c as int) < 0x1_0000 then 3
    else 4
  }

  /** `len(s)` on a Go string: its length in bytes, not in characters. */
  function Utf8Length(s: string): (n: nat)
    ensures |s| <= n <= 4 * |s|
  {
    if s == [] then 0 else Utf8Width(s[0]) + Utf8Length(s[1..])
  }

  /** On a string of ASCII characters the byte length is the character count. */
  lemma {:induction false} AsciiLength(s: string)
    requires forall i :: 0 <= i < |s| ==> (s[i] as int) < 0x80
    ensures Utf8Length(s) == |s|
  {
    if s != [] {
      AsciiLength(s[1..]);
    }
  }

  /** `strings.HasPrefix`. */
  predicate HasPrefix(s: string, prefix: string)
  {
    |prefix| <= |s| && s[..|prefix|] == prefix
  }

  predicate IsDecimalDigit(c: char)
  {
    '0' <= c <= '9'
  }

  /** The longest prefix of `s` made of decimal digits: what `fmt` takes as
      the digits of a `%d` operand (underscores and base prefixes are taken
      only for `%v`). */
  function ScanDigitRun(s: string): (run: string)
    ensures |run| <= |s| && run == s[..|run|]
    ensures forall i :: 0 <= i < |run| ==> IsDecimalDigit(run[i])
    ensures |run| < |s| ==> !IsDecimalDigit(s[|run|])
  {
    if s == [] || !IsDecimalDigit(s[0]) then [] else [s[0]] + ScanDigitRun(s[1..])
  }

  /** The value of a non-empty string of decimal digits, most significant first. */
  function DecimalValue(ds: string): (v: nat)
    requires forall i :: 0 <= i < |ds| ==> IsDecimalDigit(ds[i])
  {
    if ds == [] then 0
    else
      assert IsDecimalDigit(ds[|ds| - 1]);
      10 * DecimalValue(ds[..|ds| - 1]) + ((ds[|ds| - 1] as int) - ('0' as int))
  }

  /** `fmt.Sscanf(s, "%d", &v)` into an `int64`, returning the scanned value when
      the call reports one item and no error: an optional sign, then the longest
      run of decimal digits, which must be non-empty and whose signed value
      must fit in 64 bits. What follows the run is not looked at. */
  function ScanInt64(s: string): (r: Option<Int64>)
    ensures r.Some? ==> |s| > 0 && (IsDecimalDigit(s[0]) || s[0] == '+' || s[0] == '-')
  {
    var negative := |s| > 0 && s[0] == '-';
    var rest := if |s| > 0 && (s[0] == '+' || s[0] == '-') then s[1..] else s;
    var run := ScanDigitRun(rest);
    if run == [] then None
    else
      var magnitude: int := DecimalValue(run);
      var v := if negative then -magnitude else magnitude;
      if MinInt64 <= v <= MaxInt64 then Some(v) else None
  }

  /** `strconv.FormatInt(n, 10)` for a non-negative `n`: the shortest decimal
      numeral, "0" for zero. */
  function FormatNat(n: nat): (s: string)
    ensures |s| > 0
    ensures forall i :: 0 <= i < |s| ==> IsDecimalDigit(s[i])
    decreases n
  {
    if n < 10 then [('0' as int + n) as char]
    else FormatNat(n / 10) + [('0' as int + n % 10) as char]
  }

  /** `strconv.FormatInt(n, 10)`: the decimal numeral of `n`, with a leading
      '-' when it is negative. */
  function FormatInt64(n: Int64): (s: string)
    ensures |s| > 0 && (s[0] == '-' <==> n < 0)
    ensures forall i :: (if n < 0 then 1 else 0) <= i < |s| ==> IsDecimalDigit(s[i])
  {
    if n < 0 then "-" + FormatNat(-(n as int)) else FormatNat(n)
  }

  lemma {:induction false} DecimalValueOfFormat(n: nat)
    ensures DecimalValue(FormatNat(n)) == n
    decreases n
  {
    if n >= 10 {
      var s := FormatNat(n);
      assert s[..|s| - 1] == FormatNat(n / 10);
      DecimalValueOfFormat(n / 10);
    }
  }

  lemma {:induction false} ScanDigitRunOfDigits(s: string)
    requires forall i :: 0 <= i < |s| ==> IsDecimalDigit(s[i])
    ensures ScanDigitRun(s) == s
  {
    if s != [] {
      ScanDigitRunOfDigits(s[1..]);
    }
  }

  /** Scanning the decimal form of any `int64` with `%d` gives the number back:
      a value that travels through a store as a decimal string arrives intact. */
  lemma ScanFormatRoundTrip(n: Int64)
    ensures ScanInt64(FormatInt64(n)) == Some(n)
  {
    var magnitude: nat := if n < 0 then -(n as int) else n;
    var digits := FormatNat(magnitude);
    ScanDigitRunOfDigits(digits);
    DecimalValueOfFormat(magnitude);
    var s := FormatInt64(n);
    if n < 0 {
      assert s[0] == '-' && s[1..] == digits;
    } else {
      assert s == digits && s[0] != '+' && s[0] != '-' by {
        assert IsDecimalDigit(digits[0]);
      }
    }
  }
}
