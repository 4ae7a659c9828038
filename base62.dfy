/** Base62 encoding of counter values (services/base62.go). Encode and Decode
    are methods with the source's loops; the functions Digits and Value say what
    those loops compute, and the lemmas relate the two. */
module Base62 {
  import opened GoRuntime
  import opened Errors

  /** base62Alphabet: digits, then upper-case, then lower-case letters. It is
      written as three literals joined together; the string is the same. */
  const Alphabet: string := "0123456789" + "ABCDEFGHIJKLMNOPQRSTUVWXYZ" + "abcdefghijklmnopqrstuvwxyz"
  const Radix: nat := 62

  /** The character the alphabet holds at position d. */
  function DigitChar(d: nat): (c: char)
    requires d < Radix
  {
    if d < 10 then ('0' as int + d) as char
    else if d < 36 then ('A' as int + d - 10) as char
    else ('a' as int + d - 36) as char
  }

  predicate LaidOut(lo: nat, hi: nat)
    requires lo <= hi <= Radix
    decreases hi - lo
  {
    lo == hi || (Alphabet[lo] == DigitChar(lo) && LaidOut(lo + 1, hi))
  }

  lemma {:induction false} LaidOutAt(lo: nat, hi: nat, k: nat)
    requires lo <= k < hi <= Radix && LaidOut(lo, hi)
    ensures Alphabet[k] == DigitChar(k)
    decreases hi - lo
  {
    if lo < k {
      LaidOutAt(lo + 1, hi, k);
    }
  }

  // The literal is checked in slices short enough for the verifier to evaluate.
  lemma LaidOut0() ensures LaidOut(0, 10) {}
  lemma LaidOut10() ensures LaidOut(10, 16) {}
  lemma LaidOut16() ensures LaidOut(16, 23) {}
  lemma LaidOut23() ensures LaidOut(23, 36) {}
  lemma LaidOut36() ensures LaidOut(36, 42) {}
  lemma LaidOut42() ensures LaidOut(42, 49) {}
  lemma LaidOut49() ensures LaidOut(49, 62) {}

  /** The alphabet has 62 characters and position d holds DigitChar(d). */
  lemma AlphabetLayout()
    ensures |Alphabet| == Radix
    ensures forall d :: 0 <= d < Radix ==> Alphabet[d] == DigitChar(d)
  {
    forall d | 0 <= d < Radix
      ensures Alphabet[d] == DigitChar(d)
    {
      if d < 10 { LaidOut0(); LaidOutAt(0, 10, d); }
      else if d < 16 { LaidOut10(); LaidOutAt(10, 16, d); }
      else if d < 23 { LaidOut16(); LaidOutAt(16, 23, d); }
      else if d < 36 { LaidOut23(); LaidOutAt(23, 36, d); }
      else if d < 42 { LaidOut36(); LaidOutAt(36, 42, d); }
      else if d < 49 { LaidOut42(); LaidOutAt(42, 49, d); }
      else { LaidOut49(); LaidOutAt(49, 62, d); }
    }
  }

  /** `strings.IndexRune(base62Alphabet, c)`: the position of c in the
      alphabet, or -1 when c is not one of its characters (MemberIffIndexed). */
  function IndexOf(c: char): (i: int)
    ensures -1 <= i < Radix
    ensures i >= 0 ==> Alphabet[i] == c
  {
    AlphabetLayout();
    if '0' <= c <= '9' then c as int - '0' as int
    else if 'A' <= c <= 'Z' then c as int - 'A' as int + 10
    else if 'a' <= c <= 'z' then c as int - 'a' as int + 36
    else -1
  }

  /** Whether Decode accepts the character. */
  predicate InAlphabet(c: char)
  {
    IndexOf(c) >= 0
  }

  /** The characters Decode accepts are exactly the characters of the alphabet. */
  lemma MemberIffIndexed(c: char)
    ensures c in Alphabet <==> InAlphabet(c)
  {
    if c in Alphabet {
      AlphabetLayout();
      var d :| 0 <= d < Radix && Alphabet[d] == c;
    }
  }

  /** Each alphabet character is found at its own position: the characters
      are pairwise distinct. */
  lemma IndexOfDigit(d: nat)
    requires d < Radix
    ensures IndexOf(Alphabet[d]) == d
  {
    AlphabetLayout();
  }

  predicate AllInAlphabet(s: string)
  {
    forall k :: 0 <= k < |s| ==> InAlphabet(s[k])
  }

  /** The base-62 numeral of n, most significant digit first; empty for 0. */
  function Digits(n: nat): (s: string)
    decreases n
  {
    if n == 0 then [] else Digits(n / Radix) + [Alphabet[n % Radix]]
  }

  /** What Encode returns: "0" for zero, the numeral for a positive number,
      and the empty string for a negative one, since the digit loop never runs. */
  function Encoding(num: int): (s: string)
  {
    if num == 0 then "0" else if num < 0 then "" else Digits(num)
  }

  function Reverse(s: string): (r: string)
    ensures |r| == |s|
  {
    if s == [] then [] else Reverse(s[1..]) + [s[0]]
  }

  lemma {:induction false} ReverseAppend(s: string, c: char)
    ensures Reverse(s + [c]) == [c] + Reverse(s)
  {
    if s != [] {
      assert (s + [c])[1..] == s[1..] + [c];
      ReverseAppend(s[1..], c);
    }
  }

  lemma {:induction false} ReverseAt(s: string, k: nat)
    requires k < |s|
    ensures Reverse(s)[k] == s[|s| - 1 - k]
  {
    if k < |s| - 1 {
      ReverseAt(s[1..], k);
    }
  }

  /** Encode: emit digits least significant first into a builder, then copy
      them back to front into a byte slice. */
  method Encode(num: Int64) returns (s: string)
    ensures s == Encoding(num)
  {
    if num == 0 {
      return "0";
    }
    var result: string := [];
    var n: int := num;
    while n > 0
      invariant num > 0 ==> 0 <= n && Digits(num) == Digits(n) + Reverse(result)
      invariant num < 0 ==> n == num && result == []
      decreases if n > 0 then n else 0
    {
      ReverseAppend(result, Alphabet[n % Radix]);
      result := result + [Alphabet[n % Radix]];
      n := n / Radix;
    }
    var encoded := result;
    var reversed := new char[|encoded|];
    var i, j := 0, |encoded| - 1;
    while i < |encoded|
      invariant 0 <= i <= |encoded| && j == |encoded| - 1 - i
      invariant forall k :: 0 <= k < i ==> reversed[k] == encoded[|encoded| - 1 - k]
    {
      reversed[i] := encoded[j];
      i, j := i + 1, j - 1;
    }
    s := reversed[..];
    forall k | 0 <= k < |encoded|
      ensures s[k] == Reverse(encoded)[k]
    {
      ReverseAt(encoded, k);
    }
  }

  function Pow(b: nat, e: nat): (p: nat)
  {
    if e == 0 then 1 else b * Pow(b, e - 1)
  }

  /** The sum of index(s[k]) * 62^(|s|-1-k) over the first i positions of s. */
  function Weighted(s: string, i: nat): int
    requires i <= |s|
  {
    if i == 0 then 0 else Weighted(s, i - 1) + IndexOf(s[i - 1]) * Pow(Radix, |s| - i)
  }

  /** The positional value of a base-62 string, as Decode sums it. */
  function Value(s: string): int
  {
    Weighted(s, |s|)
  }

  /** The error Decode reports for a character outside the alphabet. */
  function InvalidCharacter(c: char): (e: Error)
    ensures e.Other? && |e.message| > 19 && e.message[..19] == "invalid character '" && e.message[19] == c
    ensures GetStatusCodeFromError(e) == StatusInternalServerError
  {
    Other("invalid character '" + [c] + "' in base62 string")
  }

  /** Decode: add up index * 62^position, character by character, failing at the
      first character that is not in the alphabet. */
  method Decode(str: string) returns (r: Result<int>)
    ensures r.Ok? <==> AllInAlphabet(str)
    ensures r.Ok? ==> r.value == Value(str)
    ensures r.Err? ==> exists k :: 0 <= k < |str| && !InAlphabet(str[k]) && AllInAlphabet(str[..k])
                                    && r.error == InvalidCharacter(str[k])
  {
    var result := 0;
    var i := 0;
    while i < |str|
      invariant 0 <= i <= |str|
      invariant AllInAlphabet(str[..i])
      invariant result == Weighted(str, i)
    {
      var index := IndexOf(str[i]);
      if index == -1 {
        return Err(InvalidCharacter(str[i]));
      }
      result := result + index * Pow(Radix, |str| - 1 - i);
      i := i + 1;
      assert str[..i] == str[..i - 1] + [str[i - 1]];
    }
    assert str[..i] == str;
    return Ok(result);
  }

  lemma ScaleTerm(x: int, p: nat)
    ensures x * (Radix * p) == Radix * (x * p)
  {
  }

  /** Appending one character multiplies the value of the prefix by 62. */
  lemma {:induction false} WeightedAppend(s: string, c: char, i: nat)
    requires i <= |s|
    ensures Weighted(s + [c], i) == Radix * Weighted(s, i)
  {
    if i > 0 {
      WeightedAppend(s, c, i - 1);
      assert (s + [c])[i - 1] == s[i - 1];
      ScaleTerm(IndexOf(s[i - 1]), Pow(Radix, |s| - i));
    }
  }

  /** Horner's rule for Value. */
  lemma ValueAppend(s: string, c: char)
    ensures Value(s + [c]) == Radix * Value(s) + IndexOf(c)
  {
    var t := s + [c];
    WeightedAppend(s, c, |s|);
    assert t[|t| - 1] == c;
  }

  /** Digits(n) is written in the alphabet; for n > 0 it is non-empty and has no
      leading '0'. */
  lemma {:induction false} DigitsWellFormed(n: nat)
    ensures AllInAlphabet(Digits(n))
    ensures n > 0 ==> |Digits(n)| > 0 && Digits(n)[0] != '0'
    decreases n
  {
    AlphabetLayout();
    if n > 0 {
      DigitsWellFormed(n / Radix);
      if n < Radix {
        assert Digits(n) == [Alphabet[n]];
      }
    }
  }

  /** The output of Encode for a non-negative number uses only alphabet
      characters, and for a positive number is non-empty with no leading '0'. */
  lemma EncodingWellFormed(n: nat)
    ensures AllInAlphabet(Encoding(n)) && |Encoding(n)| > 0
    ensures n > 0 ==> Encoding(n)[0] != '0'
  {
    AlphabetLayout();
    DigitsWellFormed(n);
  }

  lemma {:induction false} ValueOfDigits(n: nat)
    ensures Value(Digits(n)) == n
    decreases n
  {
    if n > 0 {
      ValueOfDigits(n / Radix);
      ValueAppend(Digits(n / Radix), Alphabet[n % Radix]);
      IndexOfDigit(n % Radix);
    }
  }

  /** Decode(Encode(n)) == n for every n >= 0: Encode's output decodes without
      error to the number it came from. */
  lemma DecodeEncode(n: nat)
    ensures AllInAlphabet(Encoding(n))
    ensures Value(Encoding(n)) == n
  {
    EncodingWellFormed(n);
    if n == 0 {
      var zero := "0";
      assert zero[0] == '0' && IndexOf('0') == 0;
      assert Value(zero) == Weighted(zero, 0) + IndexOf(zero[0]) * Pow(Radix, 0);
    } else {
      ValueOfDigits(n);
    }
  }

  lemma {:induction false} WeightedNonNegative(s: string, i: nat)
    requires i <= |s| && AllInAlphabet(s)
    ensures Weighted(s, i) >= 0
  {
    if i > 0 {
      WeightedNonNegative(s, i - 1);
    }
  }

  /** One more base-62 digit after the numeral of v. */
  lemma DigitsAppend(v: nat, d: nat)
    requires d < Radix && Radix * v + d > 0
    ensures Digits(Radix * v + d) == Digits(v) + [Alphabet[d]]
  {
    var n := Radix * v + d;
    assert n / Radix == v && n % Radix == d;
  }

  /** A single alphabet character is the encoding of its own index. */
  lemma EncodeDecodeDigit(c: char)
    requires InAlphabet(c)
    ensures Value([c]) == IndexOf(c) && Encoding(Value([c])) == [c]
  {
    ValueAppend([], c);
    assert [] + [c] == [c];
    var d := IndexOf(c);
    if d == 0 {
      IndexOfDigit(0);
      assert Alphabet[0] == '0';
    } else {
      DigitsAppend(0, d);
    }
  }

  /** Dropping the last character keeps a string in the alphabet. */
  lemma PrefixInAlphabet(s: string)
    requires |s| > 0 && AllInAlphabet(s)
    ensures AllInAlphabet(s[..|s| - 1])
  {
    var t := s[..|s| - 1];
    forall k | 0 <= k < |t| ensures InAlphabet(t[k]) {
      assert t[k] == s[k];
    }
  }

  /** The converse: every canonical numeral (non-empty, in the alphabet, no
      leading '0') is what Encode produces for its value, so Encode is a
      bijection between non-negative numbers and canonical numerals. */
  lemma {:induction false} EncodeDecode(s: string)
    requires |s| > 0 && AllInAlphabet(s) && (s[0] != '0' || s == "0")
    ensures Value(s) >= 0 && Encoding(Value(s)) == s
    decreases |s|
  {
    var c := s[|s| - 1];
    assert InAlphabet(c);
    if |s| == 1 {
      assert s == [c];
      EncodeDecodeDigit(c);
    } else {
      var t := s[..|s| - 1];
      assert s == t + [c];
      assert t[0] == s[0] && s != "0";
      PrefixInAlphabet(s);
      EncodeDecode(t);
      var v, d := Value(t), IndexOf(c);
      assert v != 0;
      ValueAppend(t, c);
      DigitsAppend(v, d);
    }
  }

  lemma EncodeExamples()
    ensures Encoding(0) == "0" && Encoding(1) == "1" && Encoding(10) == "A"
    ensures Encoding(61) == "z" && Encoding(62) == "10" && Encoding(3844) == "100"
    ensures Encoding(-5) == ""
  {
    assert Digits(62) == Digits(1) + [Alphabet[0]];
    assert Digits(3844) == Digits(62) + [Alphabet[0]];
  }

  /** For 0 < n < 62 the code is the single character at position n. */
  lemma EncodeSingleDigit(n: nat)
    requires 0 < n < Radix
    ensures Encoding(n) == [Alphabet[n]]
  {
    assert Digits(n) == Digits(0) + [Alphabet[n]];
  }

  lemma DecodeEmpty()
    ensures Value("") == 0
  {
  }
}
