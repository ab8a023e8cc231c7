/*
 * A check-digit library for product codes: ISBN-10 (ISO 2108), ISBN-13 and
 * UPC-A (both the GS1 modulo-10 check digit, section 7.9 of the GS1 General
 * Specifications).  Every format is built on one primitive, a weighted sum of
 * the digits whose weights are applied cyclically.
 *
 * All operations are static and stateless.  The only imperative part is the
 * accumulating loop of the weighted-sum primitive, modelled as a method proved
 * against the specification function that the format rules use.
 */
module ChecksumCalculator {

  /** The result of an operation that may raise the library's one error kind. */
  datatype Result<T> = Ok(value: T) | FormatException

  // ---------------------------------------------------------------------------
  // Characters and digits.  "Numeric" is restricted to ASCII '0'..'9'.
  // ---------------------------------------------------------------------------

  predicate IsDigit(c: char) {
    '0' <= c <= '9'
  }

  predicate AllDigits(s: string) {
    forall i :: 0 <= i < |s| ==> IsDigit(s[i])
  }

  /** str.isnumeric(): false on the empty string. */
  predicate IsNumeric(s: string) {
    |s| > 0 && AllDigits(s)
  }

  /** int(c) for a single decimal digit. */
  function DigitValue(c: char): (v: nat)
    requires IsDigit(c)
    ensures v < 10
  {
    c as int - '0' as int
  }

  /** str(v) for a value 0..9. */
  function DigitChar(v: int): (c: char)
    requires 0 <= v < 10
    ensures IsDigit(c) && DigitValue(c) == v
  {
    ('0' as int + v) as char
  }

  lemma DigitCharOfValue(c: char)
    requires IsDigit(c)
    ensures DigitChar(DigitValue(c)) == c
  {
  }

  /** str.lower() on the characters where the library uses it. */
  function ToLower(c: char): char {
    if 'A' <= c <= 'Z' then (c as int + 32) as char else c
  }

  // ---------------------------------------------------------------------------
  // Normaliser: prepare_code_string
  // ---------------------------------------------------------------------------

  predicate IsSeparator(c: char) {
    c == '-' || c == ' '
  }

  predicate NoSeparators(s: string) {
    forall i :: 0 <= i < |s| ==> !IsSeparator(s[i])
  }

  /** str.replace(c, ""): every occurrence of c deleted, the rest kept in order. */
  function RemoveAll(s: string, c: char): (r: string)
    ensures |r| <= |s|
    ensures c !in r
    ensures forall x :: x in r ==> x in s
  {
    if s == [] then []
    else if s[0] == c then RemoveAll(s[1..], c)
    else [s[0]] + RemoveAll(s[1..], c)
  }

  /** Deletes every hyphen, then every ASCII space. */
  function PrepareCodeString(code: string): (r: string)
    ensures NoSeparators(r)
    ensures |r| <= |code|
  {
    RemoveAll(RemoveAll(code, '-'), ' ')
  }

  /** Reference definition: one left-to-right pass keeping the non-separators. */
  function KeepNonSeparators(s: string): string {
    if s == [] then []
    else (if IsSeparator(s[0]) then [] else [s[0]]) + KeepNonSeparators(s[1..])
  }

  /** The two replace passes together are the one-pass filter. */
  lemma {:induction false} PrepareIsFilter(s: string)
    ensures PrepareCodeString(s) == KeepNonSeparators(s)
  {
    if s != [] {
      PrepareIsFilter(s[1..]);
      var t := RemoveAll(s[1..], '-');
      if s[0] != '-' {
        assert RemoveAll(s, '-') == [s[0]] + t;
        assert ([s[0]] + t)[1..] == t;
      }
    }
  }

  lemma {:induction false} RemoveAllConcat(a: string, b: string, c: char)
    ensures RemoveAll(a + b, c) == RemoveAll(a, c) + RemoveAll(b, c)
  {
    if a == [] {
      assert a + b == b;
    } else {
      assert (a + b)[0] == a[0];
      assert (a + b)[1..] == a[1..] + b;
      RemoveAllConcat(a[1..], b, c);
    }
  }

  /** Normalising a concatenation normalises each part, in order. */
  lemma PrepareConcat(a: string, b: string)
    ensures PrepareCodeString(a + b) == PrepareCodeString(a) + PrepareCodeString(b)
  {
    RemoveAllConcat(a, b, '-');
    RemoveAllConcat(RemoveAll(a, '-'), RemoveAll(b, '-'), ' ');
  }

  lemma {:induction false} RemoveAllAbsent(s: string, c: char)
    requires c !in s
    ensures RemoveAll(s, c) == s
  {
    if s != [] {
      assert s[0] in s;
      assert forall x :: x in s[1..] ==> x in s;
      RemoveAllAbsent(s[1..], c);
    }
  }

  /** A string without separators is left unchanged. */
  lemma PrepareKeepsClean(s: string)
    requires NoSeparators(s)
    ensures PrepareCodeString(s) == s
  {
    RemoveAllAbsent(s, '-');
    RemoveAllAbsent(s, ' ');
  }

  lemma PrepareIdempotent(s: string)
    ensures PrepareCodeString(PrepareCodeString(s)) == PrepareCodeString(s)
  {
    PrepareKeepsClean(PrepareCodeString(s));
  }

  lemma {:induction false} RemoveAllCount(s: string, c: char, x: char)
    ensures multiset(RemoveAll(s, c))[x] == if x == c then 0 else multiset(s)[x]
  {
    if s != [] {
      RemoveAllCount(s[1..], c, x);
      assert s == [s[0]] + s[1..];
    }
  }

  /** Separators all disappear; every other character keeps its count. */
  lemma PrepareCounts(s: string, x: char)
    ensures multiset(PrepareCodeString(s))[x] == if IsSeparator(x) then 0 else multiset(s)[x]
  {
    RemoveAllCount(s, '-', x);
    RemoveAllCount(RemoveAll(s, '-'), ' ', x);
  }

  // ---------------------------------------------------------------------------
  // Weighted-sum primitive: calc_weighted_sum_check_digit
  // ---------------------------------------------------------------------------

  /** Sum of digit i times weights[i % |weights|], over every digit. */
  function WeightedSum(digits: string, weights: seq<int>): int
    requires AllDigits(digits) && (|weights| > 0 || digits == [])
  {
    if digits == [] then 0
    else
      var last := |digits| - 1;
      WeightedSum(digits[..last], weights) + DigitValue(digits[last]) * weights[last % |weights|]
  }

  lemma WeightedSumSnoc(digits: string, c: char, weights: seq<int>)
    requires AllDigits(digits) && IsDigit(c) && |weights| > 0
    ensures AllDigits(digits + [c])
    ensures WeightedSum(digits + [c], weights)
         == WeightedSum(digits, weights) + DigitValue(c) * weights[|digits| % |weights|]
  {
    assert (digits + [c])[..|digits|] == digits;
  }

  /** Extending a prefix by one digit adds that digit times its weight, which the caller names. */
  lemma WeightedSumStep(digits: string, weights: seq<int>, k: nat, weight: int)
    requires AllDigits(digits) && |weights| > 0 && k < |digits|
    requires weight == weights[k % |weights|]
    ensures WeightedSum(digits[..k + 1], weights) == WeightedSum(digits[..k], weights) + weight * DigitValue(digits[k])
  {
    assert digits[..k + 1] == digits[..k] + [digits[k]];
    WeightedSumSnoc(digits[..k], digits[k], weights);
  }

  lemma {:induction false} MulAtLeast(m: int, d: int)
    requires m > 0 && d >= 1
    ensures m * d >= m
  {
    if d > 1 {
      MulAtLeast(m, d - 1);
      assert m * d == m * (d - 1) + m;
    }
  }

  lemma ModUnique(a: int, m: int, q: int, r: int)
    requires m > 0 && a == m * q + r && 0 <= r < m
    ensures a % m == r
  {
    var q', r' := a / m, a % m;
    assert a == m * q' + r';
    assert m * (q - q') == r' - r;
    if q - q' >= 1 {
      MulAtLeast(m, q - q');
    } else if q' - q >= 1 {
      MulAtLeast(m, q' - q);
    }
  }

  /** The check value for a checksum: (modulus - checksum % modulus) % modulus. */
  function CheckValue(checksum: int, modulus: int): (r: int)
    requires modulus > 0
    ensures 0 <= r < modulus
    ensures (checksum + r) % modulus == 0
  {
    var q := checksum % modulus;
    var k := checksum / modulus;
    assert checksum == modulus * k + q;
    if q == 0 then
      ModUnique(modulus, modulus, 1, 0);
      ModUnique(checksum, modulus, k, 0);
      (modulus - q) % modulus
    else
      ModUnique(modulus - q, modulus, 0, modulus - q);
      assert checksum + (modulus - q) == modulus * (k + 1) + 0;
      ModUnique(checksum + (modulus - q), modulus, k + 1, 0);
      (modulus - q) % modulus
  }

  /** Only one value in [0, modulus) completes a checksum to a multiple of the modulus. */
  lemma CheckValueUnique(checksum: int, modulus: int, x: int)
    requires modulus > 0 && 0 <= x < modulus
    ensures (checksum + x) % modulus == 0 <==> x == CheckValue(checksum, modulus)
  {
    var r := CheckValue(checksum, modulus);
    var k := (checksum + r) / modulus;
    assert checksum + r == modulus * k;
    if x > r {
      ModUnique(checksum + x, modulus, k, x - r);
    } else if x < r {
      assert modulus * (k - 1) == modulus * k - modulus;
      ModUnique(checksum + x, modulus, k - 1, modulus - (r - x));
    }
  }

  /** The value calc_weighted_sum_check_digit returns. */
  function WeightedCheckDigit(digits: string, weights: seq<int>, modulus: int): (r: int)
    requires AllDigits(digits) && (|weights| > 0 || digits == []) && modulus > 0
    ensures 0 <= r < modulus
    ensures (WeightedSum(digits, weights) + r) % modulus == 0
  {
    CheckValue(WeightedSum(digits, weights), modulus)
  }

  /** The accumulating loop of calc_weighted_sum_check_digit. */
  method CalcWeightedSumCheckDigit(codeString: string, weightArray: seq<int>, modulus: int)
    returns (checkDigit: int)
    requires AllDigits(codeString) && (|weightArray| > 0 || codeString == []) && modulus > 0
    ensures checkDigit == WeightedCheckDigit(codeString, weightArray, modulus)
    ensures 0 <= checkDigit < modulus
    ensures (WeightedSum(codeString, weightArray) + checkDigit) % modulus == 0
  {
    var numWeights := |weightArray|;
    var checksum := 0;
    for count := 0 to |codeString|
      invariant checksum == WeightedSum(codeString[..count], weightArray)
    {
      var weight := weightArray[count % numWeights];
      WeightedSumStep(codeString, weightArray, count, weight);
      checksum := checksum + DigitValue(codeString[count]) * weight;
    }
    assert codeString[..|codeString|] == codeString;
    checkDigit := (modulus - checksum % modulus) % modulus;
  }

  /** Prefixing a zero digit swaps a two-weight cycle: the GS1 weights are anchored on the right. */
  lemma {:induction false} ZeroPrefixSwapsWeights(digits: string, a: int, b: int)
    requires AllDigits(digits)
    ensures AllDigits("0" + digits)
    ensures WeightedSum("0" + digits, [a, b]) == WeightedSum(digits, [b, a])
  {
    var z := "0" + digits;
    if digits == [] {
      assert z[..0] == [];
    } else {
      var last := |digits| - 1;
      assert z[..|digits|] == "0" + digits[..last];
      assert z[|digits|] == digits[last];
      ZeroPrefixSwapsWeights(digits[..last], a, b);
    }
  }

  // ---------------------------------------------------------------------------
  // ISBN-10: validate_isbn10 (ISO 2108, modulus 11, 'X' standing for 10)
  // ---------------------------------------------------------------------------

  const Isbn10Weights: seq<int> := [10, 9, 8, 7, 6, 5, 4, 3, 2]

  /** Ten characters: nine digits, then a digit or an 'x'/'X'. */
  predicate IsIsbn10Shape(s: string) {
    |s| == 10 && AllDigits(s[..9]) && (IsDigit(s[9]) || ToLower(s[9]) == 'x')
  }

  function ValidateIsbn10(code: string): (valid: bool)
    ensures valid ==> IsIsbn10Shape(PrepareCodeString(code))
  {
    var s := PrepareCodeString(code);
    if |s| != 10 || !IsNumeric(s[..9]) || !(IsDigit(s[9]) || ToLower(s[9]) == 'x') then
      false
    else
      var checkDigit := WeightedCheckDigit(s[..9], Isbn10Weights, 11);
      ToLower(s[9]) == (if checkDigit < 10 then DigitChar(checkDigit) else 'x')
  }

  /** Value of an ISBN-10 character, with 'x'/'X' standing for 10. */
  function Isbn10CharValue(c: char): (v: nat)
    requires IsDigit(c) || ToLower(c) == 'x'
    ensures v <= 10
  {
    if IsDigit(c) then DigitValue(c) else 10
  }

  /** Reference ISBN-10 checksum: the sum of d_i * (10 - i) for i in 0..9. */
  function Isbn10Sum(s: string): int
    requires IsIsbn10Shape(s)
  {
    10 * DigitValue(s[0]) + 9 * DigitValue(s[1]) + 8 * DigitValue(s[2])
    + 7 * DigitValue(s[3]) + 6 * DigitValue(s[4]) + 5 * DigitValue(s[5])
    + 4 * DigitValue(s[6]) + 3 * DigitValue(s[7]) + 2 * DigitValue(s[8])
    + Isbn10CharValue(s[9])
  }

  lemma Isbn10FirstFive(p: string)
    requires |p| == 9 && AllDigits(p)
    ensures WeightedSum(p[..5], Isbn10Weights)
         == 10 * DigitValue(p[0]) + 9 * DigitValue(p[1]) + 8 * DigitValue(p[2])
          + 7 * DigitValue(p[3]) + 6 * DigitValue(p[4])
  {
    assert p[..0] == [];
    WeightedSumStep(p, Isbn10Weights, 0, 10);
    WeightedSumStep(p, Isbn10Weights, 1, 9);
    WeightedSumStep(p, Isbn10Weights, 2, 8);
    WeightedSumStep(p, Isbn10Weights, 3, 7);
    WeightedSumStep(p, Isbn10Weights, 4, 6);
  }

  lemma Isbn10PrefixSum(p: string)
    requires |p| == 9 && AllDigits(p)
    ensures WeightedSum(p, Isbn10Weights)
         == 10 * DigitValue(p[0]) + 9 * DigitValue(p[1]) + 8 * DigitValue(p[2])
          + 7 * DigitValue(p[3]) + 6 * DigitValue(p[4]) + 5 * DigitValue(p[5])
          + 4 * DigitValue(p[6]) + 3 * DigitValue(p[7]) + 2 * DigitValue(p[8])
  {
    Isbn10FirstFive(p);
    WeightedSumStep(p, Isbn10Weights, 5, 5);
    WeightedSumStep(p, Isbn10Weights, 6, 4);
    WeightedSumStep(p, Isbn10Weights, 7, 3);
    WeightedSumStep(p, Isbn10Weights, 8, 2);
    assert p[..9] == p;
  }

  lemma Isbn10WeightedSum(s: string)
    requires IsIsbn10Shape(s)
    ensures WeightedSum(s[..9], Isbn10Weights) + Isbn10CharValue(s[9]) == Isbn10Sum(s)
  {
    Isbn10PrefixSum(s[..9]);
  }

  /** The check-character test agrees with the reference formula: sum of d_i * (10 - i) is 0 mod 11. */
  lemma ValidateIsbn10Iff(code: string)
    ensures ValidateIsbn10(code)
        <==> IsIsbn10Shape(PrepareCodeString(code)) && Isbn10Sum(PrepareCodeString(code)) % 11 == 0
  {
    var s := PrepareCodeString(code);
    if IsIsbn10Shape(s) {
      var v := Isbn10CharValue(s[9]);
      var check := WeightedCheckDigit(s[..9], Isbn10Weights, 11);
      Isbn10WeightedSum(s);
      CheckValueUnique(WeightedSum(s[..9], Isbn10Weights), 11, v);
      if IsDigit(s[9]) {
        DigitCharOfValue(s[9]);
      }
      assert ToLower(s[9]) == (if check < 10 then DigitChar(check) else 'x') <==> v == check;
    }
  }

  // ---------------------------------------------------------------------------
  // ISBN-13: calculate_isbn_13_checkdigit, validate_isbn13 (GS1 modulo 10)
  // ---------------------------------------------------------------------------

  const Isbn13Weights: seq<int> := [1, 3]

  /** Check digit of the first twelve digits; no normalisation of the argument. */
  function CalculateIsbn13CheckDigit(first12: string): (r: Result<string>)
    ensures r.Ok? <==> |first12| == 12 && IsNumeric(first12)
    ensures r.Ok? ==> |r.value| == 1 && IsDigit(r.value[0])
                      && WeightedSum(first12 + r.value, Isbn13Weights) % 10 == 0
  {
    if |first12| != 12 || !IsNumeric(first12) then
      FormatException
    else
      var c := DigitChar(WeightedCheckDigit(first12, Isbn13Weights, 10));
      WeightedSumSnoc(first12, c, Isbn13Weights);
      Ok([c])
  }

  function ValidateIsbn13(code: string): (valid: bool)
    ensures valid ==> |PrepareCodeString(code)| == 13 && IsNumeric(PrepareCodeString(code))
  {
    var s := PrepareCodeString(code);
    if |s| != 13 || !IsNumeric(s) then
      false
    else
      CalculateIsbn13CheckDigit(s[..12]).value == [s[12]]
  }

  /** Comparing the last digit with the computed one is the GS1 test on all 13 digits. */
  lemma ValidateIsbn13Iff(code: string)
    ensures ValidateIsbn13(code)
        <==> var s := PrepareCodeString(code);
             |s| == 13 && IsNumeric(s) && WeightedSum(s, Isbn13Weights) % 10 == 0
  {
    var s := PrepareCodeString(code);
    if |s| == 13 && IsNumeric(s) {
      assert s == s[..12] + [s[12]];
      WeightedSumSnoc(s[..12], s[12], Isbn13Weights);
      CheckValueUnique(WeightedSum(s[..12], Isbn13Weights), 10, DigitValue(s[12]));
      DigitCharOfValue(s[12]);
    }
  }

  /** The digit a check-digit calculation returns is the only one that makes the whole sum 0 mod 10. */
  lemma Isbn13CheckDigitUnique(first12: string, c: char)
    requires |first12| == 12 && IsNumeric(first12) && IsDigit(c)
    ensures CalculateIsbn13CheckDigit(first12) == Ok([c])
        <==> WeightedSum(first12 + [c], Isbn13Weights) % 10 == 0
  {
    var r := CalculateIsbn13CheckDigit(first12).value;
    WeightedSumSnoc(first12, c, Isbn13Weights);
    WeightedSumSnoc(first12, r[0], Isbn13Weights);
    CheckValueUnique(WeightedSum(first12, Isbn13Weights), 10, DigitValue(c));
    CheckValueUnique(WeightedSum(first12, Isbn13Weights), 10, DigitValue(r[0]));
    DigitCharOfValue(c);
    DigitCharOfValue(r[0]);
    assert r == [r[0]];
  }

  /** Over thirteen digits the cycle [1, 3] gives weight 1 to even positions and 3 to odd ones. */
  lemma Isbn13Sum(p: string)
    requires |p| == 13 && AllDigits(p)
    ensures WeightedSum(p, Isbn13Weights)
         == DigitValue(p[0]) + 3 * DigitValue(p[1]) + DigitValue(p[2]) + 3 * DigitValue(p[3])
          + DigitValue(p[4]) + 3 * DigitValue(p[5]) + DigitValue(p[6]) + 3 * DigitValue(p[7])
          + DigitValue(p[8]) + 3 * DigitValue(p[9]) + DigitValue(p[10]) + 3 * DigitValue(p[11])
          + DigitValue(p[12])
  {
    assert p[..0] == [];
    WeightedSumStep(p, Isbn13Weights, 0, 1);
    WeightedSumStep(p, Isbn13Weights, 1, 3);
    WeightedSumStep(p, Isbn13Weights, 2, 1);
    WeightedSumStep(p, Isbn13Weights, 3, 3);
    WeightedSumStep(p, Isbn13Weights, 4, 1);
    WeightedSumStep(p, Isbn13Weights, 5, 3);
    WeightedSumStep(p, Isbn13Weights, 6, 1);
    WeightedSumStep(p, Isbn13Weights, 7, 3);
    WeightedSumStep(p, Isbn13Weights, 8, 1);
    WeightedSumStep(p, Isbn13Weights, 9, 3);
    WeightedSumStep(p, Isbn13Weights, 10, 1);
    WeightedSumStep(p, Isbn13Weights, 11, 3);
    WeightedSumStep(p, Isbn13Weights, 12, 1);
    assert p[..13] == p;
  }

  // ---------------------------------------------------------------------------
  // Dispatch: validate_isbn
  // ---------------------------------------------------------------------------

  /** The sub-validator receives the normalised string, not the argument. */
  function ValidateIsbn(code: string): (valid: bool)
    ensures |PrepareCodeString(code)| != 10 && |PrepareCodeString(code)| != 13 ==> !valid
  {
    var s := PrepareCodeString(code);
    if |s| == 10 then ValidateIsbn10(s)
    else if |s| == 13 then ValidateIsbn13(s)
    else false
  }

  /** Dispatching on the normalised string answers as either validator does on the argument. */
  lemma ValidateIsbnDispatch(code: string)
    ensures ValidateIsbn(code) <==> ValidateIsbn10(code) || ValidateIsbn13(code)
  {
    PrepareIdempotent(code);
  }

  // ---------------------------------------------------------------------------
  // Conversion: convert_isbn_10_to_13
  // ---------------------------------------------------------------------------

  function ConvertIsbn10To13(isbn10: string): (r: Result<string>)
    ensures r.Ok? <==> ValidateIsbn10(isbn10)
    ensures r.Ok? ==> |r.value| == 13 && r.value[..3] == "978"
                      && r.value[3..12] == PrepareCodeString(isbn10)[..9]
                      && ValidateIsbn13(r.value)
  {
    if !ValidateIsbn10(isbn10) then
      FormatException
    else
      var newIsbn := "978" + PrepareCodeString(isbn10)[..9];
      var checkDigit := CalculateIsbn13CheckDigit(newIsbn);
      if checkDigit.FormatException? then
        FormatException
      else
        var out := newIsbn + checkDigit.value;
        assert out[..12] == newIsbn;
        PrepareKeepsClean(out);
        ValidateIsbn13Iff(out);
        Ok(out)
  }

  /** Converting loses nothing but the letter case of an 'X' check character. */
  lemma ConvertIsbn10To13Injective(a: string, b: string)
    requires ConvertIsbn10To13(a).Ok? && ConvertIsbn10To13(a) == ConvertIsbn10To13(b)
    ensures |PrepareCodeString(a)| == |PrepareCodeString(b)| == 10
    ensures PrepareCodeString(a)[..9] == PrepareCodeString(b)[..9]
    ensures ToLower(PrepareCodeString(a)[9]) == ToLower(PrepareCodeString(b)[9])
  {
    var sa, sb := PrepareCodeString(a), PrepareCodeString(b);
    assert sa[..9] == ConvertIsbn10To13(a).value[3..12] == sb[..9];
  }

  /** The converted code is the only 13-digit code of the form "978", payload, completing check digit. */
  lemma ConvertIsbn10To13Determined(isbn10: string, expected: string)
    requires ValidateIsbn10(isbn10)
    requires |expected| == 13 && AllDigits(expected)
    requires expected[..3] == "978" && expected[3..12] == PrepareCodeString(isbn10)[..9]
    requires WeightedSum(expected, Isbn13Weights) % 10 == 0
    ensures ConvertIsbn10To13(isbn10) == Ok(expected)
  {
    var v := ConvertIsbn10To13(isbn10).value;
    assert v[..12] == v[..3] + v[3..12] == expected[..3] + expected[3..12] == expected[..12];
    PrepareKeepsClean(v);
    ValidateIsbn13Iff(v);
    assert v == v[..12] + [v[12]];
    assert expected == expected[..12] + [expected[12]];
    Isbn13CheckDigitUnique(v[..12], v[12]);
    Isbn13CheckDigitUnique(v[..12], expected[12]);
  }

  /** A converted code passes the dispatching validator too. */
  lemma ConvertedIsValidIsbn(isbn10: string)
    requires ValidateIsbn10(isbn10)
    ensures ValidateIsbn(ConvertIsbn10To13(isbn10).value)
  {
    ValidateIsbnDispatch(ConvertIsbn10To13(isbn10).value);
  }

  // ---------------------------------------------------------------------------
  // UPC-A: calculate_upc_checkdigit, validate_upc (GS1 modulo 10)
  // ---------------------------------------------------------------------------

  const UpcWeights: seq<int> := [3, 1]

  /** Check digit of the first eleven digits; no normalisation of the argument. */
  function CalculateUpcCheckDigit(first11: string): (r: Result<string>)
    ensures r.Ok? <==> |first11| == 11 && IsNumeric(first11)
    ensures r.Ok? ==> |r.value| == 1 && IsDigit(r.value[0])
                      && WeightedSum(first11 + r.value, UpcWeights) % 10 == 0
  {
    if |first11| != 11 || !IsNumeric(first11) then
      FormatException
    else
      var c := DigitChar(WeightedCheckDigit(first11, UpcWeights, 10));
      WeightedSumSnoc(first11, c, UpcWeights);
      Ok([c])
  }

  /** Raises, rather than answering false, when a twelve-character code has a non-digit among its first eleven. */
  function ValidateUpc(code: string): (r: Result<bool>)
    ensures |PrepareCodeString(code)| != 12 ==> r == Ok(false)
    ensures r.FormatException?
        <==> |PrepareCodeString(code)| == 12 && !IsNumeric(PrepareCodeString(code)[..11])
  {
    var s := PrepareCodeString(code);
    if |s| != 12 then
      Ok(false)
    else
      var checkDigit := CalculateUpcCheckDigit(s[..11]);
      if checkDigit.FormatException? then FormatException
      else Ok(checkDigit.value == s[11..])
  }

  /** A code is accepted exactly when it is twelve digits whose GS1 weighted sum is 0 mod 10. */
  lemma ValidateUpcIff(code: string)
    ensures ValidateUpc(code) == Ok(true)
        <==> var s := PrepareCodeString(code);
             |s| == 12 && IsNumeric(s) && WeightedSum(s, UpcWeights) % 10 == 0
  {
    var s := PrepareCodeString(code);
    if |s| == 12 && IsNumeric(s[..11]) {
      var c := CalculateUpcCheckDigit(s[..11]).value;
      assert c == [c[0]];
      if IsDigit(s[11]) {
        assert s == s[..11] + [s[11]];
        WeightedSumSnoc(s[..11], s[11], UpcWeights);
        WeightedSumSnoc(s[..11], c[0], UpcWeights);
        CheckValueUnique(WeightedSum(s[..11], UpcWeights), 10, DigitValue(s[11]));
        CheckValueUnique(WeightedSum(s[..11], UpcWeights), 10, DigitValue(c[0]));
        DigitCharOfValue(s[11]);
        DigitCharOfValue(c[0]);
      }
    }
  }

  /** The digit a check-digit calculation returns is the only one that makes the whole sum 0 mod 10. */
  lemma UpcCheckDigitUnique(first11: string, c: char)
    requires |first11| == 11 && IsNumeric(first11) && IsDigit(c)
    ensures CalculateUpcCheckDigit(first11) == Ok([c])
        <==> WeightedSum(first11 + [c], UpcWeights) % 10 == 0
  {
    var r := CalculateUpcCheckDigit(first11).value;
    WeightedSumSnoc(first11, c, UpcWeights);
    WeightedSumSnoc(first11, r[0], UpcWeights);
    CheckValueUnique(WeightedSum(first11, UpcWeights), 10, DigitValue(c));
    CheckValueUnique(WeightedSum(first11, UpcWeights), 10, DigitValue(r[0]));
    DigitCharOfValue(c);
    DigitCharOfValue(r[0]);
    assert r == [r[0]];
  }

  /** Over twelve digits the cycle [3, 1] gives weight 3 to even positions and 1 to odd ones. */
  lemma UpcSum(p: string)
    requires |p| == 12 && AllDigits(p)
    ensures WeightedSum(p, UpcWeights)
         == 3 * DigitValue(p[0]) + DigitValue(p[1]) + 3 * DigitValue(p[2]) + DigitValue(p[3])
          + 3 * DigitValue(p[4]) + DigitValue(p[5]) + 3 * DigitValue(p[6]) + DigitValue(p[7])
          + 3 * DigitValue(p[8]) + DigitValue(p[9]) + 3 * DigitValue(p[10]) + DigitValue(p[11])
  {
    assert p[..0] == [];
    WeightedSumStep(p, UpcWeights, 0, 3);
    WeightedSumStep(p, UpcWeights, 1, 1);
    WeightedSumStep(p, UpcWeights, 2, 3);
    WeightedSumStep(p, UpcWeights, 3, 1);
    WeightedSumStep(p, UpcWeights, 4, 3);
    WeightedSumStep(p, UpcWeights, 5, 1);
    WeightedSumStep(p, UpcWeights, 6, 3);
    WeightedSumStep(p, UpcWeights, 7, 1);
    WeightedSumStep(p, UpcWeights, 8, 3);
    WeightedSumStep(p, UpcWeights, 9, 1);
    WeightedSumStep(p, UpcWeights, 10, 3);
    WeightedSumStep(p, UpcWeights, 11, 1);
    assert p[..12] == p;
  }

  /** A UPC-A code is valid exactly when the code with a leading '0' is a valid 13-digit code. */
  lemma UpcIsZeroPrefixedIsbn13(code: string)
    ensures ValidateUpc(code) == Ok(true) <==> ValidateIsbn13("0" + code)
  {
    var s := PrepareCodeString(code);
    PrepareConcat("0", code);
    assert PrepareCodeString("0") == "0";
    ValidateUpcIff(code);
    ValidateIsbn13Iff("0" + code);
    if AllDigits(s) {
      ZeroPrefixSwapsWeights(s, 1, 3);
    }
    if IsNumeric("0" + s) {
      assert s == ("0" + s)[1..];
      ZeroPrefixSwapsWeights(s, 1, 3);
    }
  }
}
