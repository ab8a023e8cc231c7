/*
 * Concrete values from the library's unit-test tables, proved of the model,
 * plus a few added examples that show edge cases the tables do not reach.
 * Each example takes its code as a parameter fixed by its precondition, so
 * that the verifier reasons through the lemmas of ChecksumCalculator instead
 * of unfolding every function on the literal.  A code with separators is cut
 * into its clean pieces by a lemma about the literal alone; a lemma about
 * arbitrary clean pieces then removes the separators.
 */
module ChecksumExamples {
  import opened ChecksumCalculator

  // ---------------------------------------------------------------------------
  // Normalising codes that carry separators
  // ---------------------------------------------------------------------------

  /** Normalising a clean piece, a separator and the rest. */
  lemma PrepareAround(a: string, sep: char, b: string)
    requires NoSeparators(a) && IsSeparator(sep)
    ensures PrepareCodeString(a + ([sep] + b)) == a + PrepareCodeString(b)
  {
    PrepareConcat(a, [sep] + b);
    PrepareConcat([sep], b);
    PrepareKeepsClean(a);
  }

  /** A clean piece after a separator, or between two, normalises to the piece. */
  lemma PreparePadded(m: string, s1: char, s2: char)
    requires NoSeparators(m) && IsSeparator(s1) && IsSeparator(s2)
    ensures PrepareCodeString([s1] + m) == m
    ensures PrepareCodeString([s1] + (m + [s2])) == m
  {
    PrepareKeepsClean(m);
    PrepareConcat([s1], m);
    PrepareConcat(m, [s2]);
    PrepareConcat([s1], m + [s2]);
  }

  /** Four clean pieces joined by three separators normalise to the pieces alone. */
  lemma PrepareThreeSeparators(a: string, b: string, c: string, d: string, s1: char, s2: char, s3: char)
    requires NoSeparators(a) && NoSeparators(b) && NoSeparators(c) && NoSeparators(d)
    requires IsSeparator(s1) && IsSeparator(s2) && IsSeparator(s3)
    ensures PrepareCodeString(a + ([s1] + (b + ([s2] + (c + ([s3] + d))))))
         == a + (b + (c + d))
  {
    PrepareKeepsClean(d);
    PrepareAround(c, s3, d);
    PrepareAround(b, s2, c + ([s3] + d));
    PrepareAround(a, s1, b + ([s2] + (c + ([s3] + d))));
  }

  /** Five clean pieces joined by four separators normalise to the pieces alone. */
  lemma PrepareFourSeparators(a: string, b: string, c: string, d: string, e: string,
                              s1: char, s2: char, s3: char, s4: char)
    requires NoSeparators(a) && NoSeparators(b) && NoSeparators(c) && NoSeparators(d) && NoSeparators(e)
    requires IsSeparator(s1) && IsSeparator(s2) && IsSeparator(s3) && IsSeparator(s4)
    ensures PrepareCodeString(a + ([s1] + (b + ([s2] + (c + ([s3] + (d + ([s4] + e))))))))
         == a + (b + (c + (d + e)))
  {
    PrepareThreeSeparators(b, c, d, e, s2, s3, s4);
    PrepareAround(a, s1, b + ([s2] + (c + ([s3] + (d + ([s4] + e))))));
  }

  // Each of the following cuts one literal at its separators and joins the pieces.

  lemma HyphenatedIsbn10Pieces(code: string)
    requires code == "1-55404-295-X"
    ensures code == "1" + ("-" + ("55404" + ("-" + ("295" + ("-" + "X")))))
    ensures "1" + ("55404" + ("295" + "X")) == "155404295X"
  {
  }

  lemma HyphenatedWrongIsbn10Pieces(code: string)
    requires code == "1-55404-294-X"
    ensures code == "1" + ("-" + ("55404" + ("-" + ("294" + ("-" + "X")))))
    ensures "1" + ("55404" + ("294" + "X")) == "155404294X"
  {
  }

  lemma HyphenatedConvertPieces(code: string)
    requires code == "0-34539-180-2"
    ensures code == "0" + ("-" + ("34539" + ("-" + ("180" + ("-" + "2")))))
    ensures "0" + ("34539" + ("180" + "2")) == "0345391802"
  {
  }

  lemma SpacedUpcPieces(code: string)
    requires code == "0 36000 29145 2"
    ensures code == "0" + (" " + ("36000" + (" " + ("29145" + (" " + "2")))))
    ensures "0" + ("36000" + ("29145" + "2")) == "036000291452"
  {
  }

  lemma HyphenatedIsbn13Pieces(code: string)
    requires code == "978-1-86197-876-9"
    ensures code == "978" + ("-" + ("1" + ("-" + ("86197" + ("-" + ("876" + ("-" + "9")))))))
    ensures "978" + ("1" + ("86197" + ("876" + "9"))) == "9781861978769"
  {
  }

  lemma HyphenatedOtherIsbn13Pieces(code: string)
    requires code == "978-1-56619-909-4"
    ensures code == "978" + ("-" + ("1" + ("-" + ("56619" + ("-" + ("909" + ("-" + "4")))))))
    ensures "978" + ("1" + ("56619" + ("909" + "4"))) == "9781566199094"
  {
  }

  lemma PaddedIsbn13Pieces(leading: string, both: string)
    requires leading == " 9781566199094" && both == " 9781566199094 "
    ensures leading == " " + "9781566199094"
    ensures both == " " + ("9781566199094" + " ")
  {
  }

  lemma TabPieces(code: string)
    requires code == "a\tb-c"
    ensures code == "a\tb" + ("-" + "c")
    ensures "a\tb" + "c" == "a\tbc"
  {
  }

  lemma PrepareHyphenatedIsbn10(code: string)
    requires code == "1-55404-295-X"
    ensures PrepareCodeString(code) == "155404295X"
  {
    var a, b, c, d := "1", "55404", "295", "X";
    HyphenatedIsbn10Pieces(code);
    PrepareThreeSeparators(a, b, c, d, '-', '-', '-');
  }

  lemma PrepareHyphenatedWrongIsbn10(code: string)
    requires code == "1-55404-294-X"
    ensures PrepareCodeString(code) == "155404294X"
  {
    var a, b, c, d := "1", "55404", "294", "X";
    HyphenatedWrongIsbn10Pieces(code);
    PrepareThreeSeparators(a, b, c, d, '-', '-', '-');
  }

  lemma PrepareSurroundingSpaces(leading: string, both: string)
    requires leading == " 9781566199094" && both == " 9781566199094 "
    ensures PrepareCodeString(leading) == "9781566199094"
    ensures PrepareCodeString(both) == "9781566199094"
  {
    var m := "9781566199094";
    PaddedIsbn13Pieces(leading, both);
    PreparePadded(m, ' ', ' ');
  }

  lemma PrepareSpacedUpc(code: string)
    requires code == "0 36000 29145 2"
    ensures PrepareCodeString(code) == "036000291452"
  {
    var a, b, c, d := "0", "36000", "29145", "2";
    SpacedUpcPieces(code);
    PrepareThreeSeparators(a, b, c, d, ' ', ' ', ' ');
  }

  lemma PrepareHyphenatedIsbn13(first: string, second: string)
    requires first == "978-1-86197-876-9" && second == "978-1-56619-909-4"
    ensures PrepareCodeString(first) == "9781861978769"
    ensures PrepareCodeString(second) == "9781566199094"
  {
    var a, b, c, d, e := "978", "1", "86197", "876", "9";
    HyphenatedIsbn13Pieces(first);
    PrepareFourSeparators(a, b, c, d, e, '-', '-', '-', '-');
    var c', d', e' := "56619", "909", "4";
    HyphenatedOtherIsbn13Pieces(second);
    PrepareFourSeparators(a, b, c', d', e', '-', '-', '-', '-');
  }

  /** A tab is not a separator: it survives normalisation. */
  lemma PrepareKeepsTab(code: string)
    requires code == "a\tb-c"
    ensures PrepareCodeString(code) == "a\tbc"
  {
    var a, b := "a\tb", "c";
    TabPieces(code);
    PrepareKeepsClean(b);
    PrepareAround(a, '-', b);
  }

  // ---------------------------------------------------------------------------
  // ISBN-10
  // ---------------------------------------------------------------------------

  lemma Isbn10Valid(code: string)
    requires code == "0136091814"
    ensures ValidateIsbn10(code)
  {
    PrepareKeepsClean(code);
    ValidateIsbn10Iff(code);
  }

  lemma Isbn10ValidSecond(code: string)
    requires code == "0553418025"
    ensures ValidateIsbn10(code)
  {
    PrepareKeepsClean(code);
    ValidateIsbn10Iff(code);
  }

  /** The check character 'X' is accepted in either case (the lowercase code is an added example). */
  lemma Isbn10CheckX(upper: string, lower: string)
    requires upper == "155404295X" && lower == "155404295x"
    ensures ValidateIsbn10(upper) && ValidateIsbn10(lower)
  {
    PrepareKeepsClean(upper);
    ValidateIsbn10Iff(upper);
    PrepareKeepsClean(lower);
    ValidateIsbn10Iff(lower);
  }

  lemma Isbn10Hyphenated(code: string)
    requires code == "1-55404-295-X"
    ensures ValidateIsbn10(code)
  {
    PrepareHyphenatedIsbn10(code);
    ValidateIsbn10Iff(code);
  }

  lemma Isbn10HyphenatedWrong(code: string)
    requires code == "1-55404-294-X"
    ensures !ValidateIsbn10(code)
  {
    PrepareHyphenatedWrongIsbn10(code);
    ValidateIsbn10Iff(code);
  }

  lemma Isbn10Invalid(code: string, short: string)
    requires code == "1616550416" && short == "123"
    ensures !ValidateIsbn10(code) && !ValidateIsbn10(short)
  {
    PrepareKeepsClean(code);
    ValidateIsbn10Iff(code);
    PrepareKeepsClean(short);
  }

  lemma Isbn10InvalidSecond(code: string)
    requires code == "3859574859"
    ensures !ValidateIsbn10(code)
  {
    PrepareKeepsClean(code);
    ValidateIsbn10Iff(code);
  }

  // ---------------------------------------------------------------------------
  // ISBN-13
  // ---------------------------------------------------------------------------

  lemma Isbn13Valid(code: string)
    requires code == "9781566199094"
    ensures ValidateIsbn13(code)
  {
    PrepareKeepsClean(code);
    ValidateIsbn13Iff(code);
    Isbn13Sum(code);
  }

  lemma Isbn13Hyphenated(first: string, second: string)
    requires first == "978-1-86197-876-9" && second == "978-1-56619-909-4"
    ensures ValidateIsbn13(first) && ValidateIsbn13(second)
  {
    PrepareHyphenatedIsbn13(first, second);
    ValidateIsbn13Iff(first);
    Isbn13Sum(PrepareCodeString(first));
    ValidateIsbn13Iff(second);
    Isbn13Sum(PrepareCodeString(second));
  }

  lemma Isbn13SurroundingSpaces(leading: string, both: string)
    requires leading == " 9781566199094" && both == " 9781566199094 "
    ensures ValidateIsbn13(leading) && ValidateIsbn13(both)
  {
    PrepareSurroundingSpaces(leading, both);
    ValidateIsbn13Iff(leading);
    ValidateIsbn13Iff(both);
    Isbn13Sum(PrepareCodeString(both));
  }

  lemma Isbn13Invalid(wrong: string, letter: string, isbn10: string)
    requires wrong == "9781566199092" && letter == "978156619909X" && isbn10 == "0136091814"
    ensures !ValidateIsbn13(wrong) && !ValidateIsbn13(letter) && !ValidateIsbn13(isbn10)
  {
    PrepareKeepsClean(wrong);
    ValidateIsbn13Iff(wrong);
    Isbn13Sum(wrong);
    PrepareKeepsClean(letter);
    PrepareKeepsClean(isbn10);
  }

  lemma Isbn13CheckDigitValue(first12: string)
    requires first12 == "978186197876"
    ensures CalculateIsbn13CheckDigit(first12) == Ok("9")
  {
    Isbn13CheckDigitUnique(first12, '9');
    Isbn13Sum(first12 + ['9']);
  }

  lemma Isbn13CheckDigitSecond(first12: string)
    requires first12 == "978156619909"
    ensures CalculateIsbn13CheckDigit(first12) == Ok("4")
  {
    Isbn13CheckDigitUnique(first12, '4');
    Isbn13Sum(first12 + ['4']);
  }

  lemma Isbn13CheckDigitThird(first12: string)
    requires first12 == "978129210176"
    ensures CalculateIsbn13CheckDigit(first12) == Ok("7")
  {
    Isbn13CheckDigitUnique(first12, '7');
    Isbn13Sum(first12 + ['7']);
  }

  lemma Isbn13CheckDigitRejects(short: string, dashed: string)
    requires short == "123" && dashed == "978-1-86197-"
    ensures CalculateIsbn13CheckDigit(short) == FormatException
    ensures CalculateIsbn13CheckDigit(dashed) == FormatException
  {
    assert !IsDigit(dashed[3]);
  }

  // ---------------------------------------------------------------------------
  // Dispatch and conversion
  // ---------------------------------------------------------------------------

  lemma DispatchExamples(isbn10: string, isbn13: string, wrong: string)
    requires isbn10 == "0136091814" && isbn13 == " 9781566199094 " && wrong == "1-55404-294-X"
    ensures ValidateIsbn(isbn10) && ValidateIsbn(isbn13) && !ValidateIsbn(wrong)
  {
    Isbn10Valid(isbn10);
    Isbn13SurroundingSpaces(" 9781566199094", isbn13);
    Isbn10HyphenatedWrong(wrong);
    PrepareHyphenatedWrongIsbn10(wrong);
    ValidateIsbnDispatch(isbn10);
    ValidateIsbnDispatch(isbn13);
    ValidateIsbnDispatch(wrong);
  }

  lemma ConvertValue(code: string)
    requires code == "0201882957"
    ensures ConvertIsbn10To13(code) == Ok("9780201882957")
  {
    PrepareKeepsClean(code);
    ValidateIsbn10Iff(code);
    ConvertedDigits(code);
  }

  lemma ConvertedDigits(code: string)
    requires code == "0201882957" && ValidateIsbn10(code)
    ensures ConvertIsbn10To13(code) == Ok("9780201882957")
  {
    var expected := "9780201882957";
    PrepareKeepsClean(code);
    Isbn13Sum(expected);
    ConvertIsbn10To13Determined(code, expected);
  }

  /** A code converts as its normal form does. */
  lemma ConvertHyphenated(plain: string, hyphenated: string)
    requires plain == "0345391802" && hyphenated == "0-34539-180-2"
    ensures ConvertIsbn10To13(plain) == Ok("9780345391803")
    ensures ConvertIsbn10To13(hyphenated) == Ok("9780345391803")
  {
    var a, b, c, d := "0", "34539", "180", "2";
    HyphenatedConvertPieces(hyphenated);
    PrepareThreeSeparators(a, b, c, d, '-', '-', '-');
    PrepareKeepsClean(plain);
    ValidateIsbn10Iff(plain);
    ConvertedPlainDigits(plain);
  }

  lemma ConvertedPlainDigits(code: string)
    requires code == "0345391802" && ValidateIsbn10(code)
    ensures ConvertIsbn10To13(code) == Ok("9780345391803")
  {
    var expected := "9780345391803";
    PrepareKeepsClean(code);
    Isbn13Sum(expected);
    ConvertIsbn10To13Determined(code, expected);
  }

  lemma ConvertRejects(code: string)
    requires code == "1-55404-294-X"
    ensures ConvertIsbn10To13(code) == FormatException
  {
    Isbn10HyphenatedWrong(code);
  }

  // ---------------------------------------------------------------------------
  // UPC-A
  // ---------------------------------------------------------------------------

  lemma UpcCheckDigitValue(first11: string, twelve: string)
    requires first11 == "79603011497" && twelve == "0871X2143127"
    ensures CalculateUpcCheckDigit(first11) == Ok("7")
    ensures CalculateUpcCheckDigit(twelve) == FormatException
  {
    UpcCheckDigitUnique(first11, '7');
    UpcSum(first11 + ['7']);
  }

  lemma UpcCheckDigitSecond(first11: string)
    requires first11 == "08716214312"
    ensures CalculateUpcCheckDigit(first11) == Ok("7")
  {
    UpcCheckDigitUnique(first11, '7');
    UpcSum(first11 + ['7']);
  }

  lemma UpcValid(code: string)
    requires code == "087162143127"
    ensures ValidateUpc(code) == Ok(true)
  {
    PrepareKeepsClean(code);
    ValidateUpcIff(code);
    UpcSum(code);
  }

  lemma UpcValidSecond(code: string)
    requires code == "796030114977"
    ensures ValidateUpc(code) == Ok(true)
  {
    PrepareKeepsClean(code);
    ValidateUpcIff(code);
    UpcSum(code);
  }

  lemma UpcSpaced(code: string)
    requires code == "0 36000 29145 2"
    ensures ValidateUpc(code) == Ok(true)
  {
    PrepareSpacedUpc(code);
    ValidateUpcIff(code);
    UpcSum(PrepareCodeString(code));
  }

  lemma UpcInvalid(wrong: string, short: string)
    requires wrong == "087162143128" && short == "123"
    ensures ValidateUpc(wrong) == Ok(false) && ValidateUpc(short) == Ok(false)
  {
    PrepareKeepsClean(wrong);
    ValidateUpcIff(wrong);
    UpcSum(wrong);
    assert IsNumeric(wrong[..11]);
    PrepareKeepsClean(short);
  }

  /** A letter among the first eleven of twelve characters makes the validator raise. */
  lemma UpcRaises(code: string)
    requires code == "0871X2143127"
    ensures ValidateUpc(code) == FormatException
  {
    PrepareKeepsClean(code);
    assert !IsDigit(code[..11][4]);
  }
}
