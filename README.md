# Verified model of a product-code check-digit library

This project models `ChecksumCalculator`. It is a stateless library of static methods that validates product codes and computes their check digits:

- ISBN-10: modulus 11, with `X` standing for 10, as in ISO 2108.
- ISBN-13 and UPC-A: the GS1 modulo-10 check digit, as in section 7.9 of the GS1 General Specifications.

Every format uses one primitive: a weighted sum of the digits, with the weights applied cyclically. That primitive returns `(m - sum % m) % m`. The formats sit on top of it:

- a normaliser that deletes `-` and ASCII space;
- validators for ISBN-10, ISBN-13 and UPC-A;
- check-digit calculators for ISBN-13 and UPC-A;
- an ISBN-10 to ISBN-13 converter;
- a dispatcher that validates either kind of ISBN.

Files:

- `checksum_calculator.dfy` holds module `ChecksumCalculator`, which is the library.
  - The accumulating loop of `calc_weighted_sum_check_digit` is the method `CalcWeightedSumCheckDigit`. Its loop invariant ties it to the specification function `WeightedSum`.
  - Every other static method is pure, so it is a function. These functions use `WeightedCheckDigit`, the function that the method is proved to compute.
  - The library's one exception, `FormatException`, is a variant of `Result<T>`.
  - Each operation comes with a partner lemma: a reference formula, an inverse direction, or an invariant.
- `checksum_examples.dfy` holds module `ChecksumExamples`. It contains values from the library's unit-test tables, proved as lemmas about the model. A few added examples show cases the tables do not reach: a lowercase `x` check character, a tab in a code, and a 12-character code with a letter that makes `validate_upc` raise. Each row below says which values are added.

In these places the code's behaviour is narrower or rougher than its method names suggest. The model follows the code:

- The normaliser removes only `'-'` and `' '`. Tabs, newlines and other whitespace are kept, as `PrepareKeepsTab` shows.
- `validate_isbn` passes the *normalised* string to the sub-validator. Because normalisation is idempotent, the answer is the same as on the original string (`ValidateIsbnDispatch`).
- `validate_upc` does not always answer `False` on malformed input. A code that normalises to twelve characters with a non-digit among the first eleven makes `calculate_upc_checkdigit` raise. The model returns `FormatException` there (`ValidateUpc`, `UpcRaises`).
- `validate_isbn13` compares the computed check digit with the last digit. Its partner lemma proves that this is the same as requiring the weighted sum of all 13 digits to be 0 mod 10.

## Model

| member | source | states |
|---|---|---|
| `ChecksumCalculator.RemoveAll` | small_exercises.py:8-9 | `str.replace(c, "")`: the result contains no `c`, is no longer than the input and contains only characters of the input |
| `ChecksumCalculator.PrepareCodeString` | small_exercises.py:7-10 | the normalised code contains no `-` and no space, and is no longer than the input |
| `ChecksumCalculator.PrepareIsFilter` | small_exercises.py:7-10 | the two replace passes equal a one-pass, order-preserving filter that keeps exactly the characters that are neither `-` nor space |
| `ChecksumCalculator.PrepareConcat` | small_exercises.py:7-10 | normalising `a + b` gives normalised `a` followed by normalised `b`, so the kept characters keep their order |
| `ChecksumCalculator.PrepareKeepsClean` | small_exercises.py:7-10 | a string without separators is returned unchanged |
| `ChecksumCalculator.PrepareIdempotent` | small_exercises.py:7-10 | normalising twice is the same as normalising once |
| `ChecksumCalculator.PrepareCounts` | small_exercises.py:7-10 | every separator disappears, and every other character keeps its number of occurrences |
| `ChecksumCalculator.CheckValue` | small_exercises.py:34 | `(m - sum % m) % m` lies in `[0, m)` and makes `sum + r` a multiple of `m` |
| `ChecksumCalculator.CheckValueUnique` | small_exercises.py:20-22 | the check value is the only value in `[0, m)` that makes `sum + x` a multiple of `m` |
| `ChecksumCalculator.WeightedCheckDigit` | small_exercises.py:13-35 | the result is in `[0, modulus)` and completes the weighted sum, where digit `i` has weight `weights[i % len(weights)]`, to a multiple of the modulus |
| `ChecksumCalculator.CalcWeightedSumCheckDigit` | small_exercises.py:29-35 | the loop computes `WeightedCheckDigit`, in range and completing the weighted sum to a multiple of the modulus; an empty weight list is accepted when the code string is empty |
| `ChecksumCalculator.ZeroPrefixSwapsWeights` | small_exercises.py:31-33 | a leading `0` digit swaps a two-weight cycle `[a, b]` to `[b, a]` for the remaining digits |
| `ChecksumCalculator.ValidateIsbn10` | small_exercises.py:38-50 | returns False unless the normalised code has ten characters: nine digits, then a digit or `x`/`X` |
| `ChecksumCalculator.Isbn10PrefixSum` | small_exercises.py:46-48 | weights `[10..2]` over nine digits give the sum of `d_i * (10 - i)` |
| `ChecksumCalculator.Isbn10WeightedSum` | small_exercises.py:46-50 | that sum plus the value of the check character, with `X` = 10, is the reference ISBN-10 sum |
| `ChecksumCalculator.ValidateIsbn10Iff` | small_exercises.py:38-50 | valid exactly when the shape holds and the sum of `d_i * (10 - i)` over all ten characters, with `X` = 10, is 0 mod 11; the last character is compared case-insensitively |
| `ChecksumCalculator.CalculateIsbn13CheckDigit` | small_exercises.py:72-78 | raises exactly when the argument is not twelve digits, with no normalisation; otherwise returns one digit that makes the 13-digit `[1, 3]` weighted sum 0 mod 10 |
| `ChecksumCalculator.Isbn13CheckDigitUnique` | small_exercises.py:72-78 | the returned digit is the only digit that completes the twelve to a sum that is 0 mod 10 |
| `ChecksumCalculator.Isbn13Sum` | small_exercises.py:75-77 | over thirteen digits the cycle `[1, 3]` gives weight 1 to even positions and 3 to odd ones |
| `ChecksumCalculator.ValidateIsbn13` | small_exercises.py:53-58 | returns False unless the normalised code is thirteen digits, and never raises |
| `ChecksumCalculator.ValidateIsbn13Iff` | small_exercises.py:53-58 | valid exactly when the normalised code is thirteen digits whose `[1, 3]` weighted sum is 0 mod 10 |
| `ChecksumCalculator.ValidateIsbn` | small_exercises.py:61-69 | returns False when the normalised length is neither 10 nor 13 |
| `ChecksumCalculator.ValidateIsbnDispatch` | small_exercises.py:61-69 | the dispatcher, given the normalised string, accepts exactly what the ISBN-10 or the ISBN-13 validator accepts on the original string |
| `ChecksumCalculator.ConvertIsbn10To13` | small_exercises.py:81-90 | raises exactly when ISBN-10 validation fails; otherwise returns 13 characters, `978`, then the first nine normalised characters, then a check digit, and the result passes ISBN-13 validation |
| `ChecksumCalculator.ConvertIsbn10To13Injective` | small_exercises.py:81-90 | two inputs converted to the same code agree in their nine payload digits and, up to letter case, in their check character |
| `ChecksumCalculator.ConvertIsbn10To13Determined` | small_exercises.py:81-90 | for a valid ISBN-10, any 13-digit code made of `978`, the first nine normalised characters and a digit that makes the `[1, 3]` weighted sum 0 mod 10 is exactly what the converter returns |
| `ChecksumCalculator.ConvertedIsValidIsbn` | small_exercises.py:81-90 | a converted code passes the ISBN dispatcher |
| `ChecksumCalculator.CalculateUpcCheckDigit` | small_exercises.py:93-99 | raises exactly when the argument is not eleven digits; otherwise returns one digit that makes the 12-digit `[3, 1]` weighted sum 0 mod 10 |
| `ChecksumCalculator.UpcCheckDigitUnique` | small_exercises.py:93-99 | the returned digit is the only digit that completes the eleven to a sum that is 0 mod 10 |
| `ChecksumCalculator.UpcSum` | small_exercises.py:96-98 | over twelve digits the cycle `[3, 1]` gives weight 3 to even positions and 1 to odd ones |
| `ChecksumCalculator.ValidateUpc` | small_exercises.py:102-107 | answers False when the normalised length is not 12, and raises exactly when it is 12 with a non-digit among the first eleven |
| `ChecksumCalculator.ValidateUpcIff` | small_exercises.py:102-107 | answers True exactly when the normalised code is twelve digits whose `[3, 1]` weighted sum is 0 mod 10 |
| `ChecksumCalculator.UpcIsZeroPrefixedIsbn13` | small_exercises.py:93-107 | a UPC-A code is valid exactly when the same code with a leading `0` passes the 13-digit validator, as the GS1 scheme promises |
| `ChecksumExamples.PrepareAround` | small_exercises.py:7-10 | a clean piece, a separator and a rest normalise to the piece followed by the normalised rest |
| `ChecksumExamples.PreparePadded` | small_exercises.py:7-10 | a clean piece after one separator, or between two, normalises to the piece |
| `ChecksumExamples.PrepareThreeSeparators` | small_exercises.py:7-10 | four clean pieces joined by three separators normalise to the four pieces joined directly |
| `ChecksumExamples.PrepareFourSeparators` | small_exercises.py:7-10 | five clean pieces joined by four separators normalise to the five pieces joined directly |
| `ChecksumExamples.PrepareHyphenatedIsbn10` | tests/test_small_exercises.py:13 | `"1-55404-295-X"` normalises to `"155404295X"` |
| `ChecksumExamples.PrepareHyphenatedWrongIsbn10` | tests/test_small_exercises.py:14 | `"1-55404-294-X"` normalises to `"155404294X"` |
| `ChecksumExamples.PrepareSurroundingSpaces` | tests/test_small_exercises.py:25-27 | `" 9781566199094"` and `" 9781566199094 "` both normalise to `"9781566199094"` |
| `ChecksumExamples.PrepareSpacedUpc` | tests/test_small_exercises.py:54 | `"0 36000 29145 2"` normalises to `"036000291452"` |
| `ChecksumExamples.PrepareHyphenatedIsbn13` | tests/test_small_exercises.py:20-21 | `"978-1-86197-876-9"` and `"978-1-56619-909-4"` normalise to their thirteen digits |
| `ChecksumExamples.PrepareKeepsTab` | small_exercises.py:8-9 | added example: a tab survives normalisation, and only the hyphen is removed |
| `ChecksumExamples.Isbn10Valid` | tests/test_small_exercises.py:8 | `"0136091814"` is a valid ISBN-10 |
| `ChecksumExamples.Isbn10ValidSecond` | tests/test_small_exercises.py:10 | `"0553418025"` is a valid ISBN-10 |
| `ChecksumExamples.Isbn10CheckX` | tests/test_small_exercises.py:12 | `"155404295X"` is valid, and so is the added lowercase `"155404295x"`, because line 50 of the library lowers the check character |
| `ChecksumExamples.Isbn10Hyphenated` | tests/test_small_exercises.py:13 | `"1-55404-295-X"` is valid |
| `ChecksumExamples.Isbn10HyphenatedWrong` | tests/test_small_exercises.py:14 | `"1-55404-294-X"` is invalid |
| `ChecksumExamples.Isbn10Invalid` | tests/test_small_exercises.py:7-9 | `"1616550416"` and `"123"` are invalid |
| `ChecksumExamples.Isbn10InvalidSecond` | tests/test_small_exercises.py:11 | `"3859574859"` is invalid |
| `ChecksumExamples.Isbn13Valid` | tests/test_small_exercises.py:22 | `"9781566199094"` is a valid ISBN-13 |
| `ChecksumExamples.Isbn13Hyphenated` | tests/test_small_exercises.py:20-21 | `"978-1-86197-876-9"` and `"978-1-56619-909-4"` are valid |
| `ChecksumExamples.Isbn13SurroundingSpaces` | tests/test_small_exercises.py:25-27 | `" 9781566199094"` and `" 9781566199094 "` are valid |
| `ChecksumExamples.Isbn13Invalid` | tests/test_small_exercises.py:19-24 | `"9781566199092"`, `"978156619909X"` and the ISBN-10 `"0136091814"` are invalid ISBN-13s |
| `ChecksumExamples.Isbn13CheckDigitValue` | tests/test_small_exercises.py:40 | the check digit of `"978186197876"` is `"9"` |
| `ChecksumExamples.Isbn13CheckDigitSecond` | tests/test_small_exercises.py:41 | the check digit of `"978156619909"` is `"4"` |
| `ChecksumExamples.Isbn13CheckDigitThird` | tests/test_small_exercises.py:42 | the check digit of `"978129210176"` is `"7"` |
| `ChecksumExamples.Isbn13CheckDigitRejects` | tests/test_small_exercises.py:92-97 | `"123"` and `"978-1-86197-"` raise |
| `ChecksumExamples.DispatchExamples` | tests/test_small_exercises.py:69-76 | the dispatcher accepts the ISBN-10 `"0136091814"` and the space-padded ISBN-13 `" 9781566199094 "`, and rejects `"1-55404-294-X"` |
| `ChecksumExamples.ConvertValue` | tests/test_small_exercises.py:31 | `"0201882957"` converts to `"9780201882957"` |
| `ChecksumExamples.ConvertHyphenated` | tests/test_small_exercises.py:35-36 | `"0345391802"` and `"0-34539-180-2"` both convert to `"9780345391803"` |
| `ChecksumExamples.ConvertRejects` | tests/test_small_exercises.py:82-85 | converting `"1-55404-294-X"` raises |
| `ChecksumExamples.UpcCheckDigitValue` | tests/test_small_exercises.py:99-104 | the check digit of `"79603011497"` is `"7"`, and the twelve-character `"0871X2143127"` raises |
| `ChecksumExamples.UpcCheckDigitSecond` | tests/test_small_exercises.py:47 | the check digit of `"08716214312"` is `"7"` |
| `ChecksumExamples.UpcValid` | tests/test_small_exercises.py:51 | `"087162143127"` is a valid UPC-A |
| `ChecksumExamples.UpcValidSecond` | tests/test_small_exercises.py:53 | `"796030114977"` is a valid UPC-A |
| `ChecksumExamples.UpcSpaced` | tests/test_small_exercises.py:54 | `"0 36000 29145 2"` is valid |
| `ChecksumExamples.UpcInvalid` | tests/test_small_exercises.py:52-55 | `"087162143128"` and `"123"` are invalid |
| `ChecksumExamples.UpcRaises` | small_exercises.py:104-106 | added example: validating `"0871X2143127"` raises instead of answering False |

## Left out

- "Numeric" is modelled as ASCII `'0'..'9'` only. Python's `str.isnumeric()` also accepts other Unicode numerals such as `'²'` or `'½'`, and `int()` then fails or reads another value. The model does not cover those characters.
- `str.lower()` is modelled as ASCII case folding (`ToLower`). The library lowers only the tenth ISBN-10 character. It checks that character against `"x"` in the guard, and then compares it with the rendered check value, which is a digit string or `"x"`. `ToLower` leaves digits unchanged, and only `x` and `X` lower to `"x"`, so both comparisons are exact.
- The exception's message text is not modelled. Every failure is the single `FormatException` variant.
- The default argument `modulus = 10` of `calc_weighted_sum_check_digit` is not modelled. Every call site passes the modulus explicitly.
- `CalcWeightedSumCheckDigit` and `WeightedCheckDigit` require an all-digit string, a positive modulus, and a non-empty weight list unless the string is empty. An empty list with an empty string is allowed: the loop body never runs and the result is 0, as in Python. With a zero modulus, or with an empty list and a non-empty string, Python raises `ZeroDivisionError`. With a non-digit, `int()` raises `ValueError`. No caller in the library triggers any of these.
- Python's `%` floors and Dafny's `%` is Euclidean. The two agree for a positive modulus, which is the only case modelled.
- The empty `if __name__ == '__main__'` block and the unittest runner are not modelled. The test tables appear as example lemmas.
