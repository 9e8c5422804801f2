# Passport MRZ reading, modelled in Dafny

This project models the text-processing core of a passport reader. An OCR engine
turns the machine-readable zone (MRZ) of a TD3 passport page into raw text. The
reader then:

1. splits that text into lines and keeps the candidate lines, those whose stripped
   length is at least 25;
2. cleans each candidate (`clean_line`): strip, drop blanks, turn a `K` next to a
   filler `<` into a filler, and collapse every run of three or more fillers to `<<`;
3. pads the first two cleaned lines to 44 characters (`pad44`) and joins them with a
   newline;
4. decodes the two lines (`decode_mrz`) into an identity record. Each checked field
   gets a validity flag computed with the ICAO 9303 check digit: weights 7, 3, 1;
   digits count at face value, `A`-`Z` count 10-35, the filler and every unknown
   character count 0; the check digit is the sum modulo 10.

Modules:

- `Wrappers` (`wrappers.dfy`): `Option` and `Result`.
- `Text` (`text.dfy`): the Python string built-ins the core relies on:
  - `str.strip` over every character `str.isspace` accepts;
  - `rstrip('<')`, `replace`, `ljust`, ASCII `upper`;
  - `str.splitlines` with all of its line boundaries, `\r\n` counting as one;
  - character filtering.
- `Lists` (`lists.dfy`): the filtering list comprehension `[f(x) for x in xs if p(x)]`
  and which inputs its first results come from.
- `MrzDecoder` (`mrz_decoder.dfy`): the check digit, both as a function and as the
  source's accumulating loop; `safe_digit`; the name field; `decode_mrz`; and the
  ICAO 9303 specimen passport.
- `PassportOcr` (`passport_ocr.dfy`):
  - each step of `clean_line`, with a pointwise reading of the filler collapse;
  - `pad44`, the candidate filter and the two-line assembly;
  - the end-to-end link to the decoder.

`decode_mrz` raises `ValueError` when the zone is not two lines of 44 characters. The
model returns `Err(ShapeError)` in that case, with the same message, and returns
`Ok(record)` otherwise. A wrong check digit is never an error: it only sets that
field's flag to `false`.

## Model

| member | source | states |
|---|---|---|
| MrzDecoder.CharValue | utils/mrz_decoder.py:4-7 | every value is below 36, and only a digit or a capital letter has a non-zero value (the filler and unknown characters count 0), and a digit's value is the one `safe_digit` reads |
| MrzDecoder.Weight | utils/mrz_decoder.py:9-10 | the weight of a position is 7, 3 or 1 |
| MrzDecoder.Checksum | utils/mrz_decoder.py:12-21 | the check digit is a single decimal digit |
| MrzDecoder.ComputeChecksum | utils/mrz_decoder.py:12-21 | the accumulating loop returns the check digit of the field: the weighted sum of all its characters modulo 10 |
| MrzDecoder.SafeDigit | utils/mrz_decoder.py:23-25 | the result is -1 exactly for a non-digit, and otherwise the digit's value (the character is that digit) |
| MrzDecoder.DigitChar | utils/mrz_decoder.py:23-25 | the digit written back as a character is a digit that `safe_digit` reads as the same value |
| MrzDecoder.CheckDigitHolds | utils/mrz_decoder.py:60-63 | a validity flag is true exactly when the check character is the digit of the field's check digit |
| MrzDecoder.UnknownCharsScoreAsFiller | utils/mrz_decoder.py:18 | replacing every character outside the MRZ alphabet by the filler keeps the check digit |
| MrzDecoder.FillerFieldChecksumZero | utils/mrz_decoder.py:12-21 | a field of fillers only has check digit 0 |
| MrzDecoder.SingleDigitChangeDetected | utils/mrz_decoder.py:12-21 | replacing one digit of a field by a different digit always changes the check digit |
| MrzDecoder.LetterDigitCollision | utils/mrz_decoder.py:5-21 | in every field, a `0` at any position read as `A` leaves the check digit unchanged: this misreading is never detected |
| MrzDecoder.SeparatorIndex | utils/mrz_decoder.py:42 | the index found holds the first `<<` of the string, or is its length when there is none |
| MrzDecoder.ParseName | utils/mrz_decoder.py:41-44 | neither name part contains a filler, and a field without `<<` yields empty given names |
| MrzDecoder.NameRoundTrip | utils/mrz_decoder.py:41-44 | a surname and given names written into the 39-character name field (words joined by `<`, parts by `<<`, filler padding) are read back unchanged |
| MrzDecoder.Composite | utils/mrz_decoder.py:66-72 | the composite is columns 0-9 and 13-42 of line 2, 40 characters: it includes the sex and leaves out the nationality |
| MrzDecoder.DecodeLines | utils/mrz_decoder.py:36-91 | every field is the slice of its columns; the personal number loses only its trailing fillers; each validity flag holds exactly when its check character is the check digit of its span; surname and given names are the name field `l1[5..]` as `ParseName` reads it, so they hold no filler |
| MrzDecoder.DecodeMrz | utils/mrz_decoder.py:27-34 | decoding fails, with the source's message, exactly when the text does not split into two lines of 44 characters, and otherwise returns the record of those two lines |
| MrzDecoder.DecodeTwoLines | utils/mrz_decoder.py:32-34 | two 44-character lines without line boundaries joined by a newline always decode, to the record of those lines |
| MrzDecoder.DobCheckCharIsolated | utils/mrz_decoder.py:61-73 | changing the date-of-birth check character (column 19) changes at most the date-of-birth flag and the final flag |
| MrzDecoder.CompositeSumByField | utils/mrz_decoder.py:66-73 | the composite's weighted sum is the sum of the line-2 fields, each weighted from the position the composite gives it |
| MrzDecoder.StandardCompositeSumByField | utils/mrz_decoder.py:66-73 | the same for the composite of ICAO Doc 9303 Part 4 section 4.2.2, to compare with the code's |
| MrzDecoder.SpecimenCompositeSums | utils/mrz_decoder.py:66-73 | on the ICAO specimen, the code's composite sums to 819 and the standard composite to 880 |
| MrzDecoder.SpecimenDecodes | utils/mrz_decoder.py:27-91 | the ICAO specimen decodes to ERIKSSON / ANNA MARIA with all four field flags true and the final flag false, because the code's composite has check digit 9 where the specimen prints 0 |
| Text.Strip | utils/passport_ocr.py:70 | the result has no whitespace at either end, is empty exactly when the input is all whitespace, and a string without edge whitespace is kept |
| Text.StripIsInfix | utils/passport_ocr.py:70 | the stripped line is a contiguous slice of the input, and every character outside that slice is whitespace |
| Text.TrimRight | utils/mrz_decoder.py:88 | `rstrip('<')`: the result is a prefix not ending in a filler, and everything cut off is fillers |
| Text.SplitLines | utils/mrz_decoder.py:32 | no line holds a line boundary |
| Text.SplitJoin | utils/mrz_decoder.py:32 | splitting lines joined by newlines gives back those lines |
| Text.SplitTwoLines | utils/mrz_decoder.py:32 | two lines without boundaries joined by one newline split into exactly those two |
| Text.ReplaceChar | utils/mrz_decoder.py:43-44 | `replace` of one character: the length is kept, every occurrence of the old character becomes the new one, every other character is kept, and none of the old is left |
| Text.LeftJustify | utils/passport_ocr.py:91 | `ljust`: the input is kept as a prefix and the rest, up to the width, is the fill character |
| Text.Keep | utils/passport_ocr.py:88 | every kept character satisfies the test, and a string whose characters all do is kept whole |
| Text.KeepIsFilter | utils/passport_ocr.py:88 | the filter takes nothing that was not in the input, and every character passing the test survives as often as it occurs |
| Text.Upper | utils/passport_ocr.py:88 | ASCII `upper()`: the length is kept, each lower-case letter becomes its capital, and every other character is kept |
| Lists.Comprehension | utils/passport_ocr.py:79 | the comprehension is never longer than its input |
| Lists.ComprehensionImages | utils/passport_ocr.py:79 | every result is `f(x)` for some element `x` of the input that the test selects |
| Lists.FirstWhere | utils/passport_ocr.py:79 | the index found is the first selected element at or after the start |
| Lists.ComprehensionFrom | utils/passport_ocr.py:79 | the comprehension starts with the first selected element and continues after it |
| Lists.FirstTwoResults | utils/passport_ocr.py:79 | there are two results exactly when two elements are selected, and the first two results come from the first two selected elements |
| Lists.TwoResultsIff | utils/passport_ocr.py:79 | there are two results exactly when some element is selected before another selected one |
| PassportOcr.RemoveBlanks | utils/passport_ocr.py:70 | the result holds no blank, and a string without blanks is kept |
| PassportOcr.RemoveBlanksKeepsOthers | utils/passport_ocr.py:70 | removing blanks takes nothing else away: every other character survives as often as it occurs |
| PassportOcr.KBeforeFiller | utils/passport_ocr.py:73 | a `K` becomes a filler exactly when the next character is a filler; every other character is kept |
| PassportOcr.KAfterFiller | utils/passport_ocr.py:74 | a `K` becomes a filler exactly when the previous character of the step's input is a filler; every other character is kept |
| PassportOcr.TrailingK | utils/passport_ocr.py:75 | the `K` directly in front of a trailing run of fillers becomes a filler, and a string without one is kept |
| PassportOcr.CollapseFillers | utils/passport_ocr.py:76 | the collapse never lengthens a string and empties only the empty string |
| PassportOcr.CollapseHasNoTriple | utils/passport_ocr.py:76 | the collapsed string holds no three fillers in a row |
| PassportOcr.CollapseDrawsFromInput | utils/passport_ocr.py:76 | every character of the collapsed string occurs in the input |
| PassportOcr.CollapseKeepsNoTriple | utils/passport_ocr.py:76 | a string without three fillers in a row is kept |
| PassportOcr.CollapseIdempotent | utils/passport_ocr.py:76 | collapsing twice is collapsing once |
| PassportOcr.CollapseShortens | utils/passport_ocr.py:76 | a string with three fillers in a row comes out strictly shorter |
| PassportOcr.CollapseKeepsOthers | utils/passport_ocr.py:76 | the collapse drops fillers only: the other characters stay, in order |
| PassportOcr.CollapseIsPointwise | utils/passport_ocr.py:76 | the collapse drops exactly the fillers that follow two fillers |
| PassportOcr.CleanLine | utils/passport_ocr.py:64-77 | the cleaned line is no longer than the input, and is empty exactly when the input is all whitespace |
| PassportOcr.CleanLineForm | utils/passport_ocr.py:64-77 | a cleaned line holds no blank and no three fillers in a row |
| PassportOcr.CleanLineKeepsPlain | utils/passport_ocr.py:64-77 | cleaning keeps every character other than blank, filler and `K` of the stripped line, in order |
| PassportOcr.CleanLineSteps | utils/passport_ocr.py:70-76 | on a stripped line without blanks, cleaning is the three `K` rewrites followed by the collapse |
| PassportOcr.CleanLineKeepsCleanLine | utils/passport_ocr.py:64-77 | a stripped line without blanks, without a `K` next to a filler and without three fillers in a row is kept |
| PassportOcr.CleanLineTrailingGlitch | utils/passport_ocr.py:73-76 | a word followed by `K` and one or more fillers is cleaned to the word followed by `<<` |
| PassportOcr.CleanLineNotIdempotent | utils/passport_ocr.py:73-76 | `KK<a` cleans to `K<<a`, which cleans again to `<<a`: cleaning is not idempotent |
| PassportOcr.MrzChars | utils/passport_ocr.py:88 | the result keeps only MRZ characters and is no longer than the input |
| PassportOcr.MrzCharsKeepsAlphabet | utils/passport_ocr.py:88 | every `A`-`Z`, `0`-`9` or `<` of the upper-cased line survives the filter as often as it occurs, and nothing else is added |
| PassportOcr.Pad44 | utils/passport_ocr.py:81-91 | the result has 44 MRZ characters; a short line is kept and filled up with fillers; a long line keeps its first 43 characters and its last one |
| PassportOcr.UpperKeepsMrzChars | utils/passport_ocr.py:88 | upper-casing leaves MRZ characters alone |
| PassportOcr.Pad44KeepsMrzLine | utils/passport_ocr.py:81-91 | a 44-character line of MRZ characters is kept |
| PassportOcr.Pad44Idempotent | utils/passport_ocr.py:81-91 | padding twice is padding once |
| PassportOcr.IsCandidate | utils/passport_ocr.py:79 | a candidate line has at least 25 characters and never cleans to the empty line |
| PassportOcr.CleanCandidates | utils/passport_ocr.py:79 | there are no more cleaned lines than raw lines, and each cleaned line is the cleaning of a raw candidate line |
| PassportOcr.Assemble | utils/passport_ocr.py:93-95 | a text is built exactly when there are two cleaned lines: 89 characters, the two padded lines with a newline between them |
| PassportOcr.AssemblePicksFirstTwo | utils/passport_ocr.py:79-95 | the text is built exactly when two candidate lines exist, from the first two, cleaned and padded, in order |
| PassportOcr.ReconstructNoneIff | utils/passport_ocr.py:79-95 | no text is built exactly when no two raw lines are candidates |
| PassportOcr.AssembledDecodes | utils/passport_ocr.py:93-95 | the text built always decodes, to the record of the two padded lines |
| PassportOcr.ReconstructionDecodes | utils/passport_ocr.py:93-95 | whenever the raw OCR text yields an MRZ text, the decoder accepts it and reads its two halves |
| PassportOcr.MrzLineSurvives | utils/passport_ocr.py:64-91 | a 44-character MRZ line without a `K` next to a filler and without three fillers in a row is a candidate and is cleaned and padded to itself |
| PassportOcr.CleanPairSurvives | utils/passport_ocr.py:79-95 | two such lines joined by a newline pass the whole pipeline unchanged |
| PassportOcr.FillerRunShiftsLine | utils/passport_ocr.py:76-91 | a 44-character MRZ line with three fillers in a row that ends in a check digit is changed: its last column becomes a filler |
| PassportOcr.SpecimenLine2Shifted | utils/passport_ocr.py:76-91 | the specimen's second line is damaged by the pipeline: its final check digit is replaced by a filler |

## Where the code does what a reader may not expect

The model follows the code in each of these cases.

- **Cleaning is not idempotent.** The collapse alone is idempotent (`CollapseIdempotent`),
  but the whole of `clean_line` is not (`CleanLineNotIdempotent`). On `KK<a` the
  look-ahead rewrite of `utils/passport_ocr.py:73` changes only the second `K`, the
  one directly in front of the filler, giving `K<<a`; no other rule applies. A second
  cleaning then turns the remaining `K`, now in front of a filler, into one, and the
  collapse leaves `<<a`.
- **The `JOHNK<<<<` comment.** The comment at `utils/passport_ocr.py:75` gives
  `JOHN<<<<` for that line. The first rewrite already turns that `K` into a filler,
  and the collapse then leaves `JOHN<<` (`CleanLineTrailingGlitch`).
- **The `pad44` docstring.** It promises to "trim fillers before" the kept last
  character of an over-long line. The code truncates to the first 43 characters plus
  the last one, whatever they are (`Pad44`).
- **The final check digit.** The code's composite includes the sex (column 20). The
  composite of ICAO Doc 9303 Part 4 section 4.2.2 covers columns 0-9, 13-19 and 21-42
  and leaves the sex out. On the ICAO specimen the code's composite has check digit 9,
  while the printed digit is 0 (`SpecimenDecodes`, `SpecimenCompositeSums`). So the
  code reports the specimen's final check as failing, although the specimen is correct.
- **The filler collapse on line 2.** The collapse of filler runs to `<<`, the name
  separator, runs on every candidate line, line 2 included. There a run of three or more fillers, such as the padding
  of a short personal number, is shortened. `pad44` then refills the line at its end,
  so the check digits move left and column 43 becomes a filler (`FillerRunShiftsLine`).
  The ICAO specimen's own second line is damaged this way (`SpecimenLine2Shifted`).

## Left out

- The visual-zone OCR, the image handling (OpenCV thresholding and cropping) and the
  Tesseract call of `extract_viz_and_mrz`: the raw OCR text of the zone is the input
  of the model.
- The Streamlit display calls, `utils/storage.py`, `utils/face_utils.py` and `app.py`:
  user interface, persistence and face matching, outside the text core.
- Text.Upper: models `str.upper` on ASCII letters only. Python's Unicode upper-casing
  can turn one character into several (`ß` into `SS`), which could add `A`-`Z`
  characters before the MRZ filter.
- MrzDecoder.SafeDigit: models `isdigit` on ASCII digits only. Python also accepts
  other Unicode digits. For a Unicode decimal digit such as `'٣'`, `int` succeeds and
  `safe_digit` returns its value (3), so a flag can be true where the model says false.
  For a digit such as `'²'`, `int` raises. Text that comes through `pad44` holds only
  MRZ characters, on which the model is exact.
- PassportOcr.Reconstruct: carries no contract of its own. Which lines it takes is
  stated over the split text (`AssemblePicksFirstTwo`, since `Reconstruct` is
  `Assemble(CleanCandidates(SplitLines(raw)))`), and what the decoder makes of its
  result is stated in `ReconstructionDecodes` and `ReconstructNoneIff`.
