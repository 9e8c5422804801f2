/**
 * The MRZ field decoder: the ICAO 9303 check digit and the decoding of a
 * TD3 machine-readable zone (two lines of 44 characters) into an identity record
 * with one validity flag per checked field.
 */
module MrzDecoder {
  import opened Wrappers
  import opened Text

  const Filler: char := '<'
  const LineLength: nat := 44

  /** The message of the one error `decode_mrz` raises. */
  const ShapeError: string := "MRZ must be two lines of length 44 each"

  /** The characters of the MRZ alphabet: `0-9`, `A-Z` and the filler. */
  predicate IsMrzChar(c: char) {
    '0' <= c <= '9' || 'A' <= c <= 'Z' || c == Filler
  }

  predicate IsDigit(c: char) {
    '0' <= c <= '9'
  }

  // ---------------------------------------------------------------------------
  // Check digit

  /** The character-value table, with value 0 for the filler and for every unknown character. */
  function CharValue(c: char): (v: nat)
    ensures v < 36
    ensures v != 0 ==> IsMrzChar(c) && c != Filler
    ensures IsDigit(c) ==> v == SafeDigit(c)
  {
    if '0' <= c <= '9' then c as int - '0' as int
    else if 'A' <= c <= 'Z' then c as int - 'A' as int + 10
    else 0
  }

  /** The weights, cycled by position. */
  const Weights: seq<nat> := [7, 3, 1]

  function Weight(i: nat): (w: nat)
    ensures w == 7 || w == 3 || w == 1
  {
    Weights[i % 3]
  }

  /** The weighted sum of `field[i..]`, each character weighted by its position in `field`. */
  function WeightedSumFrom(field: string, i: nat): nat
    requires i <= |field|
    decreases |field| - i
  {
    if i == |field| then 0
    else CharValue(field[i]) * Weight(i) + WeightedSumFrom(field, i + 1)
  }

  /** The check digit of a field: its weighted sum modulo 10. */
  function Checksum(field: string): (d: nat)
    ensures d < 10
  {
    WeightedSumFrom(field, 0) % 10
  }

  /** `_checksum`: the accumulating loop over the field. */
  method ComputeChecksum(field: string) returns (d: nat)
    ensures d == Checksum(field)
  {
    var total: nat := 0;
    for i := 0 to |field|
      invariant total + WeightedSumFrom(field, i) == WeightedSumFrom(field, 0)
    {
      var val := CharValue(field[i]);
      var weight := Weight(i);
      total := total + val * weight;
    }
    d := total % 10;
  }

  /** The decimal digit `d` as a character. */
  function DigitChar(d: nat): (c: char)
    requires d < 10
    ensures IsDigit(c) && SafeDigit(c) == d
  {
    ('0' as int + d) as char
  }

  /** `safe_digit`: the value of a decimal digit, and -1 for every other character. */
  function SafeDigit(c: char): (d: int)
    ensures -1 <= d <= 9
    ensures d == -1 <==> !IsDigit(c)
    ensures d != -1 ==> c == ('0' as int + d) as char
  {
    if IsDigit(c) then c as int - '0' as int else -1
  }

  /** A field's check character holds when it is a digit and equals the field's check digit. */
  function CheckDigitHolds(span: string, check: char): (ok: bool)
    ensures ok <==> check == DigitChar(Checksum(span))
  {
    var ck := SafeDigit(check);
    ck != -1 && Checksum(span) == ck
  }

  // ---------------------------------------------------------------------------
  // Properties of the check digit

  lemma {:induction false} SameValuesSameSum(s: string, t: string, i: nat)
    requires |s| == |t| && i <= |s|
    requires forall k :: i <= k < |s| ==> CharValue(s[k]) == CharValue(t[k])
    ensures WeightedSumFrom(s, i) == WeightedSumFrom(t, i)
    decreases |s| - i
  {
    if i < |s| {
      SameValuesSameSum(s, t, i + 1);
    }
  }

  /** `field` with every character outside the MRZ alphabet replaced by the filler. */
  function Sanitize(field: string): (r: string)
    ensures |r| == |field| && forall i :: 0 <= i < |r| ==> IsMrzChar(r[i])
  {
    seq(|field|, i requires 0 <= i < |field| => if IsMrzChar(field[i]) then field[i] else Filler)
  }

  /** Unknown characters score like the filler, so replacing them by it keeps the check digit. */
  lemma UnknownCharsScoreAsFiller(field: string)
    ensures Checksum(Sanitize(field)) == Checksum(field)
  {
    SameValuesSameSum(Sanitize(field), field, 0);
  }

  lemma {:induction false} ZeroValuesZeroSum(s: string, i: nat)
    requires i <= |s|
    requires forall k :: i <= k < |s| ==> CharValue(s[k]) == 0
    ensures WeightedSumFrom(s, i) == 0
    decreases |s| - i
  {
    if i < |s| {
      ZeroValuesZeroSum(s, i + 1);
    }
  }

  /** A field of fillers only has check digit 0. */
  lemma FillerFieldChecksumZero(n: nat)
    ensures Checksum(Repeat(Filler, n)) == 0
  {
    ZeroValuesZeroSum(Repeat(Filler, n), 0);
  }

  /** Replacing one character changes the weighted sum by the weighted change of value. */
  lemma {:induction false} WeightedSumUpdate(s: string, i: nat, k: nat, c: char)
    requires i <= k < |s|
    ensures WeightedSumFrom(s[k := c], i) + CharValue(s[k]) * Weight(k)
         == WeightedSumFrom(s, i) + CharValue(c) * Weight(k)
    decreases |s| - i
  {
    if i < k {
      WeightedSumUpdate(s, i + 1, k, c);
    } else {
      SameValuesSameSum(s[k := c], s, k + 1);
    }
  }

  /** Weights 7, 3 and 1 are prime to 10, so no weighted digit difference vanishes modulo 10. */
  lemma WeightedDifferenceNonZeroMod10(w: int, d: int)
    requires w == 7 || w == 3 || w == 1
    requires -9 <= d <= 9 && d != 0
    ensures (w * d) % 10 != 0
  {
    if w == 7 {
      assert w * d == 7 * d;
    } else if w == 3 {
      assert w * d == 3 * d;
    } else {
      assert w * d == d;
    }
  }

  lemma SameRemainderDifference(a: int, b: int)
    requires a % 10 == b % 10
    ensures (a - b) % 10 == 0
  {
    assert a == 10 * (a / 10) + a % 10;
    assert b == 10 * (b / 10) + b % 10;
    assert a - b == 10 * (a / 10 - b / 10);
  }

  /** Replacing one digit of a field by a different digit always changes its check digit. */
  lemma SingleDigitChangeDetected(field: string, k: nat, c: char)
    requires k < |field| && IsDigit(field[k]) && IsDigit(c) && c != field[k]
    ensures Checksum(field[k := c]) != Checksum(field)
  {
    var before: int := WeightedSumFrom(field, 0);
    var after: int := WeightedSumFrom(field[k := c], 0);
    WeightedSumUpdate(field, 0, k, c);
    var w := Weight(k);
    var d := CharValue(c) - CharValue(field[k]);
    assert after - before == CharValue(c) * w - CharValue(field[k]) * w;
    assert after - before == w * d;
    WeightedDifferenceNonZeroMod10(w, d);
    if after % 10 == before % 10 {
      SameRemainderDifference(after, before);
      assert false;
    }
  }

  /** A letter can collide with a digit: a `0` misread as `A` (value 10) at any position leaves the check digit as it was. */
  lemma LetterDigitCollision(field: string, k: nat)
    requires k < |field| && field[k] == '0'
    ensures Checksum(field[k := 'A']) == Checksum(field)
  {
    WeightedSumUpdate(field, 0, k, 'A');
    var w := Weight(k);
    assert WeightedSumFrom(field[k := 'A'], 0) == WeightedSumFrom(field, 0) + 10 * w;
  }

  // ---------------------------------------------------------------------------
  // Name field

  datatype Name = Name(surname: string, givenNames: string)

  /** Index of the first `<<` in `s` (as `str.split('<<', 1)` finds it), or `|s|` if none. */
  function SeparatorIndex(s: string): (k: nat)
    ensures k <= |s|
    ensures k < |s| ==> k + 1 < |s| && s[k] == Filler && s[k + 1] == Filler
    ensures forall i :: 0 <= i < k && i + 1 < |s| ==> !(s[i] == Filler && s[i + 1] == Filler)
  {
    if |s| < 2 then |s|
    else if s[0] == Filler && s[1] == Filler then 0
    else 1 + SeparatorIndex(s[1..])
  }

  /**
   * The name field with trailing fillers dropped, split at its first `<<` into
   * surname and given names, each with fillers read as spaces and then stripped.
   */
  function ParseName(nameField: string): (n: Name)
    ensures Filler !in n.surname && Filler !in n.givenNames
    ensures (forall i :: 0 <= i < |nameField| - 1 ==> !(nameField[i] == Filler && nameField[i + 1] == Filler))
            ==> n.givenNames == ""
  {
    var trimmed := TrimRight(nameField, Filler);
    var k := SeparatorIndex(trimmed);
    var surname := ReplaceChar(trimmed[..k], Filler, ' ');
    var given := if k < |trimmed| then ReplaceChar(trimmed[k + 2..], Filler, ' ') else "";
    ReadFillersAsSpaces(trimmed[..k]);
    ReadFillersAsSpaces(if k < |trimmed| then trimmed[k + 2..] else "");
    StripChars(surname);
    StripChars(given);
    NoSeparatorInPrefix(nameField, trimmed);
    Name(Strip(surname), Strip(given))
  }

  lemma ReadFillersAsSpaces(s: string)
    ensures Filler !in ReplaceChar(s, Filler, ' ')
  {
    var r := ReplaceChar(s, Filler, ' ');
    forall i | 0 <= i < |r| ensures r[i] != Filler {
    }
  }

  /** A prefix of a string without `<<` has none either. */
  lemma NoSeparatorInPrefix(s: string, t: string)
    requires |t| <= |s| && t == s[..|t|]
    ensures (forall i :: 0 <= i < |s| - 1 ==> !(s[i] == Filler && s[i + 1] == Filler))
            ==> SeparatorIndex(t) == |t|
  {
    if forall i :: 0 <= i < |s| - 1 ==> !(s[i] == Filler && s[i + 1] == Filler) {
      forall i | 0 <= i < |t| - 1 ensures !(t[i] == Filler && t[i + 1] == Filler) {
        assert t[i] == s[i] && t[i + 1] == s[i + 1];
      }
    }
  }

  /** Stripping keeps only characters of the original. */
  lemma StripChars(s: string)
    ensures forall c :: c in Strip(s) ==> c in s
  {
    var l := StripLeft(s);
    var r := StripRight(l);
    forall c | c in r ensures c in s {
      var i :| 0 <= i < |r| && r[i] == c;
      assert r[i] == l[i];
      assert l[i] == s[|s| - |l| + i];
    }
  }

  /** A surname or given names as printed: `A`-`Z` words separated by single spaces. */
  predicate IsNameText(p: string) {
    && (forall i :: 0 <= i < |p| ==> 'A' <= p[i] <= 'Z' || p[i] == ' ')
    && (p != [] ==> p[0] != ' ' && p[|p| - 1] != ' ')
    && (forall i :: 0 <= i < |p| - 1 ==> !(p[i] == ' ' && p[i + 1] == ' '))
  }

  /** The 39-character name field written for a surname and given names. */
  function EncodeName(surname: string, givenNames: string): (f: string)
    requires |surname| + 2 + |givenNames| <= 39
    ensures |f| == 39
  {
    var body := ReplaceChar(surname, ' ', Filler) + [Filler, Filler] + ReplaceChar(givenNames, ' ', Filler);
    body + Repeat(Filler, 39 - |body|)
  }

  lemma ReplaceBack(p: string)
    requires IsNameText(p)
    ensures ReplaceChar(ReplaceChar(p, ' ', Filler), Filler, ' ') == p
  {
  }

  /** `IsNameText` parts written by `EncodeName` are read back unchanged by `ParseName`. */
  lemma NameRoundTrip(surname: string, givenNames: string)
    requires IsNameText(surname) && surname != [] && IsNameText(givenNames)
    requires |surname| + 2 + |givenNames| <= 39
    ensures ParseName(EncodeName(surname, givenNames)) == Name(surname, givenNames)
  {
    var s' := ReplaceChar(surname, ' ', Filler);
    var g' := ReplaceChar(givenNames, ' ', Filler);
    var rest := if givenNames == [] then [] else [Filler, Filler] + g';
    var kept := s' + rest;
    var f := EncodeName(surname, givenNames);
    EncodedNameLayout(surname, givenNames);
    TrimRightOfPadded(kept, f);
    SeparatorAfterWord(s', rest);
    assert kept[..|s'|] == s';
    ReplaceBack(surname);
    ReplaceBack(givenNames);
    if givenNames != [] {
      assert kept[|s'| + 2..] == g';
    }
    StripNameText(surname);
    StripNameText(givenNames);
  }

  /** The encoded field is the surname, then `<<` and the given names when there are any, then fillers. */
  lemma EncodedNameLayout(surname: string, givenNames: string)
    requires IsNameText(surname) && surname != [] && IsNameText(givenNames)
    requires |surname| + 2 + |givenNames| <= 39
    ensures var s' := ReplaceChar(surname, ' ', Filler);
            var g' := ReplaceChar(givenNames, ' ', Filler);
            var kept := s' + (if givenNames == [] then [] else [Filler, Filler] + g');
            var f := EncodeName(surname, givenNames);
            && kept != [] && kept[|kept| - 1] != Filler
            && |kept| <= |f| && f[..|kept|] == kept
            && (forall i :: |kept| <= i < |f| ==> f[i] == Filler)
            && (forall i :: 0 <= i < |s'| - 1 ==> !(s'[i] == Filler && s'[i + 1] == Filler))
            && s' != [] && s'[|s'| - 1] != Filler
  {
    var s' := ReplaceChar(surname, ' ', Filler);
    var g' := ReplaceChar(givenNames, ' ', Filler);
    var body := s' + [Filler, Filler] + g';
    var f := EncodeName(surname, givenNames);
    assert f == body + Repeat(Filler, 39 - |body|);
    assert f[..|s'|] == s';
    assert f[..|body|] == body;
  }

  /** Name text has no edge whitespace, so stripping keeps it. */
  lemma StripNameText(p: string)
    requires IsNameText(p)
    ensures Strip(p) == p
  {
    if p != [] {
      assert 'A' <= p[0] <= 'Z';
      assert 'A' <= p[|p| - 1] <= 'Z';
    }
  }

  /** Trimming the fillers after a word that does not end in one gives back the word. */
  lemma TrimRightOfPadded(kept: string, f: string)
    requires kept != [] && kept[|kept| - 1] != Filler
    requires |kept| <= |f| && f[..|kept|] == kept
    requires forall i :: |kept| <= i < |f| ==> f[i] == Filler
    ensures TrimRight(f, Filler) == kept
  {
    var t := TrimRight(f, Filler);
    assert f[|kept| - 1] == kept[|kept| - 1];
    assert |t| >= |kept|;
    assert t[|t| - 1] == f[|t| - 1];
    assert |t| <= |kept|;
    assert t == f[..|kept|];
  }

  /** In `w + rest` the first `<<` is at `|w|`, when `w` has none, does not end in a filler, and `rest` starts with `<<` (or is empty). */
  lemma SeparatorAfterWord(w: string, rest: string)
    requires forall i :: 0 <= i < |w| - 1 ==> !(w[i] == Filler && w[i + 1] == Filler)
    requires w != [] && w[|w| - 1] != Filler
    requires rest == [] || (|rest| >= 2 && rest[0] == Filler && rest[1] == Filler)
    ensures SeparatorIndex(w + rest) == |w|
  {
    var s := w + rest;
    assert forall i :: 0 <= i < |w| && i + 1 < |s| ==> !(s[i] == Filler && s[i + 1] == Filler) by {
      forall i | 0 <= i < |w| && i + 1 < |s|
        ensures !(s[i] == Filler && s[i + 1] == Filler)
      {
        assert s[i] == w[i];
        if i + 1 < |w| {
          assert s[i + 1] == w[i + 1];
        }
      }
    }
    assert SeparatorIndex(s) >= |w|;
    if rest != [] {
      assert s[|w|] == Filler && s[|w| + 1] == Filler;
    }
  }

  // ---------------------------------------------------------------------------
  // Decoding

  /** The decoded TD3 record; each validity flag covers the field before it. */
  datatype Identity = Identity(
    documentType: string,
    issuingCountry: string,
    surname: string,
    givenNames: string,
    passportNumber: string,
    passportNumberValid: bool,
    nationality: string,
    dateOfBirth: string,
    dateOfBirthValid: bool,
    sex: string,
    dateOfExpiry: string,
    dateOfExpiryValid: bool,
    personalNumber: string,
    personalNumberValid: bool,
    finalChecksumValid: bool)

  /**
   * The composite covered by the final check digit, as the code builds it: passport
   * number, date of birth, sex, date of expiry and personal number, each with its
   * check character. It includes the sex (column 20) and leaves out the nationality.
   */
  function Composite(l2: string): (c: string)
    requires |l2| == LineLength
    ensures |c| == 40 && c == l2[..10] + l2[13..43]
  {
    l2[0..9] + [l2[9]] + l2[13..19] + [l2[19]] + l2[20..21] + l2[21..27] + [l2[27]] + l2[28..42] + [l2[42]]
  }

  /** Line 1 and line 2 of a TD3 zone read into an identity record. */
  function DecodeLines(l1: string, l2: string): (id: Identity)
    requires |l1| == LineLength && |l2| == LineLength
    ensures id.documentType == l1[..1] && id.issuingCountry == l1[2..5]
    ensures Name(id.surname, id.givenNames) == ParseName(l1[5..])
    ensures Filler !in id.surname && Filler !in id.givenNames
    ensures id.passportNumber == l2[..9] && id.nationality == l2[10..13]
    ensures id.dateOfBirth == l2[13..19] && id.sex == l2[20..21] && id.dateOfExpiry == l2[21..27]
    ensures |id.personalNumber| <= 14 && id.personalNumber == l2[28..28 + |id.personalNumber|]
    ensures forall k :: 28 + |id.personalNumber| <= k < 42 ==> l2[k] == Filler
    ensures id.personalNumber != [] ==> id.personalNumber[|id.personalNumber| - 1] != Filler
    ensures id.passportNumberValid <==> l2[9] == DigitChar(Checksum(l2[..9]))
    ensures id.dateOfBirthValid <==> l2[19] == DigitChar(Checksum(l2[13..19]))
    ensures id.dateOfExpiryValid <==> l2[27] == DigitChar(Checksum(l2[21..27]))
    ensures id.personalNumberValid <==> l2[42] == DigitChar(Checksum(l2[28..42]))
    ensures id.finalChecksumValid <==> l2[43] == DigitChar(Checksum(l2[..10] + l2[13..43]))
  {
    var name := ParseName(l1[5..]);
    var passportNumber := l2[0..9];
    var dob := l2[13..19];
    var expiry := l2[21..27];
    var personalNumber := l2[28..42];
    TrimmedSpan(l2, 28, 42);
    Identity(
      documentType := l1[0..1],
      issuingCountry := l1[2..5],
      surname := name.surname,
      givenNames := name.givenNames,
      passportNumber := passportNumber,
      passportNumberValid := CheckDigitHolds(passportNumber, l2[9]),
      nationality := l2[10..13],
      dateOfBirth := dob,
      dateOfBirthValid := CheckDigitHolds(dob, l2[19]),
      sex := l2[20..21],
      dateOfExpiry := expiry,
      dateOfExpiryValid := CheckDigitHolds(expiry, l2[27]),
      personalNumber := TrimRight(personalNumber, Filler),
      personalNumberValid := CheckDigitHolds(personalNumber, l2[42]),
      finalChecksumValid := CheckDigitHolds(Composite(l2), l2[43]))
  }

  /** `s[lo..hi]` without its trailing fillers is `s[lo..lo + n]` followed only by fillers in `s`. */
  lemma TrimmedSpan(s: string, lo: nat, hi: nat)
    requires lo <= hi <= |s|
    ensures var n := |TrimRight(s[lo..hi], Filler)|;
            && lo + n <= hi
            && TrimRight(s[lo..hi], Filler) == s[lo..lo + n]
            && forall k :: lo + n <= k < hi ==> s[k] == Filler
  {
    var t := TrimRight(s[lo..hi], Filler);
    assert t == s[lo..hi][..|t|];
    forall k | lo + |t| <= k < hi ensures s[k] == Filler {
      assert s[k] == s[lo..hi][k - lo];
    }
  }

  /** The zone is well shaped when it holds exactly two lines of 44 characters. */
  predicate WellShaped(lines: seq<string>) {
    |lines| == 2 && |lines[0]| == LineLength && |lines[1]| == LineLength
  }

  /** `decode_mrz`: fails exactly on a badly shaped zone; mismatching check digits never fail. */
  function DecodeMrz(mrz: string): (r: Result<Identity>)
    ensures r.Err? <==> !WellShaped(SplitLines(mrz))
    ensures r.Err? ==> r.message == ShapeError
    ensures r.Ok? ==> r.value == DecodeLines(SplitLines(mrz)[0], SplitLines(mrz)[1])
  {
    var lines := SplitLines(mrz);
    if |lines| != 2 || exists i :: 0 <= i < |lines| && |lines[i]| != LineLength then Err(ShapeError)
    else Ok(DecodeLines(lines[0], lines[1]))
  }

  // ---------------------------------------------------------------------------
  // Properties of decoding

  /** Two 44-character lines without line boundaries, joined by a newline, always decode. */
  lemma DecodeTwoLines(l1: string, l2: string)
    requires |l1| == LineLength && |l2| == LineLength
    requires NoLineBreak(l1) && NoLineBreak(l2)
    ensures DecodeMrz(l1 + "\n" + l2) == Ok(DecodeLines(l1, l2))
  {
    SplitTwoLines(l1, l2);
  }

  /** Changing column `i` leaves every span that does not cover it as it was. */
  lemma UpdateOutsideSpan(s: string, i: nat, c: char, lo: nat, hi: nat)
    requires i < |s| && lo <= hi <= |s| && (hi <= i || i < lo)
    ensures s[i := c][lo..hi] == s[lo..hi]
  {
  }

  /**
   * The date-of-birth check character (column 19) feeds only the date-of-birth
   * flag and the final flag: changing it leaves every other field and flag as it was.
   */
  lemma DobCheckCharIsolated(l1: string, l2: string, c: char)
    requires |l1| == LineLength && |l2| == LineLength
    ensures var a := DecodeLines(l1, l2);
            var b := DecodeLines(l1, l2[19 := c]);
            b == a.(dateOfBirthValid := b.dateOfBirthValid, finalChecksumValid := b.finalChecksumValid)
  {
    UpdateOutsideSpan(l2, 19, c, 0, 9);
    UpdateOutsideSpan(l2, 19, c, 10, 13);
    UpdateOutsideSpan(l2, 19, c, 13, 19);
    UpdateOutsideSpan(l2, 19, c, 20, 21);
    UpdateOutsideSpan(l2, 19, c, 21, 27);
    UpdateOutsideSpan(l2, 19, c, 28, 42);
    var a := DecodeLines(l1, l2);
    var b := DecodeLines(l1, l2[19 := c]);
    assert b.passportNumberValid == a.passportNumberValid;
    assert b.dateOfExpiryValid == a.dateOfExpiryValid;
    assert b.personalNumberValid == a.personalNumberValid;
    assert b.personalNumber == a.personalNumber;
  }

  // ---------------------------------------------------------------------------
  // The ICAO 9303 specimen passport

  /** Weighted sum of `s[j..]` where `s` stands at position `offset` of a longer field. */
  function OffsetSum(s: string, offset: nat, j: nat): nat
    requires j <= |s|
    decreases |s| - j
  {
    if j == |s| then 0
    else CharValue(s[j]) * Weight(offset + j) + OffsetSum(s, offset, j + 1)
  }

  lemma {:induction false} WeightedSumIsOffsetSum(s: string, i: nat)
    requires i <= |s|
    ensures WeightedSumFrom(s, i) == OffsetSum(s, 0, i)
    decreases |s| - i
  {
    if i < |s| {
      WeightedSumIsOffsetSum(s, i + 1);
    }
  }

  lemma {:induction false} OffsetSumTail(a: string, b: string, offset: nat, k: nat)
    requires k <= |b|
    ensures OffsetSum(a + b, offset, |a| + k) == OffsetSum(b, offset + |a|, k)
    decreases |b| - k
  {
    if k < |b| {
      assert (a + b)[|a| + k] == b[k];
      OffsetSumTail(a, b, offset, k + 1);
    }
  }

  lemma {:induction false} OffsetSumSplit(a: string, b: string, offset: nat, j: nat)
    requires j <= |a|
    ensures OffsetSum(a + b, offset, j) == OffsetSum(a, offset, j) + OffsetSum(b, offset + |a|, 0)
    decreases |a| - j
  {
    if j < |a| {
      assert (a + b)[j] == a[j];
      OffsetSumSplit(a, b, offset, j + 1);
    } else {
      OffsetSumTail(a, b, offset, 0);
    }
  }

  /** The weighted sum of a concatenation is the sum of its parts, each weighted from where it starts. */
  lemma OffsetSumConcat(a: string, b: string, offset: nat)
    ensures OffsetSum(a + b, offset, 0) == OffsetSum(a, offset, 0) + OffsetSum(b, offset + |a|, 0)
  {
    OffsetSumSplit(a, b, offset, 0);
  }

  // The specimen of Doc 9303 Part 4, Appendix A: line 2 reads
  // L898902C36UTO7408122F1204159ZE184226B<<<<<10

  const SpecimenNumber: string := "L898902C3"
  const SpecimenBirth: string := "740812"
  const SpecimenExpiry: string := "120415"
  const SpecimenPersonal: string := "ZE184226B" + "<<<<<"
  const SpecimenLine1: string := "P<UTO" + EncodeName("ERIKSSON", "ANNA MARIA")
  const SpecimenLine2: string :=
    SpecimenNumber + "6" + "UTO" + SpecimenBirth + "2" + "F" + SpecimenExpiry + "9" + SpecimenPersonal + "1" + "0"

  /**
   * The composite of Doc 9303 Part 4, section 4.2.2: columns 0-9, 13-19 and 21-42,
   * without the sex. Stated only to compare it with `Composite`.
   */
  function StandardComposite(l2: string): (c: string)
    requires |l2| == LineLength
    ensures |c| == 39
  {
    l2[0..10] + l2[13..20] + l2[21..43]
  }

  lemma {:induction false} ZeroValuesOffsetSum(s: string, offset: nat, j: nat)
    requires j <= |s|
    requires forall k :: j <= k < |s| ==> CharValue(s[k]) == 0
    ensures OffsetSum(s, offset, j) == 0
    decreases |s| - j
  {
    if j < |s| {
      ZeroValuesOffsetSum(s, offset, j + 1);
    }
  }

  lemma {:induction false} OffsetSumDrop(t: string, offset: nat, j: nat)
    requires 1 <= j <= |t|
    ensures OffsetSum(t, offset, j) == OffsetSum(t[1..], offset + 1, j - 1)
    decreases |t| - j
  {
    if j < |t| {
      assert t[1..][j - 1] == t[j];
      OffsetSumDrop(t, offset, j + 1);
    }
  }

  /**
   * Positions `i..m` of a composite `c` copy the columns `i+shift..m+shift` of a line:
   * their share of the weighted sum is that stretch of the line weighted from `i`.
   */
  lemma {:induction false} SegmentSum(c: string, l2: string, i: nat, m: nat, shift: nat)
    requires i <= m <= |c| && m + shift <= |l2|
    requires forall k :: i <= k < m ==> c[k] == l2[k + shift]
    ensures WeightedSumFrom(c, i) == OffsetSum(l2[i + shift..m + shift], i, 0) + WeightedSumFrom(c, m)
    decreases m - i
  {
    if i < m {
      SegmentSum(c, l2, i + 1, m, shift);
      var t := l2[i + shift..m + shift];
      assert t[1..] == l2[i + 1 + shift..m + shift];
      OffsetSumDrop(t, i, 1);
    }
  }

  /** Positions 18-39 of the code's composite copy columns 21-42 of line 2. */
  lemma CodeCompositeTailSum(c: string, l2: string)
    requires |l2| == LineLength && |c| == 40
    requires forall k :: 18 <= k < 40 ==> c[k] == l2[k + 3]
    ensures WeightedSumFrom(c, 18)
         == OffsetSum(l2[21..27], 18, 0) + 7 * CharValue(l2[27])
          + OffsetSum(l2[28..42], 25, 0) + 7 * CharValue(l2[42])
  {
    SegmentSum(c, l2, 18, 24, 3);
    assert WeightedSumFrom(c, 24) == CharValue(l2[27]) * 7 + WeightedSumFrom(c, 25);
    SegmentSum(c, l2, 25, 39, 3);
    assert WeightedSumFrom(c, 39) == CharValue(l2[42]) * 7 + WeightedSumFrom(c, 40);
    assert WeightedSumFrom(c, 40) == 0;
  }

  /** Positions 0-17 of the code's composite copy columns 0-9 and 13-20 of line 2. */
  lemma CodeCompositeHeadSum(c: string, l2: string)
    requires |l2| == LineLength && |c| == 40
    requires forall k :: 0 <= k < 10 ==> c[k] == l2[k]
    requires forall k :: 10 <= k < 18 ==> c[k] == l2[k + 3]
    ensures WeightedSumFrom(c, 0)
         == OffsetSum(l2[0..9], 0, 0) + 7 * CharValue(l2[9])
          + OffsetSum(l2[13..19], 10, 0) + 3 * CharValue(l2[19]) + CharValue(l2[20])
          + WeightedSumFrom(c, 18)
  {
    SegmentSum(c, l2, 0, 9, 0);
    assert WeightedSumFrom(c, 9) == CharValue(l2[9]) * 7 + WeightedSumFrom(c, 10);
    SegmentSum(c, l2, 10, 16, 3);
    assert WeightedSumFrom(c, 16) == CharValue(l2[19]) * 3 + WeightedSumFrom(c, 17);
    assert WeightedSumFrom(c, 17) == CharValue(l2[20]) * 1 + WeightedSumFrom(c, 18);
  }

  lemma CodeCompositeCopies(c: string, l2: string)
    requires |l2| == LineLength && c == l2[..10] + l2[13..43]
    ensures |c| == 40
    ensures forall k :: 0 <= k < 10 ==> c[k] == l2[k]
    ensures forall k :: 10 <= k < 40 ==> c[k] == l2[k + 3]
  {
  }

  /** Weighted sum of a composite made of `l2[..10]` and `l2[13..43]`, field by field. */
  lemma CodeCompositeSum(c: string, l2: string)
    requires |l2| == LineLength && c == l2[..10] + l2[13..43]
    ensures WeightedSumFrom(c, 0)
         == OffsetSum(l2[0..9], 0, 0) + 7 * CharValue(l2[9])
          + OffsetSum(l2[13..19], 10, 0) + 3 * CharValue(l2[19]) + CharValue(l2[20])
          + OffsetSum(l2[21..27], 18, 0) + 7 * CharValue(l2[27])
          + OffsetSum(l2[28..42], 25, 0) + 7 * CharValue(l2[42])
  {
    CodeCompositeCopies(c, l2);
    CodeCompositeHeadSum(c, l2);
    CodeCompositeTailSum(c, l2);
  }

  /** The code's composite weighs each field of line 2 from where the composite places it. */
  lemma CompositeSumByField(l2: string)
    requires |l2| == LineLength
    ensures WeightedSumFrom(Composite(l2), 0)
         == OffsetSum(l2[0..9], 0, 0) + 7 * CharValue(l2[9])
          + OffsetSum(l2[13..19], 10, 0) + 3 * CharValue(l2[19]) + CharValue(l2[20])
          + OffsetSum(l2[21..27], 18, 0) + 7 * CharValue(l2[27])
          + OffsetSum(l2[28..42], 25, 0) + 7 * CharValue(l2[42])
  {
    CodeCompositeSum(Composite(l2), l2);
  }

  /** Positions 17-38 of the standard composite copy columns 21-42 of line 2. */
  lemma StandardCompositeTailSum(c: string, l2: string)
    requires |l2| == LineLength && |c| == 39
    requires forall k :: 17 <= k < 39 ==> c[k] == l2[k + 4]
    ensures WeightedSumFrom(c, 17)
         == OffsetSum(l2[21..27], 17, 0) + CharValue(l2[27])
          + OffsetSum(l2[28..42], 24, 0) + CharValue(l2[42])
  {
    SegmentSum(c, l2, 17, 23, 4);
    assert WeightedSumFrom(c, 23) == CharValue(l2[27]) * 1 + WeightedSumFrom(c, 24);
    SegmentSum(c, l2, 24, 38, 4);
    assert WeightedSumFrom(c, 38) == CharValue(l2[42]) * 1 + WeightedSumFrom(c, 39);
    assert WeightedSumFrom(c, 39) == 0;
  }

  /** Positions 0-16 of the standard composite copy columns 0-9 and 13-19 of line 2. */
  lemma StandardCompositeHeadSum(c: string, l2: string)
    requires |l2| == LineLength && |c| == 39
    requires forall k :: 0 <= k < 10 ==> c[k] == l2[k]
    requires forall k :: 10 <= k < 17 ==> c[k] == l2[k + 3]
    ensures WeightedSumFrom(c, 0)
         == OffsetSum(l2[0..9], 0, 0) + 7 * CharValue(l2[9])
          + OffsetSum(l2[13..19], 10, 0) + 3 * CharValue(l2[19])
          + WeightedSumFrom(c, 17)
  {
    SegmentSum(c, l2, 0, 9, 0);
    assert WeightedSumFrom(c, 9) == CharValue(l2[9]) * 7 + WeightedSumFrom(c, 10);
    SegmentSum(c, l2, 10, 16, 3);
    assert WeightedSumFrom(c, 16) == CharValue(l2[19]) * 3 + WeightedSumFrom(c, 17);
  }

  lemma StandardCompositeCopies(c: string, l2: string)
    requires |l2| == LineLength && c == l2[0..10] + l2[13..20] + l2[21..43]
    ensures |c| == 39
    ensures forall k :: 0 <= k < 10 ==> c[k] == l2[k]
    ensures forall k :: 10 <= k < 17 ==> c[k] == l2[k + 3]
    ensures forall k :: 17 <= k < 39 ==> c[k] == l2[k + 4]
  {
  }

  /** Weighted sum of a composite made of `l2[..10]`, `l2[13..20]` and `l2[21..43]`. */
  lemma StandardCompositeSum(c: string, l2: string)
    requires |l2| == LineLength && c == l2[0..10] + l2[13..20] + l2[21..43]
    ensures WeightedSumFrom(c, 0)
         == OffsetSum(l2[0..9], 0, 0) + 7 * CharValue(l2[9])
          + OffsetSum(l2[13..19], 10, 0) + 3 * CharValue(l2[19])
          + OffsetSum(l2[21..27], 17, 0) + CharValue(l2[27])
          + OffsetSum(l2[28..42], 24, 0) + CharValue(l2[42])
  {
    StandardCompositeCopies(c, l2);
    StandardCompositeHeadSum(c, l2);
    StandardCompositeTailSum(c, l2);
  }

  /** The same for the composite of Doc 9303 Part 4, section 4.2.2. */
  lemma StandardCompositeSumByField(l2: string)
    requires |l2| == LineLength
    ensures WeightedSumFrom(StandardComposite(l2), 0)
         == OffsetSum(l2[0..9], 0, 0) + 7 * CharValue(l2[9])
          + OffsetSum(l2[13..19], 10, 0) + 3 * CharValue(l2[19])
          + OffsetSum(l2[21..27], 17, 0) + CharValue(l2[27])
          + OffsetSum(l2[28..42], 24, 0) + CharValue(l2[42])
  {
    StandardCompositeSum(StandardComposite(l2), l2);
  }

  lemma SpecimenLine2Fields()
    ensures |SpecimenLine2| == LineLength
    ensures SpecimenLine2[..9] == SpecimenNumber && SpecimenLine2[9] == '6'
    ensures SpecimenLine2[13..19] == SpecimenBirth && SpecimenLine2[19] == '2'
    ensures SpecimenLine2[21..27] == SpecimenExpiry && SpecimenLine2[27] == '9'
    ensures SpecimenLine2[28..42] == SpecimenPersonal && SpecimenLine2[42] == '1'
    ensures SpecimenLine2[43] == '0'
  {
    SpecimenBirthField();
    SpecimenExpiryField();
    SpecimenPersonalField();
  }

  lemma SpecimenBirthField()
    ensures |SpecimenLine2| == LineLength
    ensures SpecimenLine2[13..19] == SpecimenBirth
  {
    var head := SpecimenNumber + "6" + "UTO";
    assert SpecimenLine2 == head + SpecimenBirth + ("2" + "F" + SpecimenExpiry + "9" + SpecimenPersonal + "1" + "0");
  }

  lemma SpecimenExpiryField()
    ensures SpecimenLine2[21..27] == SpecimenExpiry
  {
    var head := SpecimenNumber + "6" + "UTO" + SpecimenBirth + "2" + "F";
    assert SpecimenLine2 == head + SpecimenExpiry + ("9" + SpecimenPersonal + "1" + "0");
  }

  lemma SpecimenPersonalField()
    ensures SpecimenLine2[28..42] == SpecimenPersonal
  {
    var head := SpecimenNumber + "6" + "UTO" + SpecimenBirth + "2" + "F" + SpecimenExpiry + "9";
    assert SpecimenLine2 == head + SpecimenPersonal + ("1" + "0");
  }

  lemma SpecimenLine2Singles()
    requires |SpecimenLine2| == LineLength
    requires SpecimenLine2[9] == '6' && SpecimenLine2[19] == '2' && SpecimenLine2[27] == '9' && SpecimenLine2[42] == '1'
    ensures CharValue(SpecimenLine2[9]) == 6 && CharValue(SpecimenLine2[19]) == 2
    ensures CharValue(SpecimenLine2[20]) == 15
    ensures CharValue(SpecimenLine2[27]) == 9 && CharValue(SpecimenLine2[42]) == 1
  {
    var l2 := SpecimenLine2;
    var mid := SpecimenNumber + "6" + "UTO" + SpecimenBirth + "2";
    assert l2 == mid + "F" + (SpecimenExpiry + "9" + SpecimenPersonal + "1" + "0");
    assert l2[20] == 'F';
  }

  // Weighted sums of the specimen's fields at the offsets where the
  // composites place them, one evaluation per lemma.

  lemma NumberSum() ensures OffsetSum(SpecimenNumber, 0, 0) == 316 {}
  lemma BirthSum() ensures OffsetSum(SpecimenBirth, 0, 0) == 122 {}
  lemma BirthSumAt10() ensures OffsetSum(SpecimenBirth, 10, 0) == 64 {}
  lemma ExpirySum() ensures OffsetSum(SpecimenExpiry, 0, 0) == 49 {}
  lemma ExpirySumAt18() ensures OffsetSum(SpecimenExpiry, 18, 0) == 49 {}
  lemma ExpirySumAt17() ensures OffsetSum(SpecimenExpiry, 17, 0) == 41 {}
  lemma PersonalStemSum() ensures OffsetSum("ZE184226B", 0, 0) == 401 {}
  lemma PersonalStemSumAt25() ensures OffsetSum("ZE184226B", 25, 0) == 257 {}
  lemma PersonalStemSumAt24() ensures OffsetSum("ZE184226B", 24, 0) == 401 {}

  lemma PersonalSum(offset: nat)
    ensures OffsetSum(SpecimenPersonal, offset, 0) == OffsetSum("ZE184226B", offset, 0)
  {
    OffsetSumConcat("ZE184226B", "<<<<<", offset);
    ZeroValuesOffsetSum("<<<<<", offset + 9, 0);
  }

  lemma SpecimenNumberCheckDigit()
    ensures Checksum(SpecimenNumber) == 6
  {
    NumberSum();
    ChecksumFromOffsetSum(SpecimenNumber, 316);
  }

  lemma SpecimenBirthCheckDigit()
    ensures Checksum(SpecimenBirth) == 2
  {
    BirthSum();
    ChecksumFromOffsetSum(SpecimenBirth, 122);
  }

  lemma SpecimenExpiryCheckDigit()
    ensures Checksum(SpecimenExpiry) == 9
  {
    ExpirySum();
    ChecksumFromOffsetSum(SpecimenExpiry, 49);
  }

  lemma SpecimenPersonalCheckDigit()
    ensures Checksum(SpecimenPersonal) == 1
  {
    PersonalStemSum();
    PersonalSum(0);
    ChecksumFromOffsetSum(SpecimenPersonal, 401);
  }

  lemma ChecksumFromOffsetSum(s: string, v: nat)
    requires OffsetSum(s, 0, 0) == v
    ensures Checksum(s) == v % 10
  {
    WeightedSumIsOffsetSum(s, 0);
  }

  /** The code's composite of the specimen sums to 819, the standard one to 880. */
  lemma SpecimenCompositeSums()
    ensures WeightedSumFrom(Composite(SpecimenLine2), 0) == 819
    ensures WeightedSumFrom(StandardComposite(SpecimenLine2), 0) == 880
  {
    SpecimenLine2Fields();
    SpecimenLine2Singles();
    CompositeSumByField(SpecimenLine2);
    StandardCompositeSumByField(SpecimenLine2);
    NumberSum();
    BirthSumAt10();
    ExpirySumAt18();
    ExpirySumAt17();
    PersonalSum(25);
    PersonalStemSumAt25();
    PersonalSum(24);
    PersonalStemSumAt24();
  }

  lemma SpecimenName()
    ensures ParseName(SpecimenLine1[5..]) == Name("ERIKSSON", "ANNA MARIA")
  {
    assert SpecimenLine1[5..] == EncodeName("ERIKSSON", "ANNA MARIA");
    assert IsNameText("ANNA MARIA") by {
      assert "ANNA MARIA"[4] == ' ';
    }
    NameRoundTrip("ERIKSSON", "ANNA MARIA");
  }

  /**
   * On the specimen the four field check digits hold, and the printed final digit 0
   * is the check digit of the standard composite, but the code's composite (which
   * also covers the sex) has check digit 9, so the final flag is false.
   */
  lemma SpecimenDecodes()
    ensures |SpecimenLine1| == LineLength && |SpecimenLine2| == LineLength
    ensures var id := DecodeLines(SpecimenLine1, SpecimenLine2);
            && id.surname == "ERIKSSON" && id.givenNames == "ANNA MARIA"
            && id.passportNumber == SpecimenNumber && id.dateOfBirth == SpecimenBirth
            && id.passportNumberValid && id.dateOfBirthValid
            && id.dateOfExpiryValid && id.personalNumberValid
            && !id.finalChecksumValid
    ensures Checksum(Composite(SpecimenLine2)) == 9
    ensures Checksum(StandardComposite(SpecimenLine2)) == 0 && SpecimenLine2[43] == '0'
  {
    SpecimenLine2Fields();
    SpecimenNumberCheckDigit();
    SpecimenBirthCheckDigit();
    SpecimenExpiryCheckDigit();
    SpecimenPersonalCheckDigit();
    SpecimenCompositeSums();
    SpecimenName();
  }
}
