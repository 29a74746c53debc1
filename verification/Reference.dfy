/**
  The demonstration driver's alphabet `ALPHABET`: lower- and upper-case
  letters interleaved, then the decimal digits, 62 symbols in all.
 */
module Reference {
  import opened Positional
  import opened Codec
  import opened Uid

  // The constant is written in four pieces only so that the verifier can
  // index into it; the concatenation is the single 62-symbol string.
  const LETTERS_A_TO_J: string := "aAbBcCdDeEfFgGhHiIjJ"
  const LETTERS_K_TO_T: string := "kKlLmMnNoOpPqQrRsStT"
  const LETTERS_U_TO_Z: string := "uUvVwWxXyYzZ"
  const DECIMAL_DIGITS: string := "0123456789"
  const ALPHABET: string := LETTERS_A_TO_J + LETTERS_K_TO_T + LETTERS_U_TO_Z + DECIMAL_DIGITS

  /** Position of a symbol in `ALPHABET`, computed from its character code (-1 if absent). */
  function Rank(c: char): int
  {
    if 'a' <= c <= 'z' then 2 * (c as int - 'a' as int)
    else if 'A' <= c <= 'Z' then 2 * (c as int - 'A' as int) + 1
    else if '0' <= c <= '9' then 52 + (c as int - '0' as int)
    else -1
  }

  /** Each symbol of `s` has rank `offset` plus its position. */
  predicate RankedAt(s: seq<char>, offset: int)
  {
    forall i :: 0 <= i < |s| ==> Rank(s[i]) == offset + i
  }

  lemma RankedConcat(s: seq<char>, t: seq<char>, offset: int)
    requires RankedAt(s, offset) && RankedAt(t, offset + |s|)
    ensures RankedAt(s + t, offset)
  {
    forall i | 0 <= i < |s + t|
      ensures Rank((s + t)[i]) == offset + i
    {
      if i >= |s| {
        assert (s + t)[i] == t[i - |s|];
      }
    }
  }

  lemma PiecesRanked()
    ensures RankedAt(LETTERS_A_TO_J, 0) && RankedAt(LETTERS_K_TO_T, 20)
    ensures RankedAt(LETTERS_U_TO_Z, 40) && RankedAt(DECIMAL_DIGITS, 52)
  {
    LettersAToJRanked();
    LettersKToTRanked();
  }

  lemma LettersAToJRanked()
    ensures RankedAt(LETTERS_A_TO_J, 0)
  {
  }

  lemma LettersKToTRanked()
    ensures RankedAt(LETTERS_K_TO_T, 20)
  {
  }

  /** The demonstration alphabet is a duplicate-free alphabet of base 62. */
  lemma ReferenceAlphabet()
    ensures |ALPHABET| == 62 && Distinct(ALPHABET)
    ensures forall i :: 0 <= i < |ALPHABET| ==> Rank(ALPHABET[i]) == i
  {
    PiecesRanked();
    RankedConcat(LETTERS_A_TO_J, LETTERS_K_TO_T, 0);
    RankedConcat(LETTERS_A_TO_J + LETTERS_K_TO_T, LETTERS_U_TO_Z, 0);
    RankedConcat(LETTERS_A_TO_J + LETTERS_K_TO_T + LETTERS_U_TO_Z, DECIMAL_DIGITS, 0);
  }

  /** Small encodings over the demonstration alphabet: 0, 1, the last digit, and the base. */
  lemma ReferenceExamples()
    ensures Encode(0, ALPHABET) == ""
    ensures Encode(1, ALPHABET) == "A"
    ensures Encode(61, ALPHABET) == "9"
    ensures Encode(62, ALPHABET) == "Aa"
  {
    ReferenceAlphabet();
    assert 1 / 62 == 0 && 1 % 62 == 1;
    assert ToDigits(1, 62) == [1];
    assert 61 / 62 == 0 && 61 % 62 == 61;
    assert ToDigits(61, 62) == [61];
    assert 62 / 62 == 1 && 62 % 62 == 0;
    assert ToDigits(62, 62) == ToDigits(1, 62) + [0];
  }

  /** The base-62 digits of 512312 are 2, 9, 17, 6. */
  lemma DriverDigits()
    ensures ToDigits(512312, 62) == [2, 9, 17, 6]
  {
    assert ToDigits(2, 62) == [2];
    assert 133 / 62 == 2 && 133 % 62 == 9;
    assert ToDigits(133, 62) == ToDigits(2, 62) + [9];
    assert 8263 / 62 == 133 && 8263 % 62 == 17;
    assert ToDigits(8263, 62) == ToDigits(133, 62) + [17];
    assert 512312 / 62 == 8263 && 512312 % 62 == 6;
    assert ToDigits(512312, 62) == ToDigits(8263, 62) + [6];
  }

  /** The driver's example value 512312 encodes as the four symbols "bEId". */
  lemma DriverExample()
    ensures Encode(512312, ALPHABET) == "bEId"
  {
    ReferenceAlphabet();
    DriverDigits();
    assert ALPHABET[2] == 'b' && ALPHABET[9] == 'E' && ALPHABET[17] == 'I' && ALPHABET[6] == 'd';
  }

  /**
    The driver's check at its own inputs: a `uid128` encoded over `ALPHABET`
    and decoded again is the same id.
   */
  method DriverRoundTrip(ms: nat, rn: nat) returns (enc: string, dec: nat)
    requires rn < TWO64
    ensures enc == Encode(Uid128(ms, rn), ALPHABET)
    ensures dec == Uid128(ms, rn)
  {
    ReferenceAlphabet();
    enc, dec := RoundTrip(Uid128(ms, rn), ALPHABET);
  }
}
