/** The 56 letters that both programs and the FPGA agree on. */
module Alphabet {

  const LETTER_COUNT: nat := 56

  /** The letter at a place of the table: the capitals, the small letters, and four more. */
  function LetterAt(i: nat): (c: char)
    requires i < LETTER_COUNT
    ensures 0 < c as int < 128
  {
    if i < 26 then ('A' as int + i) as char
    else if i < 52 then ('a' as int + i - 26) as char
    else if i == 52 then ' '
    else if i == 53 then ','
    else if i == 54 then '.'
    else '\n'
  }

  /** Every text file is made of these characters and nothing else. */
  const LETTERS: string := Table()

  function Table(): (s: string)
    ensures |s| == LETTER_COUNT
  {
    seq(LETTER_COUNT, i requires 0 <= i < LETTER_COUNT => LetterAt(i))
  }

  const UPPER_CASE: string := "ABCDEFGHIJKLMNOPQRSTUVWXYZ"
  const LOWER_CASE: string := "abcdefghijklmnopqrstuvwxyz"

  /** The C string terminator. */
  const NUL: char := '\0'

  predicate Distinct<T(==)>(s: seq<T>) {
    forall i, j :: 0 <= i < j < |s| ==> s[i] != s[j]
  }

  /** A text the programs accept. */
  predicate OverAlphabet(text: string) {
    forall i :: 0 <= i < |text| ==> text[i] in LETTERS
  }

  /** The table written out. */
  lemma TableWrittenOut()
    ensures LETTERS == UPPER_CASE + LOWER_CASE + " ,.\n"
  {
    forall i | 0 <= i < 26 ensures LETTERS[i] == UPPER_CASE[i] {
      assert UPPER_CASE[i] as int == 65 + i;
    }
    forall i | 0 <= i < 26 ensures LETTERS[26 + i] == LOWER_CASE[i] {
      assert LOWER_CASE[i] as int == 97 + i;
    }
  }

  /** The table holds each letter once. */
  lemma LetterTable()
    ensures |LETTERS| == LETTER_COUNT && Distinct(LETTERS)
    ensures forall i :: 0 <= i < LETTER_COUNT ==> 0 < LETTERS[i] as int < 128
  {
  }
}
