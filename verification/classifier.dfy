/**
 Character classification: `is_vowel` and `is_consonant`. Both fold the
 character to lower case and test membership in a fixed list. The digraph
 placeholder '^' (standing for "ng") is a consonant.
 */
module Classifier {

  /** The reserved character that stands for the digraph "ng". */
  const Placeholder: char := '^'

  /** The five vowels, lower case. */
  const Vowels: set<char> := {'a', 'e', 'i', 'o', 'u'}

  /** The 23 consonants, lower case: the placeholder, twenty-one Latin letters
      and the enye. The source's list spells the enye as the two-character
      string "Ã±" (a mis-decoded 'ñ'), which a single character can never
      equal; this set holds the intended 'ñ'. ConsonantListAsWritten keeps
      the list exactly as the source has it. */
  const Consonants: set<char> :=
    {Placeholder, 'b', 'c', 'd', 'f', 'g', 'h', 'j', 'k', 'l', 'm', 'n', 'ñ',
     'p', 'q', 'r', 's', 't', 'v', 'w', 'x', 'y', 'z'}

  /** The consonant list of `is_consonant` as written, entry for entry. */
  const ConsonantListAsWritten: seq<string> :=
    ["^", "b", "c", "d", "f", "g", "h", "j", "k", "l", "m", "n", "Ã±",
     "p", "q", "r", "s", "t", "v", "w", "x", "y", "z"]

  /** `str.lower()` on one character, restricted to ASCII letters and Ñ. */
  function Lower(c: char): (r: char)
    ensures 'A' <= c <= 'Z' ==> r as int == c as int + 32
    ensures c == 'Ñ' ==> r == 'ñ'
    ensures !('A' <= c <= 'Z') && c != 'Ñ' ==> r == c
    ensures !('A' <= r <= 'Z') && r != 'Ñ'
  {
    if 'A' <= c <= 'Z' then (c as int + 32) as char
    else if c == 'Ñ' then 'ñ'
    else c
  }

  /** `is_vowel`: exactly the five vowels, in either case. */
  predicate IsVowel(c: char)
    ensures IsVowel(c) <==> c in {'a', 'e', 'i', 'o', 'u', 'A', 'E', 'I', 'O', 'U'}
  {
    Lower(c) in Vowels
  }

  /** `is_consonant`, with the enye entry read as the intended 'ñ': the
      placeholder and the consonant letters, in either case, and never a
      vowel. */
  predicate IsConsonant(c: char)
    ensures IsConsonant(c) ==> !IsVowel(c)
    ensures IsConsonant(c) <==>
      c in Consonants || c == 'Ñ' || ('A' <= c <= 'Z' && (c as int + 32) as char in Consonants)
  {
    Lower(c) in Consonants
  }

  /** `is_consonant` exactly as written: the one-character string of the
      folded character is looked up in the list of strings. */
  predicate IsConsonantAsWritten(c: char)
    ensures IsConsonantAsWritten(c) <==> IsConsonant(c) && Lower(c) != 'ñ'
  {
    [Lower(c)] in ConsonantListAsWritten
  }

  /** Classification is case-insensitive: a character and its folded form
      are classified alike, so 'A' behaves like 'a'. */
  lemma CaseInsensitive(c: char)
    ensures IsVowel(c) <==> IsVowel(Lower(c))
    ensures IsConsonant(c) <==> IsConsonant(Lower(c))
  {
  }

  /** Upper- and lower-case ASCII letters classify the same. */
  lemma UpperLowerAgree(c: char)
    requires 'a' <= c <= 'z'
    ensures IsVowel((c as int - 32) as char) <==> IsVowel(c)
    ensures IsConsonant((c as int - 32) as char) <==> IsConsonant(c)
  {
  }

  /** No character is both a vowel and a consonant; the placeholder is a
      consonant and not a vowel. */
  lemma Disjoint(c: char)
    ensures !(IsVowel(c) && IsConsonant(c))
    ensures IsConsonant(Placeholder) && !IsVowel(Placeholder)
  {
  }

  /** A character that is neither vowel nor consonant is never 'V' or 'C'
      (both fold to consonants), so a pass-through pattern symbol cannot be
      mistaken for a class symbol. */
  lemma PassThroughIsNotASymbol(c: char)
    requires !IsVowel(c) && !IsConsonant(c)
    ensures c != 'V' && c != 'C'
  {
  }

  /** The as-written list agrees with the intended set on every character
      except the enye (in either case), which it never accepts. */
  lemma AsWrittenMissesOnlyEnye(c: char)
    ensures IsConsonantAsWritten(c) <==> IsConsonant(c) && Lower(c) != 'ñ'
    ensures !IsConsonantAsWritten('ñ') && !IsConsonantAsWritten('Ñ')
    ensures IsConsonant('ñ') && IsConsonant('Ñ')
  {
    var s := [Lower(c)];
    if Lower(c) == 'ñ' {
      assert s != "Ã±";
    }
  }
}
