/**
 The pattern builder, `get_pattern`: each character of the word becomes 'V'
 if it is a vowel, 'C' if it is a consonant, and stays itself otherwise.
 */
module Pattern {
  import opened Classifier

  /** The pattern symbol of one character: 'V' exactly for vowels, 'C'
      exactly for consonants, and the character itself otherwise. */
  function Symbol(c: char): (r: char)
    ensures r == 'V' <==> IsVowel(c)
    ensures r == 'C' <==> IsConsonant(c)
    ensures !IsVowel(c) && !IsConsonant(c) ==> r == c
  {
    if IsVowel(c) then 'V' else if IsConsonant(c) then 'C' else c
  }

  /** The pattern of a word: its characters' symbols, position by position. */
  function PatternOf(w: string): (r: string)
    ensures |r| == |w|
    ensures forall k :: 0 <= k < |w| ==> r[k] == Symbol(w[k])
  {
    seq(|w|, k requires 0 <= k < |w| => Symbol(w[k]))
  }

  /** `get_pattern`: grows the pattern one symbol per character. */
  method GetPattern(word: string) returns (pattern: string)
    ensures pattern == PatternOf(word)
    ensures |pattern| == |word|
    ensures forall k :: 0 <= k < |word| ==> (pattern[k] == 'V' <==> IsVowel(word[k]))
    ensures forall k :: 0 <= k < |word| ==> (pattern[k] == 'C' <==> IsConsonant(word[k]))
    ensures forall k :: 0 <= k < |word| && !IsVowel(word[k]) && !IsConsonant(word[k]) ==> pattern[k] == word[k]
  {
    pattern := "";
    for k := 0 to |word|
      invariant |pattern| == k
      invariant forall j :: 0 <= j < k ==> pattern[j] == Symbol(word[j])
    {
      var letter := word[k];
      if IsVowel(letter) {
        pattern := pattern + "V";
      } else if IsConsonant(letter) {
        pattern := pattern + "C";
      } else {
        pattern := pattern + [letter];
      }
    }
  }

  /** The pattern of a concatenation is the concatenation of the patterns. */
  lemma PatternAppend(a: string, b: string)
    ensures PatternOf(a + b) == PatternOf(a) + PatternOf(b)
  {
  }

  /** The pattern symbol of one character under the consonant list as
      written, which lacks the enye. */
  function SymbolAsWritten(c: char): (r: char)
    ensures Lower(c) != 'ñ' ==> r == Symbol(c)
    ensures Lower(c) == 'ñ' ==> r == c
  {
    if IsVowel(c) then 'V' else if IsConsonantAsWritten(c) then 'C' else c
  }

  /** `get_pattern` with the consonant list as written. */
  function PatternAsWritten(w: string): (r: string)
    ensures |r| == |w|
    ensures forall k :: 0 <= k < |w| ==> r[k] == (if Lower(w[k]) == 'ñ' then w[k] else Symbol(w[k]))
  {
    seq(|w|, k requires 0 <= k < |w| => SymbolAsWritten(w[k]))
  }

  /** The as-written pattern differs from the intended one exactly at the
      enye, which it passes through unclassified. */
  lemma AsWrittenPatternDiffersAtEnye(w: string)
    ensures |PatternAsWritten(w)| == |PatternOf(w)| == |w|
    ensures forall k :: 0 <= k < |w| ==>
      (PatternAsWritten(w)[k] != PatternOf(w)[k] <==> Lower(w[k]) == 'ñ')
  {
    forall k | 0 <= k < |w|
      ensures PatternAsWritten(w)[k] != PatternOf(w)[k] <==> Lower(w[k]) == 'ñ'
    {
      AsWrittenMissesOnlyEnye(w[k]);
      if Lower(w[k]) == 'ñ' {
        assert w[k] == 'ñ' || w[k] == 'Ñ';
      }
    }
  }

  /** The examples of the source's documentation, on the un-normalized word. */
  lemma DocExamples()
    ensures PatternOf("aanhin") == "VVCCVC"
    ensures PatternOf("ngayon") == "CCVCVC"
  {
  }
}
