# Tagalog syllabicator in Dafny

A verified model of a rule-based Tagalog syllabifier. Given a romanized
Tagalog word, the syllabifier

1. returns the word itself as the only syllable when it is exactly `"ng"`;
2. otherwise rewrites every `"ng"` digraph into the placeholder `'^'`, so the
   digraph is classified as one consonant (`preprocess_ng`);
3. builds the word's pattern, one symbol per character: `V` for a vowel, `C`
   for a consonant, the character itself otherwise (`get_pattern`);
4. walks the pattern with a cursor and, at each position, lets the first
   matching rule of an ordered list decide how many characters the next
   syllable takes: `VC` not followed by a vowel (2), `V` (1), `CVC` not
   followed by a vowel (3), `CV` (2), anything else (1);
5. expands each placeholder back into `"ng"` in every syllable
   (`postprocess_ng`).

Modules, one per component:

- `Text` (`text.dfy`): joining syllables (`Concat`) and the `startswith` test.
- `Classifier` (`classifier.dfy`): the case fold, `is_vowel`, `is_consonant`.
- `Digraph` (`digraph.dfy`): the normalizer and the denormalizer.
- `Pattern` (`pattern.dfy`): `get_pattern`.
- `Scanner` (`scanner.dfy`): the rule list (`Rule`, `RuleAt`) and the scan
  as a specification function (`ScanFrom`).
- `Syllabicator` (`syllabicator.dfy`): `get_syllables`, its loop, and the
  end-to-end properties.

The pure parts of the source (`is_vowel`, `is_consonant`, `preprocess_ng`)
are functions. The parts that build their result in a loop (`get_pattern`,
`postprocess_ng`, `get_syllables`) are methods with loop invariants, each
proved equal to a specification function (`PatternOf`, `Denormalize`,
`Syllabify`). The properties are proved about those functions.

The consonant list in `is_consonant` spells the enye as the two-character
string `"Ã±"`, which a single character never equals, so the program as
written does not treat `ñ` as a consonant. That entry is evidently meant to
be `ñ`: it sits between `"n"` and `"p"` in an otherwise alphabetical list,
and its bytes (C3 83 C2 B1) are the UTF-8 encoding of `ñ` encoded a second
time. The model keeps the list as written (`ConsonantListAsWritten`,
`IsConsonantAsWritten`) and shows its effect. Everything else uses the
intended set containing `'ñ'` (`Consonants`); see "## Findings".

## Model

| member | source | states |
|---|---|---|
| `Classifier.Lower` | tagalog_syllabicator.py:16 | `str.lower()` on one character: A–Z go to a–z, Ñ to ñ, all else unchanged; the result is never an ASCII capital or Ñ |
| `Classifier.IsVowel` | tagalog_syllabicator.py:14-18 | `is_vowel`: true exactly for a, e, i, o, u in either case |
| `Classifier.IsConsonant` | tagalog_syllabicator.py:30-59 | `is_consonant` with the enye read as `ñ`: true exactly for `^`, the twenty-one consonant letters and `ñ`, each in either case; a consonant is never a vowel |
| `Classifier.IsConsonantAsWritten` | tagalog_syllabicator.py:30-59 | `is_consonant` with the list as written: true exactly for the intended consonants other than `ñ`/`Ñ` |
| `Classifier.CaseInsensitive` | tagalog_syllabicator.py:14-59 | a character and its lower-case form are classified alike, as vowel and as consonant |
| `Classifier.UpperLowerAgree` | tagalog_syllabicator.py:14-59 | an upper-case ASCII letter is a vowel (consonant) iff its lower-case letter is |
| `Classifier.Disjoint` | tagalog_syllabicator.py:14-59 | no character is both vowel and consonant; the placeholder `'^'` is a consonant and not a vowel |
| `Classifier.PassThroughIsNotASymbol` | tagalog_syllabicator.py:112-117 | a character that is neither vowel nor consonant is never `'V'` or `'C'`, so a pass-through pattern symbol cannot pose as a class symbol |
| `Classifier.AsWrittenMissesOnlyEnye` | tagalog_syllabicator.py:30-59 | the consonant list as written accepts exactly the intended consonants except `ñ`/`Ñ`, which it never accepts |
| `Digraph.HasNg` | tagalog_syllabicator.py:72 | `"ng" in word`: true exactly when some position holds `n` followed by `g` |
| `Digraph.ReplaceNg` | tagalog_syllabicator.py:75 | left-to-right, non-overlapping replacement of `"ng"` by `'^'`; never lengthens the word, strictly shortens it when it holds `"ng"`, leaves it unchanged otherwise, empties only the empty word |
| `Digraph.PreprocessNg` | tagalog_syllabicator.py:71-75 | `preprocess_ng`: the `in` guard does not change the result, which is always the replaced word; shorter when the word holds `"ng"`, empty iff the word is |
| `Digraph.ReplaceLength` | tagalog_syllabicator.py:71-75 | the normalized word is exactly one character shorter per replaced `"ng"` |
| `Digraph.ReplaceLeavesNoNg` | tagalog_syllabicator.py:71-75 | the normalized word contains no `"ng"` |
| `Digraph.ExpandReplaceRoundTrip` | tagalog_syllabicator.py:71-96 | for a word without a literal `'^'`, expanding the placeholders of the normalized word restores the word |
| `Digraph.ReplaceExpandRoundTrip` | tagalog_syllabicator.py:71-96 | a word without `"ng"` is recovered by normalizing its expansion, so denormalizing loses nothing |
| `Digraph.ExpandPlaceholder` | tagalog_syllabicator.py:94 | `s.replace("^", "ng")`: never shortens a syllable, keeps a non-empty one non-empty, and leaves a syllable without `'^'` unchanged |
| `Digraph.ExpandRemovesPlaceholder` | tagalog_syllabicator.py:94 | expansion grows a syllable by one character per `'^'`, keeps it non-empty and leaves no `'^'` |
| `Digraph.ExpandAppend` | tagalog_syllabicator.py:94 | expansion distributes over concatenation |
| `Digraph.DenormalizeSyllable` | tagalog_syllabicator.py:91-94 | the per-syllable step of `postprocess_ng`: the `"^" in s` guard does not change the result, which has no `'^'` and is non-empty when the syllable is |
| `Digraph.Denormalize` | tagalog_syllabicator.py:87-96 | what `postprocess_ng` returns: as many syllables as given, each the expansion of the syllable at the same position, none holding `'^'`, none emptied |
| `Digraph.PostprocessNg` | tagalog_syllabicator.py:87-96 | `postprocess_ng` keeps the number and order of syllables, replaces every `'^'` in each by `"ng"`, leaves syllables without `'^'` unchanged, and leaves no `'^'` |
| `Digraph.DenormalizeConcat` | tagalog_syllabicator.py:87-96 | joining the denormalized syllables equals expanding the joined syllables |
| `Digraph.DenormalizeWithoutPlaceholder` | tagalog_syllabicator.py:90-92 | a list of syllables without `'^'` is returned as it is |
| `Pattern.Symbol` | tagalog_syllabicator.py:112-117 | one symbol is `'V'` exactly for vowels, `'C'` exactly for consonants, and the character itself otherwise |
| `Pattern.PatternOf` | tagalog_syllabicator.py:109-118 | the pattern has the word's length and position k is the symbol of character k, with no lookahead |
| `Pattern.GetPattern` | tagalog_syllabicator.py:109-118 | the loop builds the pattern: its length is the word's; position k is `'V'` iff character k is a vowel, `'C'` iff it is a consonant, and character k itself otherwise |
| `Pattern.PatternAppend` | tagalog_syllabicator.py:109-118 | the pattern of a concatenation is the concatenation of the patterns |
| `Pattern.DocExamples` | tagalog_syllabicator.py:100-101 | `aanhin` gives `VVCCVC` and `ngayon` gives `CCVCVC` |
| `Pattern.SymbolAsWritten` | tagalog_syllabicator.py:112-117 | with the list as written, the symbol of `ñ`/`Ñ` is the character itself and every other symbol is the intended one |
| `Pattern.PatternAsWritten` | tagalog_syllabicator.py:109-118 | with the list as written, the pattern has the word's length and differs from the intended symbols only by passing `ñ`/`Ñ` through |
| `Pattern.AsWrittenPatternDiffersAtEnye` | tagalog_syllabicator.py:109-118 | with the list as written the pattern differs from the intended one exactly at the positions holding `ñ`/`Ñ` |
| `Scanner.RuleAt` | tagalog_syllabicator.py:143-161 | the first matching rule takes one to three characters, all inside the pattern, so every index the loop reads is in bounds |
| `Scanner.RuleAtBySymbols` | tagalog_syllabicator.py:145-161 | the `startswith` rule list chooses the same rule as a reading of the (at most four) symbols at the cursor |
| `Scanner.ScanFrom` | tagalog_syllabicator.py:141-163 | the syllables the loop collects from a cursor on: none exactly when the cursor is at the end, and never more than the characters left |
| `Scanner.NextSyllable` | tagalog_syllabicator.py:143-163 | at a cursor inside the word the scan emits the rule's slice and continues past it |
| `Scanner.ScanCovers` | tagalog_syllabicator.py:141-163 | the scan's syllables join to the rest of the word, with nothing lost, duplicated or reordered |
| `Scanner.ScanWellSized` | tagalog_syllabicator.py:144-163 | every syllable of the scan has one to three characters |
| `Scanner.RuleKeepsOnset` | tagalog_syllabicator.py:144-161 | the piece one step takes has pattern `VC`, `V`, `CVC`, `CV` or one non-vowel symbol, and when it ends in `C` the next symbol is not `V` |
| `Scanner.Start` | tagalog_syllabicator.py:143-163 | the start of syllable k is never before the cursor i and never past the end of the word |
| `Scanner.StartNext` | tagalog_syllabicator.py:143-163 | the cursor at the start of syllable k + 1 is the cursor at syllable k advanced by the width of the rule chosen there |
| `Scanner.PieceFacts` | tagalog_syllabicator.py:144-161 | the pattern piece of syllable k is non-empty and has a rule shape, and a `C` at its end is never followed by `V` |
| `Scanner.PieceAt` | tagalog_syllabicator.py:143-163 | syllable k of the scan is exactly the slice of the word between the cursor positions of syllables k and k + 1 |
| `Scanner.PieceShape` | tagalog_syllabicator.py:144-161 | syllable k is non-empty and its pattern has a rule shape |
| `Scanner.PieceOnset` | tagalog_syllabicator.py:144-161 | syllables k and k + 1 meet at a point where the pattern does not read `C` then `V` |
| `Scanner.CharsKeepOnset` | tagalog_syllabicator.py:109-118 | two neighbouring characters whose symbols are not `C` then `V` are not a consonant followed by a vowel |
| `Scanner.ScanShapesOf` | tagalog_syllabicator.py:143-163 | the shape and onset facts hold for any pattern that gives each character's symbol |
| `Scanner.ScanShapes` | tagalog_syllabicator.py:144-161 | every syllable's pattern is `VC`, `V`, `CVC`, `CV` or one non-vowel symbol, and a syllable ending in a consonant is never followed by one starting with a vowel (the VCV and CVCV exemptions) |
| `Scanner.BoundariesFollowPattern` | tagalog_syllabicator.py:143-163 | syllable boundaries depend on the pattern alone: scanning the pattern itself gives pieces of the same number and lengths |
| `Syllabicator.Syllabify` | tagalog_syllabicator.py:130-166 | the syllables `get_syllables` returns; there are none exactly when the word is empty |
| `Syllabicator.GetSyllables` | tagalog_syllabicator.py:130-166 | the method returns `Syllabify(word)`: non-empty syllables, none iff the word is empty, joining back to the word when it has no literal `'^'` |
| `Syllabicator.CutSyllables` | tagalog_syllabicator.py:139-163 | the cursor loop, for any word and a pattern of its length, collects exactly the scan, and the collected syllables join back to the word |
| `Syllabicator.ScanStep` | tagalog_syllabicator.py:143-163 | one loop iteration moves the next specified syllable from the rest of the scan to the collected ones, leaving the whole scan unchanged |
| `Syllabicator.JoinStep` | tagalog_syllabicator.py:146-161 | appending the next slice to a list that joins to a prefix gives a list that joins to the longer prefix (the invariant `concat(result) == word[..i]`) |
| `Syllabicator.SyllabifyPartitions` | tagalog_syllabicator.py:130-166 | every syllable is non-empty, and without a literal `'^'` the syllables join back to the word |
| `Syllabicator.SpecialCaseAgrees` | tagalog_syllabicator.py:131-133 | `"ng"` gives `["ng"]`, which is also what the general pipeline would give |
| `Syllabicator.Scenarios` | tagalog_syllabicator.py:130-166 | `""` → `[]`, `"ng"` → `["ng"]`, `"aanhin"` → `a, an, hin`, `"paano"` → `pa, a, no` (the VCV exemption named at line 144), `"tumakbo"` → `tu, mak, bo` (the CVCV exemption named at line 151), `"ngayon"` → `nga, yon` |
| `Syllabicator.SyllabifyAsWritten` | tagalog_syllabicator.py:130-166 | `get_syllables` with the consonant list as written; there are none exactly when the word is empty |
| `Syllabicator.EnyeSplitAsWritten` | tagalog_syllabicator.py:45 | with the list as written, `"niño"` is cut as `ni, ñ, o` |
| `Syllabicator.EnyeJoinsVowel` | tagalog_syllabicator.py:30-59 | with `ñ` a consonant, `"niño"` is cut as `ni, ño` |

## Left out

- The module metadata `__date__`, `__license__` and `__version__` (lines 1-3): they carry no behaviour.
- Classifier.Lower: folds only A–Z and Ñ, not the whole of Unicode as Python's `str.lower()` does; every other character is left as it is.
- Words that already contain a literal `'^'`: the source does not guard against them and they break the round trip. Their syllabification is still modelled; the round-trip and join-back statements require the word to have no `'^'`.
- Python's `str.replace` and `in` are not assumed: `ReplaceNg`, `HasNg`, `ExpandPlaceholder` and `StartsWith` are defined here.
- In `CutSyllables` each branch picks the syllable and a single append follows the branch, instead of one append per branch; the appended values and the cursor updates are those of the source. The loop of `get_syllables` is its own method, `CutSyllables`, which `GetSyllables` calls between the pattern and denormalization.

## Findings

| source | as written | input that shows it | evidently intended | confidence | as-written member | corrected member |
|---|---|---|---|---|---|---|
| tagalog_syllabicator.py:45 | the enye entry of the consonant list is the two-character string `"Ã±"`, which no single character equals, so `ñ` and `Ñ` are neither vowel nor consonant and pass through the pattern unclassified | `"niño"` gives `["ni", "ñ", "o"]` | `ñ` is a consonant, so `"niño"` gives `["ni", "ño"]` | not executed; high | `Syllabicator.EnyeSplitAsWritten` | `Syllabicator.EnyeJoinsVowel` |
