/**
 `get_syllables`: the whole pipeline. A word that is exactly "ng" is returned
 as its own syllable; any other word is normalized, its pattern is built,
 the scanner cuts it into syllables and the placeholders are expanded back.
 */
module Syllabicator {
  import opened Text
  import opened Classifier
  import opened Digraph
  import opened Pattern
  import opened Scanner

  /** The syllables of a word, as `get_syllables` returns them. */
  function Syllabify(w: string): (r: seq<string>)
    ensures |r| == 0 <==> |w| == 0
  {
    if w == "ng" then [w]
    else
      var normalized := PreprocessNg(w);
      Denormalize(ScanFrom(normalized, PatternOf(normalized), 0))
  }

  /** `get_syllables`: the special case, normalization, the pattern, the
      cursor loop and denormalization. */
  method GetSyllables(word: string) returns (syllables: seq<string>)
    ensures syllables == Syllabify(word)
    ensures forall j :: 0 <= j < |syllables| ==> |syllables[j]| > 0
    ensures |syllables| == 0 <==> |word| == 0
    ensures Placeholder !in word ==> Concat(syllables) == word
  {
    if word == "ng" {
      syllables := [word];
    } else {
      var normalized := PreprocessNg(word);
      var pattern := GetPattern(normalized);
      var result := CutSyllables(normalized, pattern);
      syllables := PostprocessNg(result);
    }
    SyllabifyPartitions(word);
  }

  /** The cursor loop of `get_syllables`, over any word and a pattern of the
      same length: each rule's branch increment and the unconditional step
      at the end of every iteration. The syllables it collects are the scan,
      and they join back to the word. */
  method CutSyllables(normalized: string, pattern: string) returns (result: seq<string>)
    requires |pattern| == |normalized|
    ensures result == ScanFrom(normalized, pattern, 0)
    ensures Concat(result) == normalized
  {
    result := [];
    var i := 0;
    while i < |pattern|
      invariant 0 <= i <= |pattern|
      invariant result + ScanFrom(normalized, pattern, i) == ScanFrom(normalized, pattern, 0)
      invariant Concat(result) == normalized[..i]
    {
      ghost var before := result;
      ghost var start := i;
      var rest := pattern[i..];
      var syllable: string;
      if StartsWith(rest, "VC") && !StartsWith(rest, "VCV") {
        syllable := normalized[i..i + 2];
        i := i + 1;
      } else if StartsWith(rest, "V") {
        syllable := normalized[i..i + 1];
      } else if StartsWith(rest, "CVC") && !StartsWith(rest, "CVCV") {
        syllable := normalized[i..i + 3];
        i := i + 2;
      } else if StartsWith(rest, "CV") {
        syllable := normalized[i..i + 2];
        i := i + 1;
      } else {
        syllable := normalized[i..i + 1];
      }
      result := result + [syllable];
      i := i + 1;
      NextSyllable(normalized, pattern, start);
      ScanStep(before, syllable, ScanFrom(normalized, pattern, start), ScanFrom(normalized, pattern, i), ScanFrom(normalized, pattern, 0));
      JoinStep(normalized, start, i, before);
    }
    assert normalized[..i] == normalized;
  }

  /** One iteration of the loop: when the rest of the scan is the next
      syllable followed by the scan after it, moving that syllable to the end
      of the collected ones leaves the whole scan unchanged. */
  lemma ScanStep(before: seq<string>, syllable: string, here: seq<string>, next: seq<string>, whole: seq<string>)
    requires here == [syllable] + next
    requires before + here == whole
    ensures (before + [syllable]) + next == whole
  {
    assert before + ([syllable] + next) == (before + [syllable]) + next;
  }

  /** Appending the next slice of the word to a list that joins to the
      prefix before it gives a list that joins to the longer prefix. */
  lemma JoinStep(w: string, start: nat, i: nat, before: seq<string>)
    requires start <= i <= |w|
    requires Concat(before) == w[..start]
    ensures Concat(before + [w[start..i]]) == w[..i]
  {
    ConcatAppend(before, [w[start..i]]);
    assert [w[start..i]][..0] == [];
    assert w[..i] == w[..start] + w[start..i];
  }

  /** Every syllable is non-empty, and for a word without a literal
      placeholder the syllables join back to the word: the scan partitions
      the normalized word, and expanding the placeholders undoes the
      normalization. */
  lemma SyllabifyPartitions(w: string)
    ensures forall j :: 0 <= j < |Syllabify(w)| ==> |Syllabify(w)[j]| > 0
    ensures Placeholder !in w ==> Concat(Syllabify(w)) == w
  {
    if w == "ng" {
      assert Concat([w]) == Concat([]) + w;
    } else {
      var normalized := PreprocessNg(w);
      var p := PatternOf(normalized);
      ScanWellSized(normalized, p, 0);
      if Placeholder !in w {
        ScanCovers(normalized, p, 0);
        assert normalized[0..] == normalized;
        DenormalizeConcat(ScanFrom(normalized, p, 0));
        ExpandReplaceRoundTrip(w);
      }
    }
  }

  /** The special case for "ng" gives what the general pipeline would give:
      the word normalizes to one placeholder, which the fallback rule takes
      alone and the denormalizer expands back. */
  lemma SpecialCaseAgrees(w: string)
    requires w == "ng"
    ensures Syllabify(w) == ["ng"]
    ensures Denormalize(ScanFrom(PreprocessNg(w), PatternOf(PreprocessNg(w)), 0)) == ["ng"]
  {
    assert PreprocessNg("ng") == "^";
    assert PatternOf("^") == "C";
    var n := PreprocessNg(w);
    Emit(n, PatternOf(n), 0, 1, []);
    assert ExpandPlaceholder("^") == "ng";
  }

  /** Worked examples: the empty word, the digraph alone, and four words.
      "paano" and "tumakbo" are the words the comments of the VC and CVC
      rules (lines 144 and 151 of the source) name as exemption cases. */
  lemma Scenarios()
    ensures Syllabify("") == []
    ensures Syllabify("ng") == ["ng"]
    ensures Syllabify("aanhin") == ["a", "an", "hin"]
    ensures Syllabify("paano") == ["pa", "a", "no"]
    ensures Syllabify("tumakbo") == ["tu", "mak", "bo"]
    ensures Syllabify("ngayon") == ["nga", "yon"]
  {
    SpecialCaseAgrees("ng");
    Aanhin("aanhin");
    Paano("paano");
    Tumakbo("tumakbo");
    Ngayon("ngayon");
  }

  /** "aanhin": pattern VVCCVC, cut as V, VC, CVC. */
  lemma Aanhin(w: string)
    requires w == "aanhin"
    ensures Syllabify(w) == ["a", "an", "hin"]
  {
    AanhinForms();
    AanhinScan(PreprocessNg(w), PatternOf(PreprocessNg(w)));
    DenormalizeWithoutPlaceholder(["a", "an", "hin"]);
  }

  /** The normalized form and pattern of "aanhin". */
  lemma AanhinForms()
    ensures PreprocessNg("aanhin") == "aanhin" && PatternOf("aanhin") == "VVCCVC"
  {
  }

  /** The scan of that normalized word against its pattern, step by step. */
  lemma AanhinScan(w: string, p: string)
    requires w == "aanhin" && p == "VVCCVC"
    ensures ScanFrom(w, p, 0) == ["a", "an", "hin"]
  {
    assert w[3..6] == "hin";
    Emit(w, p, 3, 3, []);
    assert w[1..3] == "an";
    Emit(w, p, 1, 2, ["hin"]);
    assert w[0..1] == "a";
    Emit(w, p, 0, 1, ["an", "hin"]);
  }

  /** "paano": pattern CVVCV; the VCV exemption gives CV, V, CV. */
  lemma Paano(w: string)
    requires w == "paano"
    ensures Syllabify(w) == ["pa", "a", "no"]
  {
    PaanoForms();
    PaanoScan(PreprocessNg(w), PatternOf(PreprocessNg(w)));
    DenormalizeWithoutPlaceholder(["pa", "a", "no"]);
  }

  /** The normalized form and pattern of "paano". */
  lemma PaanoForms()
    ensures PreprocessNg("paano") == "paano" && PatternOf("paano") == "CVVCV"
  {
  }

  /** The scan of that normalized word against its pattern, step by step. */
  lemma PaanoScan(w: string, p: string)
    requires w == "paano" && p == "CVVCV"
    ensures ScanFrom(w, p, 0) == ["pa", "a", "no"]
  {
    assert w[3..5] == "no";
    Emit(w, p, 3, 2, []);
    assert w[2..3] == "a";
    Emit(w, p, 2, 1, ["no"]);
    assert w[0..2] == "pa";
    Emit(w, p, 0, 2, ["a", "no"]);
  }

  /** "tumakbo": pattern CVCVCCV; the CVCV exemption gives CV, CVC, CV. */
  lemma Tumakbo(w: string)
    requires w == "tumakbo"
    ensures Syllabify(w) == ["tu", "mak", "bo"]
  {
    TumakboForms();
    TumakboScan(PreprocessNg(w), PatternOf(PreprocessNg(w)));
    DenormalizeWithoutPlaceholder(["tu", "mak", "bo"]);
  }

  /** The normalized form and pattern of "tumakbo". */
  lemma TumakboForms()
    ensures PreprocessNg("tumakbo") == "tumakbo" && PatternOf("tumakbo") == "CVCVCCV"
  {
  }

  /** The scan of that normalized word against its pattern, step by step. */
  lemma TumakboScan(w: string, p: string)
    requires w == "tumakbo" && p == "CVCVCCV"
    ensures ScanFrom(w, p, 0) == ["tu", "mak", "bo"]
  {
    assert w[5..7] == "bo";
    Emit(w, p, 5, 2, []);
    assert w[2..5] == "mak";
    Emit(w, p, 2, 3, ["bo"]);
    assert w[0..2] == "tu";
    Emit(w, p, 0, 2, ["mak", "bo"]);
  }

  /** "ngayon": normalized to "^ayon" with pattern CVCVC, cut as CV, CVC;
      the placeholder is then expanded back. */
  lemma Ngayon(w: string)
    requires w == "ngayon"
    ensures Syllabify(w) == ["nga", "yon"]
  {
    var n := PreprocessNg(w);
    NgayonForms();
    NgayonScan(n, PatternOf(n));
    assert Syllabify(w) == Denormalize(["^a", "yon"]);
    assert ExpandPlaceholder("^a") == "nga";
    assert ExpandPlaceholder("yon") == "yon";
  }

  /** The normalized form and pattern of "ngayon". */
  lemma NgayonForms()
    ensures PreprocessNg("ngayon") == "^ayon" && PatternOf("^ayon") == "CVCVC"
  {
  }

  /** The scan of that normalized word against its pattern, step by step. */
  lemma NgayonScan(w: string, p: string)
    requires w == "^ayon" && p == "CVCVC"
    ensures ScanFrom(w, p, 0) == ["^a", "yon"]
  {
    assert w[2..5] == "yon";
    Emit(w, p, 2, 3, []);
    assert w[0..2] == "^a";
    Emit(w, p, 0, 2, ["yon"]);
  }

  // ---------------------------------------------------------------------
  // The enye entry of the consonant list

  /** `get_syllables` with the consonant list as written. */
  function SyllabifyAsWritten(w: string): (r: seq<string>)
    ensures |r| == 0 <==> |w| == 0
  {
    if w == "ng" then [w]
    else
      var normalized := PreprocessNg(w);
      Denormalize(ScanFrom(normalized, PatternAsWritten(normalized), 0))
  }

  /** As written, the enye of "niño" is passed through unclassified, so the
      fallback rule makes it a syllable of its own and the vowel after it
      another: "ni", "ñ", "o". */
  lemma EnyeSplitAsWritten(w: string)
    requires w == "niño"
    ensures SyllabifyAsWritten(w) == ["ni", "ñ", "o"]
  {
    NinoForms();
    NinoScanAsWritten(PreprocessNg(w), PatternAsWritten(PreprocessNg(w)));
    DenormalizeWithoutPlaceholder(["ni", "ñ", "o"]);
  }

  /** With the enye classified as a consonant it opens the syllable of the
      vowel after it: "ni", "ño". */
  lemma EnyeJoinsVowel(w: string)
    requires w == "niño"
    ensures Syllabify(w) == ["ni", "ño"]
  {
    NinoForms();
    NinoScan(PreprocessNg(w), PatternOf(PreprocessNg(w)));
    DenormalizeWithoutPlaceholder(["ni", "ño"]);
  }

  /** The normalized form, pattern and as-written pattern of "niño". */
  lemma NinoForms()
    ensures PreprocessNg("niño") == "niño"
    ensures PatternOf("niño") == "CVCV"
    ensures PatternAsWritten("niño") == "CVñV"
  {
    AsWrittenMissesOnlyEnye('ñ');
  }

  /** The scan of "niño" against its as-written pattern, step by step. */
  lemma NinoScanAsWritten(w: string, p: string)
    requires w == "niño" && p == "CVñV"
    ensures ScanFrom(w, p, 0) == ["ni", "ñ", "o"]
  {
    assert w[3..4] == "o";
    Emit(w, p, 3, 1, []);
    assert w[2..3] == "ñ";
    Emit(w, p, 2, 1, ["o"]);
    assert w[0..2] == "ni";
    Emit(w, p, 0, 2, ["ñ", "o"]);
  }

  /** The scan of "niño" against its intended pattern, step by step. */
  lemma NinoScan(w: string, p: string)
    requires w == "niño" && p == "CVCV"
    ensures ScanFrom(w, p, 0) == ["ni", "ño"]
  {
    assert w[2..4] == "ño";
    Emit(w, p, 2, 2, []);
    assert w[0..2] == "ni";
    Emit(w, p, 0, 2, ["ño"]);
  }
}
