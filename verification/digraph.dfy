/**
 The "ng" digraph normalizer (`preprocess_ng`) and denormalizer
 (`postprocess_ng`). Normalizing rewrites each "ng" into the one-character
 placeholder '^' so that the digraph is classified as a single consonant;
 denormalizing turns every placeholder in each syllable back into "ng".
 */
module Digraph {
  import opened Text
  import opened Classifier

  /** `"ng" in word`, written out as a search over positions. */
  predicate HasNg(w: string)
    ensures HasNg(w) <==> exists k :: 0 <= k < |w| - 1 && w[k] == 'n' && w[k + 1] == 'g'
  {
    |w| >= 2 && ((w[0] == 'n' && w[1] == 'g') || HasNg(w[1..]))
  }

  /** `word.replace("ng", "^")`: a left-to-right, non-overlapping scan that
      replaces each "ng" it meets by the placeholder. */
  function ReplaceNg(w: string): (r: string)
    ensures |r| <= |w|
    ensures |w| > 0 <==> |r| > 0
    ensures HasNg(w) ==> |r| < |w|
    ensures !HasNg(w) ==> r == w
  {
    if |w| < 2 then w
    else if w[0] == 'n' && w[1] == 'g' then [Placeholder] + ReplaceNg(w[2..])
    else [w[0]] + ReplaceNg(w[1..])
  }

  /** Number of "ng" occurrences that the left-to-right scan replaces. */
  function CountNg(w: string): nat
  {
    if |w| < 2 then 0
    else if w[0] == 'n' && w[1] == 'g' then 1 + CountNg(w[2..])
    else CountNg(w[1..])
  }

  /** `preprocess_ng` */
  function PreprocessNg(w: string): (r: string)
    ensures r == ReplaceNg(w)
    ensures HasNg(w) ==> |r| < |w|
    ensures |r| == 0 <==> |w| == 0
  {
    if !HasNg(w) then w else ReplaceNg(w)
  }

  /** `s.replace("^", "ng")` on one syllable. */
  function ExpandPlaceholder(s: string): (r: string)
    ensures |r| >= |s|
    ensures |s| > 0 ==> |r| > 0
    ensures Placeholder !in s ==> r == s
  {
    if |s| == 0 then []
    else (if s[0] == Placeholder then "ng" else [s[0]]) + ExpandPlaceholder(s[1..])
  }

  /** The per-syllable step of `postprocess_ng`. */
  function DenormalizeSyllable(s: string): (r: string)
    ensures r == ExpandPlaceholder(s)
    ensures Placeholder !in r
    ensures |s| > 0 ==> |r| > 0
  {
    ExpandRemovesPlaceholder(s);
    if Placeholder !in s then s else ExpandPlaceholder(s)
  }

  /** What `postprocess_ng` returns: each syllable denormalized, in order. */
  function Denormalize(ss: seq<string>): (r: seq<string>)
    ensures |r| == |ss|
    ensures forall j :: 0 <= j < |r| ==> r[j] == ExpandPlaceholder(ss[j]) && Placeholder !in r[j]
    ensures forall j :: 0 <= j < |r| ==> |ss[j]| > 0 ==> |r[j]| > 0
  {
    seq(|ss|, j requires 0 <= j < |ss| => DenormalizeSyllable(ss[j]))
  }

  /** `postprocess_ng`: builds the new list by appending one syllable per
      input syllable. */
  method PostprocessNg(syllables: seq<string>) returns (r: seq<string>)
    ensures r == Denormalize(syllables)
    ensures |r| == |syllables|
    ensures forall j :: 0 <= j < |r| ==> r[j] == ExpandPlaceholder(syllables[j])
    ensures forall j :: 0 <= j < |r| && Placeholder !in syllables[j] ==> r[j] == syllables[j]
    ensures forall j :: 0 <= j < |r| ==> Placeholder !in r[j]
  {
    r := [];
    for k := 0 to |syllables|
      invariant r == Denormalize(syllables[..k])
    {
      var s := syllables[k];
      if Placeholder !in s {
        r := r + [s];
      } else {
        r := r + [ExpandPlaceholder(s)];
      }
    }
    assert syllables[..|syllables|] == syllables;
    forall j | 0 <= j < |r|
      ensures r[j] == ExpandPlaceholder(syllables[j]) && Placeholder !in r[j]
    {
      ExpandRemovesPlaceholder(syllables[j]);
    }
  }

  // ---------------------------------------------------------------------
  // Properties of the normalizer

  /** Each replacement shortens the word by exactly one character. */
  lemma {:induction false} ReplaceLength(w: string)
    ensures |ReplaceNg(w)| == |w| - CountNg(w)
    ensures |PreprocessNg(w)| == |w| - CountNg(w)
  {
    if |w| >= 2 {
      if w[0] == 'n' && w[1] == 'g' {
        ReplaceLength(w[2..]);
      } else {
        ReplaceLength(w[1..]);
      }
    }
    if !HasNg(w) {
      NoNgCountsZero(w);
    }
  }

  /** A word without "ng" has no replacements to make. */
  lemma {:induction false} NoNgCountsZero(w: string)
    requires !HasNg(w)
    ensures CountNg(w) == 0
  {
    if |w| >= 2 {
      NoNgCountsZero(w[1..]);
    }
  }

  /** The first character of the replaced word: a placeholder when the word
      starts with "ng", the word's own first character otherwise. */
  lemma ReplaceHead(w: string)
    requires |w| > 0
    ensures ReplaceNg(w)[0] == (if |w| >= 2 && w[0] == 'n' && w[1] == 'g' then Placeholder else w[0])
  {
  }

  /** The normalized word contains no "ng": the scan never leaves an 'n'
      directly before a 'g'. */
  lemma {:induction false} ReplaceLeavesNoNg(w: string)
    ensures !HasNg(ReplaceNg(w))
    ensures !HasNg(PreprocessNg(w))
  {
    if |w| >= 2 {
      var rest := if w[0] == 'n' && w[1] == 'g' then w[2..] else w[1..];
      ReplaceLeavesNoNg(rest);
      var r := ReplaceNg(w);
      assert r[1..] == ReplaceNg(rest);
      if |rest| > 0 && r[0] == 'n' {
        ReplaceHead(rest);
        assert r[1] == ReplaceNg(rest)[0];
      }
    }
  }

  // ---------------------------------------------------------------------
  // Properties of the denormalizer

  /** Expansion grows the syllable by one character per placeholder, keeps it
      non-empty, and leaves no placeholder behind. */
  lemma {:induction false} ExpandRemovesPlaceholder(s: string)
    ensures |ExpandPlaceholder(s)| == |s| + multiset(s)[Placeholder]
    ensures |s| > 0 ==> |ExpandPlaceholder(s)| > 0
    ensures Placeholder !in ExpandPlaceholder(s)
  {
    if |s| > 0 {
      ExpandRemovesPlaceholder(s[1..]);
      var head := if s[0] == Placeholder then "ng" else [s[0]];
      assert ExpandPlaceholder(s) == head + ExpandPlaceholder(s[1..]);
      assert Placeholder !in head;
      assert s == [s[0]] + s[1..];
      assert multiset(s) == multiset{s[0]} + multiset(s[1..]);
    }
  }

  /** Expansion distributes over concatenation. */
  lemma {:induction false} ExpandAppend(a: string, b: string)
    ensures ExpandPlaceholder(a + b) == ExpandPlaceholder(a) + ExpandPlaceholder(b)
    decreases |a|
  {
    if |a| > 0 {
      assert (a + b)[1..] == a[1..] + b;
      ExpandAppend(a[1..], b);
    } else {
      assert a + b == b;
    }
  }

  /** Joining the denormalized syllables gives the denormalized join. */
  lemma {:induction false} DenormalizeConcat(ss: seq<string>)
    ensures Concat(Denormalize(ss)) == ExpandPlaceholder(Concat(ss))
    decreases |ss|
  {
    if |ss| > 0 {
      var init := ss[..|ss| - 1];
      var d := Denormalize(ss);
      assert d[..|d| - 1] == Denormalize(init);
      DenormalizeConcat(init);
      ExpandAppend(Concat(init), ss[|ss| - 1]);
    }
  }

  /** A list of syllables without placeholders is left as it is. */
  lemma DenormalizeWithoutPlaceholder(ss: seq<string>)
    requires forall j :: 0 <= j < |ss| ==> Placeholder !in ss[j]
    ensures Denormalize(ss) == ss
  {
  }

  /** Round trip: for a word with no literal placeholder, expanding the
      placeholders of the normalized word restores the word. */
  lemma {:induction false} ExpandReplaceRoundTrip(w: string)
    requires Placeholder !in w
    ensures ExpandPlaceholder(ReplaceNg(w)) == w
    ensures ExpandPlaceholder(PreprocessNg(w)) == w
  {
    var r := ReplaceNg(w);
    if |w| >= 2 {
      if w[0] == 'n' && w[1] == 'g' {
        assert Placeholder !in w[2..];
        ExpandReplaceRoundTrip(w[2..]);
        assert r[0] == Placeholder && r[1..] == ReplaceNg(w[2..]);
        assert ExpandPlaceholder(r) == "ng" + ExpandPlaceholder(r[1..]);
        assert w == "ng" + w[2..];
      } else {
        assert Placeholder !in w[1..];
        ExpandReplaceRoundTrip(w[1..]);
        assert r[0] == w[0] != Placeholder && r[1..] == ReplaceNg(w[1..]);
        assert ExpandPlaceholder(r) == [w[0]] + ExpandPlaceholder(r[1..]);
        assert w == [w[0]] + w[1..];
      }
    } else if |w| == 1 {
      assert ExpandPlaceholder(w) == [w[0]] + ExpandPlaceholder(w[1..]);
    }
  }

  /** The first character of an expanded syllable. */
  lemma ExpandHead(s: string)
    requires |s| > 0
    ensures |ExpandPlaceholder(s)| > 0
    ensures ExpandPlaceholder(s)[0] == (if s[0] == Placeholder then 'n' else s[0])
  {
  }

  /** A word without "ng" has none after its first character either. */
  lemma NoNgInTail(s: string)
    requires |s| > 0 && !HasNg(s)
    ensures !HasNg(s[1..])
    ensures |s| >= 2 ==> !(s[0] == 'n' && s[1] == 'g')
  {
  }

  /** The other direction: a word with no "ng" (every normalized word is
      one) is recovered by normalizing its expansion, so denormalization
      loses nothing. */
  lemma {:induction false} ReplaceExpandRoundTrip(s: string)
    requires !HasNg(s)
    ensures ReplaceNg(ExpandPlaceholder(s)) == s
  {
    if |s| > 0 {
      var e := ExpandPlaceholder(s);
      var tail := ExpandPlaceholder(s[1..]);
      NoNgInTail(s);
      ReplaceExpandRoundTrip(s[1..]);
      if s[0] == Placeholder {
        assert e == "ng" + tail;
        assert e[2..] == tail;
        assert ReplaceNg(e) == [Placeholder] + ReplaceNg(tail);
      } else {
        assert e == [s[0]] + tail;
        assert e[1..] == tail;
        if |s| >= 2 {
          ExpandHead(s[1..]);
          assert !(e[0] == 'n' && e[1] == 'g');
        }
        assert ReplaceNg(e) == [s[0]] + ReplaceNg(tail);
        assert s == [s[0]] + s[1..];
      }
    }
  }
}
