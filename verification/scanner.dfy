/**
 The syllable scanner of `get_syllables`: a cursor walks the pattern and, at
 each position, the first matching rule of an ordered list decides how many
 characters the next syllable takes. This module is the specification of that
 scan; the loop itself is `Syllabicator.CutSyllables`.
 */
module Scanner {
  import opened Text
  import opened Classifier
  import opened Pattern

  /** The rules, in priority order. */
  datatype Rule =
    | VowelConsonant  // "VC" not followed by a vowel: takes 2
    | LoneVowel       // "V": takes 1
    | ClosedSyllable  // "CVC" not followed by a vowel: takes 3
    | OpenSyllable    // "CV": takes 2
    | Fallback        // anything else: takes 1

  /** Number of characters a rule puts into the syllable. */
  function Width(rule: Rule): nat
  {
    match rule
    case VowelConsonant => 2
    case LoneVowel => 1
    case ClosedSyllable => 3
    case OpenSyllable => 2
    case Fallback => 1
  }

  /** The first rule that matches the pattern from position i on. The
      syllable it selects lies inside the pattern, so every index the scan
      uses is in bounds. */
  function RuleAt(p: string, i: nat): (rule: Rule)
    requires i < |p|
    ensures 1 <= Width(rule) <= 3
    ensures i + Width(rule) <= |p|
  {
    var rest := p[i..];
    if StartsWith(rest, "VC") && !StartsWith(rest, "VCV") then VowelConsonant
    else if StartsWith(rest, "V") then LoneVowel
    else if StartsWith(rest, "CVC") && !StartsWith(rest, "CVCV") then ClosedSyllable
    else if StartsWith(rest, "CV") then OpenSyllable
    else Fallback
  }

  /** Position k of the pattern exists and holds symbol c. */
  predicate SymbolIs(p: string, k: nat, c: char)
  {
    k < |p| && p[k] == c
  }

  /** The rule choice read off the (at most four) symbols at the cursor. */
  function RuleBySymbols(p: string, i: nat): Rule
  {
    if SymbolIs(p, i, 'V') && SymbolIs(p, i + 1, 'C') && !SymbolIs(p, i + 2, 'V') then VowelConsonant
    else if SymbolIs(p, i, 'V') then LoneVowel
    else if SymbolIs(p, i, 'C') && SymbolIs(p, i + 1, 'V') && SymbolIs(p, i + 2, 'C') && !SymbolIs(p, i + 3, 'V') then ClosedSyllable
    else if SymbolIs(p, i, 'C') && SymbolIs(p, i + 1, 'V') then OpenSyllable
    else Fallback
  }

  /** Prefix tests on the rest of the pattern are tests on single symbols:
      the rule list, written with `startswith`, chooses what the symbols at
      the cursor say. */
  lemma RuleAtBySymbols(p: string, i: nat)
    requires i < |p|
    ensures RuleAt(p, i) == RuleBySymbols(p, i)
  {
    var rest := p[i..];
    forall q: string | |q| <= 4
      ensures StartsWith(rest, q) <==> forall j :: 0 <= j < |q| ==> SymbolIs(p, i + j, q[j])
    {
      if StartsWith(rest, q) {
        forall j | 0 <= j < |q| ensures SymbolIs(p, i + j, q[j]) {
          assert rest[..|q|][j] == q[j];
        }
      }
      if forall j :: 0 <= j < |q| ==> SymbolIs(p, i + j, q[j]) {
        if |q| > 0 {
          assert SymbolIs(p, i + |q| - 1, q[|q| - 1]);
        }
        assert rest[..|q|] == q;
      }
    }
    assert "VCV"[0] == 'V' && "VCV"[1] == 'C' && "VCV"[2] == 'V';
    assert "CVCV"[0] == 'C' && "CVCV"[1] == 'V' && "CVCV"[2] == 'C' && "CVCV"[3] == 'V';
  }

  /** The syllables the scan emits from cursor position i to the end. */
  function ScanFrom(w: string, p: string, i: nat): (r: seq<string>)
    requires |p| == |w| && i <= |w|
    ensures |r| == 0 <==> i == |w|
    ensures |r| <= |w| - i
    decreases |w| - i
  {
    if i == |w| then []
    else
      var n := Width(RuleAt(p, i));
      [w[i..i + n]] + ScanFrom(w, p, i + n)
  }

  /** Unfolding the scan once at the cursor. */
  lemma NextSyllable(w: string, p: string, i: nat)
    requires |p| == |w| && i < |w|
    ensures var n := Width(RuleAt(p, i));
      i + n <= |w| && ScanFrom(w, p, i) == [w[i..i + n]] + ScanFrom(w, p, i + n)
  {
  }

  /** One step of the scan read off the symbols at the cursor: used to
      work out the scan of a concrete word position by position. */
  lemma Emit(w: string, p: string, i: nat, n: nat, tail: seq<string>)
    requires |p| == |w| && i < |w|
    requires Width(RuleBySymbols(p, i)) == n
    requires i + n <= |w| && ScanFrom(w, p, i + n) == tail
    ensures ScanFrom(w, p, i) == [w[i..i + n]] + tail
  {
    RuleAtBySymbols(p, i);
  }

  /** The scan partitions the rest of the word: its syllables join to
      w[i..], so nothing is lost, duplicated or reordered. */
  lemma {:induction false} ScanCovers(w: string, p: string, i: nat)
    requires |p| == |w| && i <= |w|
    ensures Concat(ScanFrom(w, p, i)) == w[i..]
    decreases |w| - i
  {
    if i < |w| {
      var n := Width(RuleAt(p, i));
      var piece := w[i..i + n];
      var rest := ScanFrom(w, p, i + n);
      NextSyllable(w, p, i);
      ScanCovers(w, p, i + n);
      ConcatAppend([piece], rest);
      assert Concat([piece]) == piece by {
        assert [piece][..0] == [];
      }
      assert w[i..] == piece + w[i + n..];
    }
  }

  /** Every syllable of the scan has one to three characters. */
  lemma {:induction false} ScanWellSized(w: string, p: string, i: nat)
    requires |p| == |w| && i <= |w|
    ensures forall k :: 0 <= k < |ScanFrom(w, p, i)| ==> 1 <= |ScanFrom(w, p, i)[k]| <= 3
    decreases |w| - i
  {
    if i < |w| {
      var n := Width(RuleAt(p, i));
      var rest := ScanFrom(w, p, i + n);
      NextSyllable(w, p, i);
      ScanWellSized(w, p, i + n);
      var s := [w[i..i + n]] + rest;
      forall k | 0 <= k < |s| ensures 1 <= |s[k]| <= 3 {
        if k > 0 { assert s[k] == rest[k - 1]; }
      }
    }
  }

  /** The pattern shapes a syllable can have: one of the four rule shapes,
      or a single symbol other than a vowel (the fallback). */
  predicate IsRuleShape(q: string)
  {
    q == "VC" || q == "V" || q == "CVC" || q == "CV" || (|q| == 1 && q != "V")
  }

  /** One step read on the pattern alone: the piece the first matching
      rule takes has a rule shape, and when it ends in 'C' the symbol after
      it is not 'V'. */
  lemma RuleKeepsOnset(p: string, i: nat)
    requires i < |p|
    ensures var n := Width(RuleAt(p, i));
      IsRuleShape(p[i..i + n]) && (i + n < |p| && p[i + n - 1] == 'C' ==> p[i + n] != 'V')
  {
    RuleAtBySymbols(p, i);
    var n := Width(RuleAt(p, i));
    var q := p[i..i + n];
    match RuleAt(p, i)
    case VowelConsonant => assert q == "VC";
    case LoneVowel => assert q == "V";
    case ClosedSyllable => assert q == "CVC";
    case OpenSyllable => assert q == "CV";
    case Fallback => assert q[0] == p[i];
  }

  /** Every syllable is non-empty and its pattern is a rule shape. */
  predicate Shaped(s: seq<string>)
  {
    forall k :: 0 <= k < |s| ==> |s[k]| > 0 && IsRuleShape(PatternOf(s[k]))
  }

  /** No consonant is split off from the vowel that follows it: syllable
      k + 1 does not start with a vowel when syllable k ends in a consonant. */
  predicate OnsetsKept(s: seq<string>)
  {
    forall k :: 0 <= k < |s| - 1 && |s[k]| > 0 && |s[k + 1]| > 0 ==>
      (IsConsonant(s[k][|s[k]| - 1]) ==> !IsVowel(s[k + 1][0]))
  }

  /** Where syllable k of the scan from cursor i starts; once the scan is
      over, the end of the word. */
  function Start(p: string, i: nat, k: nat): (r: nat)
    requires i <= |p|
    ensures i <= r <= |p|
    decreases |p| - i
  {
    if k == 0 || i == |p| then i else Start(p, i + Width(RuleAt(p, i)), k - 1)
  }

  /** The start of syllable k + 1 is the start of syllable k advanced by
      the width of the rule chosen there. */
  lemma {:induction false} StartNext(p: string, i: nat, k: nat)
    requires i <= |p| && Start(p, i, k) < |p|
    ensures Start(p, i, k + 1) == Start(p, i, k) + Width(RuleAt(p, Start(p, i, k)))
    decreases |p| - i
  {
    assert i < |p|;
    var n := Width(RuleAt(p, i));
    if k == 0 {
      assert Start(p, i, 1) == Start(p, i + n, 0) == i + n;
    } else {
      assert Start(p, i, k) == Start(p, i + n, k - 1);
      assert Start(p, i, k + 1) == Start(p, i + n, k);
      StartNext(p, i + n, k - 1);
    }
  }

  /** The pattern piece of syllable k has a rule shape, and when it ends in
      'C' the symbol after it is not 'V'. */
  lemma PieceFacts(p: string, i: nat, k: nat)
    requires i <= |p| && Start(p, i, k) < |p|
    ensures Start(p, i, k) < Start(p, i, k + 1)
    ensures IsRuleShape(p[Start(p, i, k)..Start(p, i, k + 1)])
    ensures Start(p, i, k + 1) < |p| && p[Start(p, i, k + 1) - 1] == 'C' ==> p[Start(p, i, k + 1)] != 'V'
  {
    StartNext(p, i, k);
    RuleKeepsOnset(p, Start(p, i, k));
  }

  /** Syllable k of the scan is the slice of the word between its start and
      the start of the next one. */
  lemma {:induction false} PieceAt(w: string, p: string, i: nat, k: nat)
    requires |p| == |w| && i <= |w| && k < |ScanFrom(w, p, i)|
    ensures Start(p, i, k) < Start(p, i, k + 1)
    ensures ScanFrom(w, p, i)[k] == w[Start(p, i, k)..Start(p, i, k + 1)]
    decreases |w| - i
  {
    assert i < |w|;
    var n := Width(RuleAt(p, i));
    NextSyllable(w, p, i);
    if k > 0 {
      PieceAt(w, p, i + n, k - 1);
    }
  }

  /** A pattern that gives each character's symbol gives, on any slice,
      the slice's pattern. */
  lemma SliceSymbols(w: string, p: string, a: nat, b: nat)
    requires a <= b <= |w| == |p|
    requires forall j {:trigger w[j]} :: 0 <= j < |w| ==> p[j] == Symbol(w[j])
    ensures PatternOf(w[a..b]) == p[a..b]
  {
    assert forall j :: 0 <= j < b - a ==> w[a..b][j] == w[a + j];
  }

  /** Syllable k of the scan, against a pattern that gives each character's
      symbol, is non-empty and has a rule shape. */
  lemma PieceShape(w: string, p: string, k: nat)
    requires |p| == |w|
    requires forall j {:trigger w[j]} :: 0 <= j < |w| ==> p[j] == Symbol(w[j])
    requires k < |ScanFrom(w, p, 0)|
    ensures |ScanFrom(w, p, 0)[k]| > 0 && IsRuleShape(PatternOf(ScanFrom(w, p, 0)[k]))
  {
    PieceAt(w, p, 0, k);
    PieceFacts(p, 0, k);
    SliceSymbols(w, p, Start(p, 0, k), Start(p, 0, k + 1));
  }

  /** Syllables k and k + 1 of the scan meet at the start of syllable
      k + 1, where the pattern does not read 'C' then 'V'. */
  lemma PieceOnset(w: string, p: string, k: nat)
    requires |p| == |w|
    requires k + 1 < |ScanFrom(w, p, 0)|
    ensures 0 < Start(p, 0, k + 1) < |w|
    ensures |ScanFrom(w, p, 0)[k]| > 0 && |ScanFrom(w, p, 0)[k + 1]| > 0
    ensures ScanFrom(w, p, 0)[k][|ScanFrom(w, p, 0)[k]| - 1] == w[Start(p, 0, k + 1) - 1]
    ensures ScanFrom(w, p, 0)[k + 1][0] == w[Start(p, 0, k + 1)]
    ensures p[Start(p, 0, k + 1) - 1] == 'C' ==> p[Start(p, 0, k + 1)] != 'V'
  {
    var s := ScanFrom(w, p, 0);
    PieceAt(w, p, 0, k);
    PieceAt(w, p, 0, k + 1);
    PieceFacts(p, 0, k);
    var a, b := Start(p, 0, k), Start(p, 0, k + 1);
    var last := b - a - 1;
    assert s[k] == w[a..b] && |s[k]| - 1 == last;
    assert w[a..b][last] == w[b - 1];
  }

  /** Shapes and onsets for the scan of a word against a pattern that gives
      each character's symbol. */
  lemma ScanShapesOf(w: string, p: string)
    requires |p| == |w|
    requires forall j {:trigger w[j]} :: 0 <= j < |w| ==> p[j] == Symbol(w[j])
    ensures Shaped(ScanFrom(w, p, 0))
    ensures OnsetsKept(ScanFrom(w, p, 0))
  {
    var s := ScanFrom(w, p, 0);
    forall k | 0 <= k < |s| ensures |s[k]| > 0 && IsRuleShape(PatternOf(s[k])) {
      PieceShape(w, p, k);
    }
    forall k | 0 <= k < |s| - 1 && |s[k]| > 0 && |s[k + 1]| > 0
      ensures IsConsonant(s[k][|s[k]| - 1]) ==> !IsVowel(s[k + 1][0])
    {
      PieceOnset(w, p, k);
      var b := Start(p, 0, k + 1);
      CharsKeepOnset(w[b - 1], w[b]);
    }
  }

  /** Two neighbouring characters whose symbols are not 'C' then 'V' are not
      a consonant then a vowel. */
  lemma CharsKeepOnset(x: char, y: char)
    requires Symbol(x) == 'C' ==> Symbol(y) != 'V'
    ensures IsConsonant(x) ==> !IsVowel(y)
  {
  }

  /** The shape of every syllable and the onset rule: a consonant that
      closes a syllable is never followed by a syllable that starts with a
      vowel, so a consonant standing before a vowel always opens that
      vowel's syllable (the VCV and CVCV exemptions). */
  lemma ScanShapes(w: string)
    ensures Shaped(ScanFrom(w, PatternOf(w), 0))
    ensures OnsetsKept(ScanFrom(w, PatternOf(w), 0))
  {
    ScanShapesOf(w, PatternOf(w));
  }

  /** Syllable boundaries depend on the pattern alone: scanning the pattern
      against itself cuts it into pieces of the same lengths. */
  lemma {:induction false} BoundariesFollowPattern(w: string, p: string, i: nat)
    requires |p| == |w| && i <= |w|
    ensures |ScanFrom(w, p, i)| == |ScanFrom(p, p, i)|
    ensures forall k :: 0 <= k < |ScanFrom(w, p, i)| ==> |ScanFrom(w, p, i)[k]| == |ScanFrom(p, p, i)[k]|
    decreases |w| - i
  {
    if i < |w| {
      var n := Width(RuleAt(p, i));
      BoundariesFollowPattern(w, p, i + n);
      var a := ScanFrom(w, p, i);
      var b := ScanFrom(p, p, i);
      assert a == [w[i..i + n]] + ScanFrom(w, p, i + n);
      assert b == [p[i..i + n]] + ScanFrom(p, p, i + n);
    }
  }
}
