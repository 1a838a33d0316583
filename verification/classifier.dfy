/**
 The ingredient classifier `check_vegetarian` of main.py, as a pure function
 of the recognised text, the lexicon of non-vegetarian terms and the
 "may contain traces of" phrase, together with the shipped German lexicon and
 phrase. The model follows the code as written: the text is lower-cased once,
 the lines are split from the lower-cased text, and the per-line test uses
 the phrase exactly as configured.
 */
module Classifier {
  import opened Text

  /** The shipped lexicon of German non-vegetarian ingredient terms. */
  const NonVegIngredients: seq<string> :=
    ["Fleisch", "Huhn", "Rind", "Schwein", "Fisch", "Gelatine", "Speck", "Lamm",
     "Kollagenhydrolysat", "Krabben"]

  /** The shipped "may contain traces of" phrase. */
  const AmbiguousPhrase: string := "kann Spuren von"

  /** The separator the recognised text is split into lines on. */
  const LineBreak: string := "\n"

  /** The two result lists `check_vegetarian` returns. */
  datatype Verdict = Verdict(nonVeg: seq<string>, ambiguous: seq<string>)

  predicate Distinct(s: seq<string>) {
    forall i, j :: 0 <= i < j < |s| ==> s[i] != s[j]
  }

  /** `a` is `b` with some entries left out and the rest kept in order. */
  ghost predicate IsSubsequence(a: seq<string>, b: seq<string>)
    decreases |b|
  {
    || |a| == 0
    || (&& |b| > 0
        && ((a[0] == b[0] && IsSubsequence(a[1..], b[1..])) || IsSubsequence(a, b[1..])))
  }

  /** The lexicon terms whose lower-cased form occurs in `haystack`, in
      lexicon order. */
  function MatchTerms(lexicon: seq<string>, haystack: string): (r: seq<string>)
    ensures |r| <= |lexicon|
    ensures forall t :: t in r <==> t in lexicon && Contains(haystack, Lower(t))
    ensures IsSubsequence(r, lexicon)
    ensures Distinct(lexicon) ==> Distinct(r)
    decreases |lexicon|
  {
    if |lexicon| == 0 then []
    else
      var rest := MatchTerms(lexicon[1..], haystack);
      assert forall t :: t in lexicon <==> t == lexicon[0] || t in lexicon[1..];
      if Contains(haystack, Lower(lexicon[0])) then
        assert ([lexicon[0]] + rest)[1..] == rest;
        [lexicon[0]] + rest
      else
        rest
  }

  /** The stripped lines that contain `phrase`, in line order. */
  function CollectLines(lines: seq<string>, phrase: string): (r: seq<string>)
    ensures |r| <= |lines|
    ensures forall e :: e in r ==> exists l :: l in lines && Contains(l, phrase) && e == Strip(l)
    ensures forall l :: l in lines && Contains(l, phrase) ==> Strip(l) in r
    decreases |lines|
  {
    if |lines| == 0 then []
    else
      var rest := CollectLines(lines[1..], phrase);
      assert forall l :: l in lines <==> l == lines[0] || l in lines[1..];
      if Contains(lines[0], phrase) then [Strip(lines[0])] + rest else rest
  }

  /** `check_vegetarian(text)` with the lexicon and the phrase as parameters. */
  function CheckVegetarian(text: string, lexicon: seq<string>, phrase: string): (v: Verdict)
    ensures forall t :: t in v.nonVeg <==> t in lexicon && Contains(Lower(text), Lower(t))
    ensures IsSubsequence(v.nonVeg, lexicon)
    ensures !Contains(Lower(text), Lower(phrase)) ==> v.ambiguous == []
    ensures forall e :: e in v.ambiguous ==>
      exists l :: l in SplitOn(Lower(text), LineBreak) && Contains(l, phrase) && e == Strip(l)
    ensures forall l :: l in SplitOn(Lower(text), LineBreak) && Contains(l, phrase) ==> Strip(l) in v.ambiguous
  {
    var lowered := Lower(text);
    var nonVeg := MatchTerms(lexicon, lowered);
    if Contains(lowered, Lower(phrase)) then
      Verdict(nonVeg, CollectLines(SplitOn(lowered, LineBreak), phrase))
    else
      NoLineWithoutText(text, phrase);
      Verdict(nonVeg, [])
  }

  /** `check_vegetarian` with the shipped lexicon and phrase. */
  function CheckShipped(text: string): (v: Verdict)
    ensures forall t :: t in v.nonVeg <==> t in NonVegIngredients && Contains(Lower(text), Lower(t))
  {
    CheckVegetarian(text, NonVegIngredients, AmbiguousPhrase)
  }

  /* ---------------------------------------------------------------------
     Order and multiplicity
     --------------------------------------------------------------------- */

  /** Matching distributes over concatenation of lexicons, so the matches
      keep lexicon order. */
  lemma {:induction false} MatchTermsAppend(a: seq<string>, b: seq<string>, haystack: string)
    ensures MatchTerms(a + b, haystack) == MatchTerms(a, haystack) + MatchTerms(b, haystack)
    decreases |a|
  {
    if |a| == 0 {
      assert a + b == b;
    } else {
      assert (a + b)[0] == a[0];
      assert (a + b)[1..] == a[1..] + b;
      MatchTermsAppend(a[1..], b, haystack);
    }
  }

  /** Line collection distributes over concatenation of line lists, so the
      entries keep line order and repeated lines are reported repeatedly. */
  lemma {:induction false} CollectLinesAppend(a: seq<string>, b: seq<string>, phrase: string)
    ensures CollectLines(a + b, phrase) == CollectLines(a, phrase) + CollectLines(b, phrase)
    decreases |a|
  {
    if |a| == 0 {
      assert a + b == b;
    } else {
      assert (a + b)[0] == a[0];
      assert (a + b)[1..] == a[1..] + b;
      CollectLinesAppend(a[1..], b, phrase);
    }
  }

  /** When every line contains the phrase, every line is reported, stripped,
      in order. */
  lemma {:induction false} CollectLinesEveryLine(lines: seq<string>, phrase: string)
    requires forall i :: 0 <= i < |lines| ==> Contains(lines[i], phrase)
    ensures |CollectLines(lines, phrase)| == |lines|
    ensures forall i :: 0 <= i < |lines| ==> CollectLines(lines, phrase)[i] == Strip(lines[i])
    decreases |lines|
  {
    if |lines| > 0 {
      CollectLinesEveryLine(lines[1..], phrase);
      CollectLinesKeep(lines, phrase);
      forall i | 0 < i < |lines|
        ensures CollectLines(lines, phrase)[i] == Strip(lines[i])
      {
        assert lines[1..][i - 1] == lines[i];
      }
    }
  }

  /** A first line that contains the phrase is kept in front of the rest. */
  lemma CollectLinesKeep(lines: seq<string>, phrase: string)
    requires |lines| > 0 && Contains(lines[0], phrase)
    ensures CollectLines(lines, phrase) == [Strip(lines[0])] + CollectLines(lines[1..], phrase)
  {
  }

  lemma {:induction false} DistinctOnce(s: seq<string>, t: string)
    requires Distinct(s) && t in s
    ensures multiset(s)[t] == 1
    decreases |s|
  {
    assert s == [s[0]] + s[1..];
    if s[0] == t {
      assert t !in s[1..];
    } else {
      DistinctOnce(s[1..], t);
    }
  }

  lemma ShippedLexiconDistinct()
    ensures Distinct(NonVegIngredients)
  {
    var s := NonVegIngredients;
    assert forall i :: 0 <= i < |s| ==> |s[i]| > 0;
    assert forall i, j :: 0 <= i < j < |s| && s[i][0] == s[j][0] ==> |s[i]| != |s[j]| || s[i][1] != s[j][1];
  }

  /** With the shipped lexicon no term is reported twice. */
  lemma ShippedNonVegDistinct(text: string)
    ensures Distinct(CheckShipped(text).nonVeg)
  {
    ShippedLexiconDistinct();
  }

  /** A text consisting of one lexicon term reports that term exactly once
      when the lexicon has no repeats; the phrase plays no part. */
  lemma TermAloneFound(lexicon: seq<string>, phrase: string, i: int)
    requires Distinct(lexicon) && 0 <= i < |lexicon|
    ensures multiset(CheckVegetarian(lexicon[i], lexicon, phrase).nonVeg)[lexicon[i]] == 1
  {
    var t := lexicon[i];
    assert StartsWith(Lower(t), Lower(t));
    DistinctOnce(CheckVegetarian(t, lexicon, phrase).nonVeg, t);
  }

  /** The shipped classifier reports a text that is one shipped term as
      exactly that term, once. */
  lemma ShippedTermAloneFound(i: int)
    requires 0 <= i < |NonVegIngredients|
    ensures multiset(CheckShipped(NonVegIngredients[i]).nonVeg)[NonVegIngredients[i]] == 1
  {
    ShippedLexiconDistinct();
    TermAloneFound(NonVegIngredients, AmbiguousPhrase, i);
  }

  /* ---------------------------------------------------------------------
     Case insensitivity in the text
     --------------------------------------------------------------------- */

  /** Classifying text and its lower-cased form gives the same verdict. */
  lemma LowerTextSameVerdict(text: string, lexicon: seq<string>, phrase: string)
    ensures CheckVegetarian(Lower(text), lexicon, phrase) == CheckVegetarian(text, lexicon, phrase)
  {
    LowerIdempotent(text);
  }

  /** Classifying text and its upper-cased form gives the same verdict. */
  lemma UpperTextSameVerdict(text: string, lexicon: seq<string>, phrase: string)
    ensures CheckVegetarian(Upper(text), lexicon, phrase) == CheckVegetarian(text, lexicon, phrase)
  {
    LowerOfUpper(text);
  }

  /* ---------------------------------------------------------------------
     The ambiguous lines
     --------------------------------------------------------------------- */

  /** The lines the text is split into are lower-case. */
  lemma LinesAreLower(text: string, l: string)
    requires l in SplitOn(Lower(text), LineBreak)
    ensures IsLower(l)
  {
    var lines := SplitOn(Lower(text), LineBreak);
    var i :| 0 <= i < |lines| && lines[i] == l;
    SplitOnPieceOccurs(Lower(text), LineBreak, i);
    LowerIsLower(text);
    ContainsLower(Lower(text), l);
  }

  /** Every reported line is lower-case and has no surrounding whitespace. */
  lemma AmbiguousLowerTrimmed(text: string, lexicon: seq<string>, phrase: string)
    ensures forall e :: e in CheckVegetarian(text, lexicon, phrase).ambiguous ==>
      IsLower(e) && Trimmed(e) && Lower(e) == e
  {
    forall e | e in CheckVegetarian(text, lexicon, phrase).ambiguous
      ensures IsLower(e) && Trimmed(e) && Lower(e) == e
    {
      var l :| l in SplitOn(Lower(text), LineBreak) && Contains(l, phrase) && e == Strip(l);
      LinesAreLower(text, l);
      StripLower(l);
      LowerIsLower(e);
    }
  }

  /** Lines none of which contains the phrase yield nothing. */
  lemma {:induction false} CollectLinesNone(lines: seq<string>, phrase: string)
    requires forall l :: l in lines ==> !Contains(l, phrase)
    ensures CollectLines(lines, phrase) == []
    decreases |lines|
  {
    if |lines| > 0 {
      assert lines[0] in lines;
      CollectLinesNone(lines[1..], phrase);
    }
  }

  /** A phrase with an upper-case letter in it is never found in a line,
      because the lines are lower-cased and the phrase is not. */
  lemma MixedCasePhraseNeverMatches(text: string, lexicon: seq<string>, phrase: string)
    requires Lower(phrase) != phrase
    ensures CheckVegetarian(text, lexicon, phrase).ambiguous == []
  {
    var lines := SplitOn(Lower(text), LineBreak);
    forall l | l in lines
      ensures !Contains(l, phrase)
    {
      LinesAreLower(text, l);
      if Contains(l, phrase) {
        ContainsLower(l, phrase);
        LowerIsLower(phrase);
        assert false;
      }
    }
    CollectLinesNone(lines, phrase);
  }

  /** The shipped phrase has a capital S, so the shipped classifier never
      reports an ambiguous line, whatever the text. */
  lemma ShippedPhraseNeverReports(text: string)
    ensures CheckShipped(text).ambiguous == []
  {
    assert Lower(AmbiguousPhrase)[5] == 's' != AmbiguousPhrase[5];
    MixedCasePhraseNeverMatches(text, NonVegIngredients, AmbiguousPhrase);
  }

  /** A line of the lower-cased text that contains the phrase as written
      puts the lower-cased phrase in the whole lower-cased text, so the
      whole-text test on the lower-cased phrase never hides such a line. */
  lemma NoLineWithoutText(text: string, phrase: string)
    requires !Contains(Lower(text), Lower(phrase))
    ensures forall l :: l in SplitOn(Lower(text), LineBreak) ==> !Contains(l, phrase)
  {
    forall l | l in SplitOn(Lower(text), LineBreak)
      ensures !Contains(l, phrase)
    {
      if Contains(l, phrase) {
        LinesAreLower(text, l);
        ContainsLower(l, phrase);
        LowerIsLower(phrase);
        LineInText(text, l, phrase);
        assert false;
      }
    }
  }

  /** The whole-text test of the code as written is only a shortcut: the
      reported lines are exactly those the line scan collects, in line
      order and with repeats. */
  lemma ScansEveryLine(text: string, lexicon: seq<string>, phrase: string)
    ensures CheckVegetarian(text, lexicon, phrase).ambiguous
         == CollectLines(SplitOn(Lower(text), LineBreak), phrase)
  {
    if !Contains(Lower(text), Lower(phrase)) {
      NoLineWithoutText(text, phrase);
      CollectLinesNone(SplitOn(Lower(text), LineBreak), phrase);
    }
  }

  /** There are at most as many reported lines as lines in the text. */
  lemma AmbiguousAtMostLines(text: string, lexicon: seq<string>, phrase: string)
    ensures |CheckVegetarian(text, lexicon, phrase).ambiguous| <= Count(text, '\n') + 1
  {
    SplitOnCount(Lower(text), '\n');
    CountLower(text);
  }

  /** Every line contains the empty phrase. */
  lemma EmptyPhraseInEveryLine(lines: seq<string>)
    ensures forall i :: 0 <= i < |lines| ==> Contains(lines[i], [])
  {
    forall i | 0 <= i < |lines|
      ensures Contains(lines[i], [])
    {
      assert StartsWith(lines[i], []);
    }
  }

  /** Nothing guards against an empty phrase: it is found in every line, so
      every line of the text is reported. */
  lemma EmptyPhraseTakesEveryLine(text: string, lexicon: seq<string>)
    ensures |CheckVegetarian(text, lexicon, []).ambiguous| == Count(text, '\n') + 1
    ensures |CheckVegetarian(text, lexicon, []).ambiguous| == |SplitOn(Lower(text), LineBreak)|
    ensures forall i :: 0 <= i < |SplitOn(Lower(text), LineBreak)| ==>
      CheckVegetarian(text, lexicon, []).ambiguous[i] == Strip(SplitOn(Lower(text), LineBreak)[i])
  {
    var lines := SplitOn(Lower(text), LineBreak);
    assert LineBreak == ['\n'];
    assert CheckVegetarian(text, lexicon, []).ambiguous == CollectLines(lines, []) by {
      assert Lower([]) == [];
      assert StartsWith(Lower(text), []);
    }
    assert Contains(Lower(text), Lower([])) by {
      assert StartsWith(Lower(text), Lower([]));
    }
    EmptyPhraseInEveryLine(lines);
    CollectLinesEveryLine(lines, []);
    SplitOnCount(Lower(text), '\n');
    CountLower(text);
  }

  /* ---------------------------------------------------------------------
     The per-line phrase test with the phrase lower-cased, as the
     whole-text test before it already is
     --------------------------------------------------------------------- */

  /** `check_vegetarian` with `ambiguous_phrase.lower() in line` as the
      per-line test. */
  function CheckVegetarianFixed(text: string, lexicon: seq<string>, phrase: string): (v: Verdict)
    ensures v.nonVeg == CheckVegetarian(text, lexicon, phrase).nonVeg
    ensures forall e :: e in v.ambiguous ==>
      exists l :: l in SplitOn(Lower(text), LineBreak) && Contains(l, Lower(phrase)) && e == Strip(l)
  {
    var lowered := Lower(text);
    var marker := Lower(phrase);
    var ambiguous :=
      if Contains(lowered, marker) then CollectLines(SplitOn(lowered, LineBreak), marker)
      else [];
    Verdict(MatchTerms(lexicon, lowered), ambiguous)
  }

  /** A line that contains a pattern puts the pattern in the whole text. */
  lemma LineInText(text: string, l: string, p: string)
    requires l in SplitOn(Lower(text), LineBreak) && Contains(l, p)
    ensures Contains(Lower(text), p)
  {
    var lines := SplitOn(Lower(text), LineBreak);
    var i :| 0 <= i < |lines| && lines[i] == l;
    SplitOnPieceOccurs(Lower(text), LineBreak, i);
    ContainsTransitive(Lower(text), l, p);
  }

  /** The whole-text test is only a shortcut: without it the line scan
      reports the same lines. */
  lemma FixedScansEveryLine(text: string, lexicon: seq<string>, phrase: string)
    ensures CheckVegetarianFixed(text, lexicon, phrase).ambiguous
         == CollectLines(SplitOn(Lower(text), LineBreak), Lower(phrase))
  {
    var lines := SplitOn(Lower(text), LineBreak);
    if !Contains(Lower(text), Lower(phrase)) {
      forall l | l in lines
        ensures !Contains(l, Lower(phrase))
      {
        if Contains(l, Lower(phrase)) {
          LineInText(text, l, Lower(phrase));
          assert false;
        }
      }
      CollectLinesNone(lines, Lower(phrase));
    }
  }

  /** The corrected classifier reports exactly the stripped lines that
      contain the phrase in any letter case. */
  lemma FixedReportsMarkedLines(text: string, lexicon: seq<string>, phrase: string)
    ensures forall e :: e in CheckVegetarianFixed(text, lexicon, phrase).ambiguous <==>
      exists l :: l in SplitOn(Lower(text), LineBreak) && Contains(l, Lower(phrase)) && e == Strip(l)
  {
    FixedScansEveryLine(text, lexicon, phrase);
  }

  /** The corrected classifier does not depend on the letter case of the
      phrase. */
  lemma FixedIgnoresPhraseCase(text: string, lexicon: seq<string>, phrase: string)
    ensures CheckVegetarianFixed(text, lexicon, Lower(phrase)) == CheckVegetarianFixed(text, lexicon, phrase)
    ensures CheckVegetarianFixed(text, lexicon, Upper(phrase)) == CheckVegetarianFixed(text, lexicon, phrase)
  {
    LowerIdempotent(phrase);
    LowerOfUpper(phrase);
  }

  /** For an all-lower-case phrase the correction changes nothing. */
  lemma FixedAgreesOnLowerPhrase(text: string, lexicon: seq<string>, phrase: string)
    requires Lower(phrase) == phrase
    ensures CheckVegetarianFixed(text, lexicon, phrase) == CheckVegetarian(text, lexicon, phrase)
  {
  }

  /** The shipped phrase, read back as the whole text, passes the
      whole-text test of the code as written and still yields no
      ambiguous line. */
  lemma ShippedDisclaimerMissed()
    ensures Contains(Lower(AmbiguousPhrase), Lower(AmbiguousPhrase))
    ensures CheckShipped(AmbiguousPhrase).ambiguous == []
  {
    assert StartsWith(Lower(AmbiguousPhrase), Lower(AmbiguousPhrase));
    ShippedPhraseNeverReports(AmbiguousPhrase);
  }

  /** A single trimmed line, scanned for itself, is collected once. */
  lemma SingleLineCollected(line: string)
    requires '\n' !in line && Trimmed(line)
    ensures CollectLines(SplitOn(line, LineBreak), line) == [line]
  {
    assert SplitOn(line, LineBreak) == [line] by {
      PartitionNone(line, LineBreak);
      SplitOnUnfold(line, LineBreak);
    }
    assert Contains(line, line) by {
      assert StartsWith(line, line);
    }
    assert [line][1..] == [];
    assert CollectLines([line], line) == [Strip(line)];
    StripTrimmed(line);
  }

  /** The corrected classifier reports that same text as one ambiguous
      line, lower-cased. */
  lemma ShippedDisclaimerReportedFixed()
    ensures CheckVegetarianFixed(AmbiguousPhrase, NonVegIngredients, AmbiguousPhrase).ambiguous
         == [Lower(AmbiguousPhrase)]
  {
    var low := Lower(AmbiguousPhrase);
    assert '\n' !in low && Trimmed(low) by {
      assert forall i :: 0 <= i < |low| ==> low[i] == LowerChar(AmbiguousPhrase[i]);
      assert '\n' !in AmbiguousPhrase;
      assert low[0] == 'k' && low[|low| - 1] == 'n';
    }
    assert Contains(low, low) by {
      assert StartsWith(low, low);
    }
    SingleLineCollected(low);
  }
}
