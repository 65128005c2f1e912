/** The sentence highlighter of the analysis page (`highlightWarnings`): a
    text is cut into sentences at runs of `.`, `!` and `?`, blank sentences
    are dropped, and each remaining sentence is shown trimmed and flagged
    when it mentions one of a fixed list of health-warning keywords. */
module WarningHighlight {
  import opened JsStrings

  /** One `{ text, isWarning }` entry of the result. */
  datatype Sentence = Sentence(text: string, isWarning: bool)

  /** `warningKeywords`, in the source's order; the repeated entries of the
      source ("cancer", "inflammation", "swelling", "nausea", "diabetes")
      are kept. */
  const WarningKeywords: seq<string> := [
    "warning", "dangerous", "harmful", "toxic", "cancer", "carcinogen",
    "allergen", "allergic", "sensitivity", "intolerance", "avoid",
    "risk", "hazard", "unsafe", "contaminated", "artificial",
    "preservative", "additive", "chemical", "processed", "refined",
    "high sodium", "high sugar", "high fat", "trans fat", "saturated fat",
    "cholesterol", "diabetes", "obesity", "heart disease", "hypertension",
    "inflammation", "digestive", "stomach", "nausea", "headache",
    "migraine", "dizziness", "fatigue", "weakness", "drowsiness",
    "irritation", "rash", "itching", "swelling", "breathing",
    "asthma", "bronchitis", "cough", "sneeze", "runny nose",
    "blood pressure", "heart rate", "palpitation", "chest pain",
    "liver", "kidney", "damage", "failure", "disease",
    "cancer", "tumor", "malignant", "benign", "growth",
    "mutation", "genetic", "dna", "chromosome", "cell",
    "free radical", "oxidation", "inflammation", "swelling",
    "ulcer", "gastritis", "colitis", "irritable bowel",
    "constipation", "diarrhea", "bloating", "gas", "acid reflux",
    "heartburn", "indigestion", "nausea", "vomiting", "loss of appetite",
    "weight loss", "weight gain", "metabolism", "thyroid", "hormone",
    "insulin", "glucose", "blood sugar", "diabetes", "prediabetes",
    "metabolic syndrome", "polycystic ovary", "pcos", "infertility",
    "pregnancy", "breastfeeding", "infant", "child", "elderly",
    "medication", "drug", "interaction", "side effect", "adverse",
    "contraindication", "precaution", "caution", "careful", "monitor",
    "consult", "doctor", "physician", "healthcare", "medical",
    "emergency", "urgent", "immediate", "severe", "serious",
    "life-threatening", "fatal", "death", "mortality", "morbidity"
  ]

  /** The characters of the sentence-end pattern `/[.!?]+/`. */
  const SentenceEnds: set<char> := {'.', '!', '?'}

  /** The `some` test: a keyword, lower-cased, occurs in the lower-cased
      sentence. */
  predicate MentionsKeyword(sentence: string, keywords: seq<string>) {
    exists k :: k in keywords && Contains(Lower(sentence), Lower(k))
  }

  /** The elements of `xs` that satisfy `keep`, in order: `xs.filter(keep)`. */
  function Filter(xs: seq<string>, keep: string -> bool): seq<string>
    decreases |xs|
  {
    if xs == [] then []
    else
      var last := xs[|xs| - 1];
      Filter(xs[..|xs| - 1], keep) + (if keep(last) then [last] else [])
  }

  /** `sentence.trim().length > 0` */
  predicate NotBlank(sentence: string) {
    Trim(sentence) != []
  }

  /** `filter(sentence => sentence.trim().length > 0)` */
  function NonBlank(pieces: seq<string>): seq<string> {
    Filter(pieces, NotBlank)
  }

  /** The highlighter for a given keyword list. */
  function Highlight(text: string, keywords: seq<string>): seq<Sentence> {
    if text == [] then []
    else
      var sentences := NonBlank(SplitRuns(text, SentenceEnds));
      seq(|sentences|, i requires 0 <= i < |sentences| =>
        Sentence(Trim(sentences[i]), MentionsKeyword(sentences[i], keywords)))
  }

  /** `highlightWarnings(text)`; an absent text is the empty string. The
      lemmas below are stated for any keyword list, so they hold for this
      one. */
  function HighlightWarnings(text: string): seq<Sentence> {
    Highlight(text, WarningKeywords)
  }

  /** The positions below `n` of the elements that satisfy `keep`, in
      increasing order. */
  function KeptPositions(xs: seq<string>, keep: string -> bool, n: int): seq<int>
    requires 0 <= n <= |xs|
    decreases n
  {
    if n == 0 then []
    else KeptPositions(xs, keep, n - 1) + (if keep(xs[n - 1]) then [n - 1] else [])
  }

  /** The filter keeps, in order, exactly the elements that satisfy `keep`. */
  lemma {:induction false} FilterByPositions(xs: seq<string>, keep: string -> bool, n: int)
    requires 0 <= n <= |xs|
    ensures var r := Filter(xs[..n], keep);
            var ps := KeptPositions(xs, keep, n);
            |ps| == |r|
            && (forall k :: 0 <= k < |r| ==> 0 <= ps[k] < n && r[k] == xs[ps[k]])
            && (forall k1, k2 :: 0 <= k1 < k2 < |r| ==> ps[k1] < ps[k2])
            && (forall j :: 0 <= j < n ==> (j in ps <==> keep(xs[j])))
    decreases n
  {
    FilterKept(xs, keep, n);
  }

  /** `ps` lists, in increasing order, the positions below `n` of the
      elements that satisfy `keep`, and `r` the elements at those
      positions. */
  ghost predicate FilteredAt(xs: seq<string>, keep: string -> bool, r: seq<string>, ps: seq<int>, n: int)
    requires 0 <= n <= |xs|
  {
    |ps| == |r|
    && (forall k :: 0 <= k < |r| ==> 0 <= ps[k] < n && r[k] == xs[ps[k]])
    && (forall k1, k2 :: 0 <= k1 < k2 < |r| ==> ps[k1] < ps[k2])
    && (forall j :: 0 <= j < n ==> (j in ps <==> keep(xs[j])))
  }

  lemma {:induction false} FilterKept(xs: seq<string>, keep: string -> bool, n: int)
    requires 0 <= n <= |xs|
    ensures FilteredAt(xs, keep, Filter(xs[..n], keep), KeptPositions(xs, keep, n), n)
    decreases n
  {
    if n > 0 {
      FilterKept(xs, keep, n - 1);
      assert Filter(xs[..n], keep) == Filter(xs[..n - 1], keep) + (if keep(xs[n - 1]) then [xs[n - 1]] else []) by {
        assert xs[..n][..n - 1] == xs[..n - 1];
        assert xs[..n][n - 1] == xs[n - 1];
      }
      FilteredExtend(xs, keep, Filter(xs[..n - 1], keep), KeptPositions(xs, keep, n - 1), n - 1);
    }
  }

  lemma FilteredExtend(xs: seq<string>, keep: string -> bool, r: seq<string>, ps: seq<int>, m: int)
    requires 0 <= m < |xs| && FilteredAt(xs, keep, r, ps, m)
    ensures var f := keep(xs[m]);
            FilteredAt(xs, keep, r + (if f then [xs[m]] else []), ps + (if f then [m] else []), m + 1)
  {
  }

  /** Filtering commutes with a map that does not change the filter's
      verdict. */
  lemma {:induction false} FilterMap(xs: seq<string>, ys: seq<string>, f: string -> string, keep: string -> bool)
    requires |ys| == |xs| && forall k :: 0 <= k < |xs| ==> ys[k] == f(xs[k])
    requires forall x :: keep(f(x)) == keep(x)
    ensures |Filter(ys, keep)| == |Filter(xs, keep)|
    ensures forall k :: 0 <= k < |Filter(xs, keep)| ==> Filter(ys, keep)[k] == f(Filter(xs, keep)[k])
    decreases |xs|
  {
    if xs != [] {
      var n := |xs|;
      FilterMap(xs[..n - 1], ys[..n - 1], f, keep);
    }
  }

  /** An empty text gives no sentences. Otherwise the result lists, in
      order, one entry for each piece of the run split whose trimmed text is
      not empty, and for no other piece: its text is that piece trimmed, and
      it is flagged exactly when the piece mentions a keyword. */
  lemma HighlightSpec(text: string, keywords: seq<string>)
    ensures text == [] ==> Highlight(text, keywords) == []
    ensures text != [] ==> (
              var pieces := SplitRuns(text, SentenceEnds);
              var ps := KeptPositions(pieces, NotBlank, |pieces|);
              var r := Highlight(text, keywords);
              |r| == |ps|
              && (forall k :: 0 <= k < |r| ==>
                    0 <= ps[k] < |pieces| && r[k] == Sentence(Trim(pieces[ps[k]]), MentionsKeyword(pieces[ps[k]], keywords)))
              && (forall k1, k2 :: 0 <= k1 < k2 < |r| ==> ps[k1] < ps[k2])
              && (forall j :: 0 <= j < |pieces| ==> (j in ps <==> Trim(pieces[j]) != [])))
  {
    if text != [] {
      var pieces := SplitRuns(text, SentenceEnds);
      var ns := NonBlank(pieces);
      var ps := KeptPositions(pieces, NotBlank, |pieces|);
      var r := Highlight(text, keywords);
      NonBlankPositions(pieces);
      HighlightSentences(text, keywords);
      forall k | 0 <= k < |r|
        ensures 0 <= ps[k] < |pieces| && r[k] == Sentence(Trim(pieces[ps[k]]), MentionsKeyword(pieces[ps[k]], keywords))
      {
        assert ns[k] == pieces[ps[k]];
      }
    }
  }

  /** The non-blank pieces, with the positions they were taken from. */
  lemma NonBlankPositions(pieces: seq<string>)
    ensures var ns := NonBlank(pieces);
            var ps := KeptPositions(pieces, NotBlank, |pieces|);
            |ps| == |ns|
            && (forall k :: 0 <= k < |ns| ==> 0 <= ps[k] < |pieces| && ns[k] == pieces[ps[k]])
            && (forall k1, k2 :: 0 <= k1 < k2 < |ns| ==> ps[k1] < ps[k2])
            && (forall j :: 0 <= j < |pieces| ==> (j in ps <==> Trim(pieces[j]) != []))
  {
    var ps := KeptPositions(pieces, NotBlank, |pieces|);
    FilterByPositions(pieces, NotBlank, |pieces|);
    assert pieces[..|pieces|] == pieces;
    forall j | 0 <= j < |pieces|
      ensures j in ps <==> Trim(pieces[j]) != []
    {
      assert j in ps <==> NotBlank(pieces[j]);
    }
  }

  /** One sentence per non-blank piece. */
  lemma HighlightSentences(text: string, keywords: seq<string>)
    requires text != []
    ensures var ns := NonBlank(SplitRuns(text, SentenceEnds));
            var r := Highlight(text, keywords);
            |r| == |ns| && forall k :: 0 <= k < |ns| ==> r[k] == Sentence(Trim(ns[k]), MentionsKeyword(ns[k], keywords))
  {
  }

  /** Every sentence text is non-empty, trimmed, free of `.`, `!` and `?`,
      and occurs in the input. */
  lemma HighlightTextsShape(text: string, keywords: seq<string>)
    ensures forall k :: 0 <= k < |Highlight(text, keywords)| ==> (
              var t := Highlight(text, keywords)[k].text;
              t != [] && IsTrimmed(t) && '.' !in t && '!' !in t && '?' !in t && Contains(text, t))
  {
    if text != [] {
      var pieces := SplitRuns(text, SentenceEnds);
      var ns := NonBlank(pieces);
      FilterMembers(pieces, NotBlank);
      forall k | 0 <= k < |ns|
        ensures var t := Trim(ns[k]);
                t != [] && IsTrimmed(t) && '.' !in t && '!' !in t && '?' !in t && Contains(text, t)
      {
        assert ns[k] in ns;
        SentenceText(text, ns[k]);
      }
    }
  }

  lemma {:induction false} FilterMembers(xs: seq<string>, keep: string -> bool)
    ensures forall x :: x in Filter(xs, keep) <==> x in xs && keep(x)
    decreases |xs|
  {
    if xs != [] {
      var init := xs[..|xs| - 1];
      FilterMembers(init, keep);
      assert xs == init + [xs[|xs| - 1]];
    }
  }

  /** A piece of the run split, trimmed, is trimmed, holds no sentence end
      and occurs in the text. */
  lemma SentenceText(text: string, p: string)
    requires p in SplitRuns(text, SentenceEnds)
    ensures IsTrimmed(Trim(p))
    ensures '.' !in Trim(p) && '!' !in Trim(p) && '?' !in Trim(p)
    ensures Contains(text, Trim(p))
  {
    var pieces := SplitRuns(text, SentenceEnds);
    var j :| 0 <= j < |pieces| && pieces[j] == p;
    TrimSpec(p);
    TrimChars(p);
    assert '.' !in p && '!' !in p && '?' !in p by {
      SplitRunsSpec(text, SentenceEnds);
    }
    assert Contains(text, p) by {
      SplitRunsPiecesOccur(text, SentenceEnds, j);
    }
    var a, b :| 0 <= a <= b <= |p| && Trim(p) == p[a..b] && AllWhitespace(p[..a]) && AllWhitespace(p[b..]);
    ContainsSlice(p, a, b);
    ContainsTransitive(text, p, Trim(p));
  }

  /** Letter case never changes whether a sentence is flagged. */
  lemma MentionsKeywordIgnoresCase(sentence: string, keywords: seq<string>)
    ensures MentionsKeyword(Lower(sentence), keywords) <==> MentionsKeyword(sentence, keywords)
  {
    LowerIsLower(sentence);
  }

  /** Blankness of a piece does not depend on letter case. */
  lemma NotBlankLower(p: string)
    ensures NotBlank(Lower(p)) == NotBlank(p)
  {
    TrimLower(p);
  }

  /** Highlighting a lower-cased text gives the same sentences lower-cased,
      with the same flags. */
  lemma HighlightIgnoresCase(text: string, keywords: seq<string>)
    ensures |Highlight(Lower(text), keywords)| == |Highlight(text, keywords)|
    ensures forall k :: 0 <= k < |Highlight(text, keywords)| ==>
              Highlight(Lower(text), keywords)[k]
              == Sentence(Lower(Highlight(text, keywords)[k].text), Highlight(text, keywords)[k].isWarning)
  {
    if text != [] {
      var pieces := SplitRuns(text, SentenceEnds);
      SplitRunsLower(text, SentenceEnds);
      forall x ensures NotBlank(Lower(x)) == NotBlank(x) {
        NotBlankLower(x);
      }
      FilterMap(pieces, SplitRuns(Lower(text), SentenceEnds), Lower, NotBlank);
      var ns := NonBlank(pieces);
      forall k | 0 <= k < |ns|
        ensures Trim(Lower(ns[k])) == Lower(Trim(ns[k])) && (MentionsKeyword(Lower(ns[k]), keywords) <==> MentionsKeyword(ns[k], keywords))
      {
        TrimLower(ns[k]);
        MentionsKeywordIgnoresCase(ns[k], keywords);
      }
    }
  }
}
