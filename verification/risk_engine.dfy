/** The rule-based risk classifier: case-insensitive keyword matching over
    the title and description, additive scoring with a cap, then a floor
    that depends on the level. */
module RiskEngine {
  import opened Models

  const HighRiskKeywords: seq<string> := [
    "urgent", "emergency", "override", "bypass", "admin", "root",
    "privilege", "escalate", "unrestricted", "sensitive", "confidential",
    "executive", "ceo", "board", "unlimited", "mass", "bulk",
    "all users", "system-wide"
  ]

  const MediumRiskKeywords: seq<string> := [
    "temporary", "extended", "multiple", "large", "all day",
    "overnight", "weekend", "special", "exception"
  ]

  const HighKeywordPoints := 20
  const MediumKeywordPoints := 10
  const ScoreCap := 100
  const HighFloor := 60
  const MediumFloor := 20

  datatype RiskAnalysis = RiskAnalysis(level: RiskLevel, score: int, factors: seq<string>)

  // ---- text helpers ----

  /** U+212A KELVIN SIGN: the one character outside ASCII that Python's
      `str.lower` turns into a single ASCII letter, 'k'. */
  const KelvinSign: char := '\U{212A}'

  /** A character that lower-casing changes. */
  predicate IsCapital(c: char) {
    ('A' <= c <= 'Z') || c == KelvinSign
  }

  /** Lower-cases an ASCII capital letter and the Kelvin sign and leaves
      every other character alone. */
  function LowerChar(c: char): (d: char)
    ensures !IsCapital(d)
    ensures 'A' <= c <= 'Z' ==> 'a' <= d <= 'z' && d as int - 'a' as int == c as int - 'A' as int
    ensures c == KelvinSign ==> d == 'k'
    ensures !IsCapital(c) ==> d == c
  {
    if 'A' <= c <= 'Z' then (c as int - 'A' as int + 'a' as int) as char
    else if c == KelvinSign then 'k'
    else c
  }

  function ToLower(s: string): (r: string)
    ensures |r| == |s|
    ensures forall i :: 0 <= i < |s| ==> r[i] == LowerChar(s[i])
  {
    seq(|s|, i requires 0 <= i < |s| => LowerChar(s[i]))
  }

  /** No character that lower-casing changes occurs in `s`. */
  ghost predicate IsLower(s: string) {
    forall i :: 0 <= i < |s| ==> !IsCapital(s[i])
  }

  lemma ToLowerOfLower(s: string)
    requires IsLower(s)
    ensures ToLower(s) == s
  {
  }

  lemma ToLowerIsLower(s: string)
    ensures IsLower(ToLower(s))
    ensures ToLower(ToLower(s)) == ToLower(s)
  {
  }

  /** Lower-casing commutes with concatenation. */
  lemma ToLowerConcat(a: string, b: string)
    ensures ToLower(a + b) == ToLower(a) + ToLower(b)
  {
    var l, r := ToLower(a + b), ToLower(a) + ToLower(b);
    assert |l| == |r|;
    forall i | 0 <= i < |l| ensures l[i] == r[i] {
      if i < |a| { assert (a + b)[i] == a[i]; } else { assert (a + b)[i] == b[i - |a|]; }
    }
  }

  /** `needle` occurs as a contiguous piece of `hay` (Python's `needle in hay`). */
  ghost predicate OccursIn(needle: string, hay: string) {
    exists i :: OccursAt(needle, hay, i)
  }

  ghost predicate OccursAt(needle: string, hay: string, i: int) {
    0 <= i && i + |needle| <= |hay| && hay[i..i + |needle|] == needle
  }

  lemma OccursInTail(needle: string, hay: string)
    requires |needle| <= |hay| && hay[..|needle|] != needle
    ensures OccursIn(needle, hay) <==> OccursIn(needle, hay[1..])
  {
    if OccursIn(needle, hay) {
      var i :| OccursAt(needle, hay, i);
      assert i != 0;
      ShiftedSlice(hay, i - 1, |needle|);
      assert OccursAt(needle, hay[1..], i - 1);
    }
    if OccursIn(needle, hay[1..]) {
      var j :| OccursAt(needle, hay[1..], j);
      ShiftedSlice(hay, j, |needle|);
      assert OccursAt(needle, hay, j + 1);
    }
  }

  lemma ShiftedSlice(hay: string, i: nat, n: nat)
    requires 1 + i + n <= |hay|
    ensures hay[1..][i..i + n] == hay[i + 1..i + 1 + n]
  {
    var a, b := hay[1..][i..i + n], hay[i + 1..i + 1 + n];
    forall k | 0 <= k < n ensures a[k] == b[k] {}
  }

  /** The substring test, scanning `hay` from the left. */
  function Contains(hay: string, needle: string): (b: bool)
    ensures b ==> |needle| <= |hay|
    decreases |hay|
  {
    if |hay| < |needle| then false
    else if hay[..|needle|] == needle then true
    else Contains(hay[1..], needle)
  }

  /** `Contains` is Python's substring test: it holds exactly when the
      needle occurs somewhere in the haystack. */
  lemma {:induction false} ContainsIsSubstring(hay: string, needle: string)
    ensures Contains(hay, needle) <==> OccursIn(needle, hay)
    decreases |hay|
  {
    if |hay| < |needle| {
    } else if hay[..|needle|] == needle {
      assert OccursAt(needle, hay, 0);
    } else {
      OccursInTail(needle, hay);
      ContainsIsSubstring(hay[1..], needle);
    }
  }

  ghost predicate NoDuplicates<T>(s: seq<T>) {
    forall i, j :: 0 <= i < j < |s| ==> s[i] != s[j]
  }

  /** `a` is obtained from `b` by deleting elements, keeping the order. */
  ghost predicate IsSubsequence<T>(a: seq<T>, b: seq<T>)
    decreases |b|
  {
    a == [] || (b != [] && ((a[0] == b[0] && IsSubsequence(a[1..], b[1..])) || IsSubsequence(a, b[1..])))
  }

  /** The keywords of `catalogue` that occur in `text`, in catalogue order
      (the list comprehension of `classify_risk`). */
  function MatchedKeywords(catalogue: seq<string>, text: string): (r: seq<string>)
    ensures |r| <= |catalogue|
  {
    if catalogue == [] then []
    else
      var rest := MatchedKeywords(catalogue[1..], text);
      if Contains(text, catalogue[0]) then [catalogue[0]] + rest else rest
  }

  /** A keyword is matched exactly when it is in the catalogue and occurs in
      the text; the matches keep catalogue order, and a catalogue without
      repetitions yields matches without repetitions. */
  lemma {:induction false} MatchedKeywordsSpec(catalogue: seq<string>, text: string)
    ensures var r := MatchedKeywords(catalogue, text);
            && (forall kw :: kw in r <==> kw in catalogue && OccursIn(kw, text))
            && IsSubsequence(r, catalogue)
            && (NoDuplicates(catalogue) ==> NoDuplicates(r))
  {
    if catalogue != [] {
      var rest := MatchedKeywords(catalogue[1..], text);
      MatchedKeywordsSpec(catalogue[1..], text);
      ContainsIsSubstring(text, catalogue[0]);
      assert catalogue == [catalogue[0]] + catalogue[1..];
      if Contains(text, catalogue[0]) {
        assert ([catalogue[0]] + rest)[1..] == rest;
        assert NoDuplicates(catalogue) ==> catalogue[0] !in catalogue[1..];
      }
    }
  }

  // ---- the classifier ----

  /** The text that is scanned: title and description joined by one space, lower-cased. */
  function Combined(title: string, description: string): (text: string)
    ensures text == ToLower(title) + " " + ToLower(description)
  {
    ToLowerConcat(title + " ", description);
    ToLowerConcat(title, " ");
    ToLower(title + " " + description)
  }

  function HighMatches(title: string, description: string): seq<string> {
    MatchedKeywords(HighRiskKeywords, Combined(title, description))
  }

  function MediumMatches(title: string, description: string): seq<string> {
    MatchedKeywords(MediumRiskKeywords, Combined(title, description))
  }

  /** The score before any floor: points per match, capped at 100. */
  function RawScore(highCount: nat, mediumCount: nat): (s: int)
    ensures 0 <= s <= ScoreCap
    ensures s <= highCount * HighKeywordPoints + mediumCount * MediumKeywordPoints
    ensures s == ScoreCap || s == highCount * HighKeywordPoints + mediumCount * MediumKeywordPoints
  {
    var sum := highCount * HighKeywordPoints + mediumCount * MediumKeywordPoints;
    if sum < ScoreCap then sum else ScoreCap
  }

  /** `classify_risk`: the request type is not an input. */
  function ClassifyRisk(title: string, description: string): RiskAnalysis {
    var high := HighMatches(title, description);
    var medium := MediumMatches(title, description);
    var score := RawScore(|high|, |medium|);
    var factors := high + medium;
    if score >= HighFloor || |high| > 0 then
      RiskAnalysis(High, if score < HighFloor then HighFloor else score, factors)
    else if score >= MediumFloor || |medium| > 0 then
      RiskAnalysis(Medium, if score < MediumFloor then MediumFloor else score, factors)
    else
      RiskAnalysis(Low, score, factors)
  }

  // ---- properties of the classifier ----

  /** The score always lies in [0, 100]. */
  lemma ClassifyScoreInRange(title: string, description: string)
    ensures 0 <= ClassifyRisk(title, description).score <= ScoreCap
  {
  }

  /** HIGH exactly when a HIGH keyword matched or the raw score reached 60;
      its score is the raw score raised to at least 60. */
  lemma ClassifyHighLevel(title: string, description: string)
    ensures var a := ClassifyRisk(title, description);
            var h, m := |HighMatches(title, description)|, |MediumMatches(title, description)|;
            && (a.level == High <==> h > 0 || RawScore(h, m) >= HighFloor)
            && (a.level == High ==>
                  HighFloor <= a.score <= ScoreCap
                  && a.score == (if RawScore(h, m) < HighFloor then HighFloor else RawScore(h, m)))
  {
  }

  /** MEDIUM exactly when no HIGH keyword and one to five MEDIUM keywords
      matched (six or more MEDIUM matches reach 60 and make it HIGH); its
      score is ten points per match raised to at least 20. */
  lemma ClassifyMediumLevel(title: string, description: string)
    ensures var a := ClassifyRisk(title, description);
            var h, m := |HighMatches(title, description)|, |MediumMatches(title, description)|;
            && (a.level == Medium <==> h == 0 && 1 <= m <= 5)
            && (a.level == Medium ==>
                  MediumFloor <= a.score < HighFloor
                  && a.score == (if m == 1 then MediumFloor else m * MediumKeywordPoints))
  {
  }

  lemma NoMatchesIffEmpty(catalogue: seq<string>, text: string)
    ensures MatchedKeywords(catalogue, text) == [] <==> forall kw :: kw in catalogue ==> !OccursIn(kw, text)
  {
    var r := MatchedKeywords(catalogue, text);
    MatchedKeywordsSpec(catalogue, text);
    if r != [] {
      assert r[0] in r;
    }
  }

  /** LOW exactly when no keyword of either catalogue occurs in the text;
      then the score is 0 and there are no factors. */
  lemma ClassifyLowLevel(title: string, description: string)
    ensures var a := ClassifyRisk(title, description);
            var text := Combined(title, description);
            && (a.level == Low <==> forall kw :: kw in HighRiskKeywords + MediumRiskKeywords ==> !OccursIn(kw, text))
            && (a.level == Low ==> a.score == 0 && a.factors == [])
  {
    var text := Combined(title, description);
    NoMatchesIffEmpty(HighRiskKeywords, text);
    NoMatchesIffEmpty(MediumRiskKeywords, text);
  }

  /** The raw score counts 20 points per HIGH match and 10 per MEDIUM match,
      capped at 100; the final score differs from it only by the floor of
      the level, and only upwards. */
  lemma ClassifyScoreFromMatches(title: string, description: string)
    ensures var a := ClassifyRisk(title, description);
            var h, m := |HighMatches(title, description)|, |MediumMatches(title, description)|;
            var raw := if h * 20 + m * 10 < 100 then h * 20 + m * 10 else 100;
            && raw <= a.score
            && (a.score == raw || a.score == HighFloor || a.score == MediumFloor)
  {
  }

  /** The level is a function of the score alone: HIGH from 60 up, MEDIUM
      from 20 to 59, LOW below 20 (and then the score is 0). */
  lemma ClassifyLevelFromScore(title: string, description: string)
    ensures var a := ClassifyRisk(title, description);
            && (a.level == High <==> a.score >= HighFloor)
            && (a.level == Medium <==> MediumFloor <= a.score < HighFloor)
            && (a.level == Low <==> a.score < MediumFloor)
            && (a.level == Low ==> a.score == 0)
  {
    ClassifyHighLevel(title, description);
    ClassifyMediumLevel(title, description);
    ClassifyLowLevel(title, description);
  }

  ghost predicate Disjoint<T>(a: seq<T>, b: seq<T>) {
    forall x :: x in a ==> x !in b
  }

  /** Two duplicate-free, disjoint sequences concatenate to a duplicate-free one. */
  lemma NoDuplicatesConcat<T>(a: seq<T>, b: seq<T>)
    requires NoDuplicates(a) && NoDuplicates(b) && Disjoint(a, b)
    ensures NoDuplicates(a + b)
  {
    forall i, j | 0 <= i < j < |a + b| ensures (a + b)[i] != (a + b)[j] {
      if j < |a| {
      } else if i >= |a| {
        assert (a + b)[i] == b[i - |a|] && (a + b)[j] == b[j - |a|];
      } else {
        assert (a + b)[i] in a && (a + b)[j] in b;
      }
    }
  }

  lemma HighKeywordsDistinct()
    ensures NoDuplicates(HighRiskKeywords)
  {
    assert forall i, j :: 0 <= i < j < |HighRiskKeywords| ==> HighRiskKeywords[i] != HighRiskKeywords[j];
  }

  /** Each catalogue lists a keyword once, no keyword is in both, and every
      keyword is lower-case. */
  lemma CataloguesWellFormed()
    ensures NoDuplicates(HighRiskKeywords) && NoDuplicates(MediumRiskKeywords)
    ensures Disjoint(HighRiskKeywords, MediumRiskKeywords)
    ensures forall kw :: kw in HighRiskKeywords + MediumRiskKeywords ==> IsLower(kw)
  {
    HighKeywordsDistinct();
    MediumKeywordsDistinct();
    CataloguesDisjoint();
    KeywordsLowercase();
  }

  lemma MediumKeywordsDistinct()
    ensures NoDuplicates(MediumRiskKeywords)
  {
  }

  lemma CataloguesDisjoint()
    ensures Disjoint(HighRiskKeywords, MediumRiskKeywords)
  {
    assert forall i :: 0 <= i < |HighRiskKeywords| ==> HighRiskKeywords[i] !in MediumRiskKeywords;
  }

  lemma KeywordsLowercase()
    ensures forall kw :: kw in HighRiskKeywords + MediumRiskKeywords ==> IsLower(kw)
  {
    HighKeywordsLowercase();
    MediumKeywordsLowercase();
    forall kw | kw in HighRiskKeywords + MediumRiskKeywords ensures IsLower(kw) {
      if kw in HighRiskKeywords {
        var i :| 0 <= i < |HighRiskKeywords| && HighRiskKeywords[i] == kw;
      }
    }
  }

  lemma HighKeywordsLowercase()
    ensures forall i :: 0 <= i < |HighRiskKeywords| ==> IsLower(HighRiskKeywords[i])
  {
    assert forall i, k :: 0 <= i < |HighRiskKeywords| && 0 <= k < |HighRiskKeywords[i]| ==>
             !IsCapital(HighRiskKeywords[i][k]);
  }

  lemma MediumKeywordsLowercase()
    ensures forall kw :: kw in MediumRiskKeywords ==> IsLower(kw)
  {
  }

  /** The factors are the matched HIGH keywords in catalogue order followed
      by the matched MEDIUM keywords in catalogue order, each at most once. */
  lemma ClassifyFactors(title: string, description: string)
    ensures var a := ClassifyRisk(title, description);
            var text := Combined(title, description);
            && a.factors == HighMatches(title, description) + MediumMatches(title, description)
            && IsSubsequence(HighMatches(title, description), HighRiskKeywords)
            && IsSubsequence(MediumMatches(title, description), MediumRiskKeywords)
            && (forall kw :: kw in a.factors <==> kw in HighRiskKeywords + MediumRiskKeywords && OccursIn(kw, text))
            && NoDuplicates(a.factors)
  {
    var text := Combined(title, description);
    var high, medium := HighMatches(title, description), MediumMatches(title, description);
    CataloguesWellFormed();
    MatchedKeywordsSpec(HighRiskKeywords, text);
    MatchedKeywordsSpec(MediumRiskKeywords, text);
    NoDuplicatesConcat(high, medium);
  }

  /** Matching ignores case: a catalogue keyword is a factor exactly when it
      occurs in the text once both are lower-cased. */
  lemma ClassifyMatchesIgnoringCase(title: string, description: string, kw: string)
    requires kw in HighRiskKeywords + MediumRiskKeywords
    ensures kw in ClassifyRisk(title, description).factors <==> OccursIn(ToLower(kw), ToLower(title + " " + description))
  {
    CataloguesWellFormed();
    ToLowerOfLower(kw);
    ClassifyFactors(title, description);
  }

  /** Two submissions whose title and description agree up to case are
      classified identically. */
  lemma ClassifyCaseInsensitive(t1: string, d1: string, t2: string, d2: string)
    requires ToLower(t1) == ToLower(t2) && ToLower(d1) == ToLower(d2)
    ensures ClassifyRisk(t1, d1) == ClassifyRisk(t2, d2)
  {
    assert Combined(t1, d1) == Combined(t2, d2);
  }
}
