/** The keyword heuristic that gives a new task its priority tier. */
module Priority {
  import opened Text

  datatype Level = Low | Medium | High

  /** The alternatives of the "urgent" pattern, in pattern order. */
  const UrgentWords: seq<string> := ["urgent", "asap", "important", "critical", "deadline"]

  /** The alternatives of the "easy" pattern, in pattern order. */
  const EasyWords: seq<string> := ["simple", "quick", "easy", "minor"]

  /** A case-insensitive test of the alternation `words[0]|words[1]|...` against title:
      true when some alternative is found somewhere in the case-folded title. */
  predicate TestAlternation(title: string, words: seq<string>) {
    exists k :: 0 <= k < |words| && Contains(Lower(title), words[k])
  }

  /** The priority suggested for a new task with this title: urgent words win,
      then easy words, and everything else is medium. */
  function Classify(title: string): Level {
    var urgent := TestAlternation(title, UrgentWords);
    var easy := TestAlternation(title, EasyWords);
    if urgent then High else if easy then Low else Medium
  }

  /** w occurs in title when ASCII letter case is ignored. */
  ghost predicate Mentions(title: string, w: string) {
    exists i :: OccursAt(Lower(title), w, i)
  }

  ghost predicate MentionsAny(title: string, words: seq<string>) {
    exists k :: 0 <= k < |words| && Mentions(title, words[k])
  }

  /** The alternation test agrees with "some word is mentioned". */
  lemma {:induction false} TestAlternationIff(title: string, words: seq<string>)
    ensures TestAlternation(title, words) <==> MentionsAny(title, words)
  {
    forall k | 0 <= k < |words|
      ensures Contains(Lower(title), words[k]) <==> Mentions(title, words[k])
    {
      ContainsIff(Lower(title), words[k]);
    }
  }

  /** A title is classified high exactly when it mentions an urgent word, whatever
      easy words it also mentions. */
  lemma ClassifyHigh(title: string)
    ensures Classify(title) == High <==> MentionsAny(title, UrgentWords)
  {
    TestAlternationIff(title, UrgentWords);
  }

  /** A title is classified low exactly when it mentions no urgent word and some
      easy word. */
  lemma ClassifyLow(title: string)
    ensures Classify(title) == Low <==>
      !MentionsAny(title, UrgentWords) && MentionsAny(title, EasyWords)
  {
    TestAlternationIff(title, UrgentWords);
    TestAlternationIff(title, EasyWords);
  }

  /** A title is classified medium exactly when it mentions no word of either set. */
  lemma ClassifyMedium(title: string)
    ensures Classify(title) == Medium <==>
      !MentionsAny(title, UrgentWords) && !MentionsAny(title, EasyWords)
  {
    TestAlternationIff(title, UrgentWords);
    TestAlternationIff(title, EasyWords);
  }

  /** The empty title mentions nothing and is medium. */
  lemma ClassifyEmpty()
    ensures Classify("") == Medium
  {
    ClassifyMedium("");
  }

  /** Titles that differ only in ASCII letter case get the same tier. */
  lemma ClassifyIgnoresCase(a: string, b: string)
    requires |a| == |b|
    requires forall k :: 0 <= k < |a| ==> LowerChar(a[k]) == LowerChar(b[k])
    ensures Classify(a) == Classify(b)
  {
    assert Lower(a) == Lower(b);
  }

  /** Words are matched without word boundaries: putting any text around a
      high title keeps it high. */
  lemma HighInContext(p: string, title: string, q: string)
    requires Classify(title) == High
    ensures Classify(p + title + q) == High
  {
    ClassifyHigh(title);
    var k :| 0 <= k < |UrgentWords| && Mentions(title, UrgentWords[k]);
    var i :| OccursAt(Lower(title), UrgentWords[k], i);
    LowerConcat(p + title, q);
    LowerConcat(p, title);
    OccursInContext(Lower(p), Lower(title), Lower(q), UrgentWords[k], i);
    assert Mentions(p + title + q, UrgentWords[k]);
    ClassifyHigh(p + title + q);
  }

  /** No urgent word occurs in a title that lacks, for each urgent word, one of
      its letters (given as an index into that word). */
  lemma NoUrgentWord(t: string, j: seq<int>)
    requires |j| == |UrgentWords|
    requires forall k :: 0 <= k < |j| ==> 0 <= j[k] < |UrgentWords[k]|
    requires forall k, i :: 0 <= k < |j| && 0 <= i < |t| ==> Lower(t)[i] != UrgentWords[k][j[k]]
    ensures !TestAlternation(t, UrgentWords)
  {
    forall k | 0 <= k < |UrgentWords| ensures !Contains(Lower(t), UrgentWords[k]) {
      MissingCharNotContained(Lower(t), UrgentWords[k], j[k]);
    }
  }

  /** An urgent word wins even when an easy word is present too. */
  lemma UrgentBeatsEasyExample()
    ensures Classify("urgent and simple") == High
  {
    var t := "urgent and simple";
    assert Lower(t) == t;
    assert Contains(Lower(t), UrgentWords[0]);
  }

  /** Letter case does not matter, and an easy word alone gives low. */
  lemma EasyExample()
    ensures Classify("Quick fix") == Low
  {
    var t := "Quick fix";
    assert Lower(t) == "quick fix";
    assert Contains(Lower(t), EasyWords[1]);
    // "quick fix" lacks the r, a, m, r and d of the five urgent words
    NoUrgentWord(t, [1, 0, 1, 1, 0]);
  }

  /** Without word boundaries, "uneasy" contains "easy" and is low. */
  lemma InsideWordExample()
    ensures Classify("uneasy") == Low
  {
    var t := "uneasy";
    assert Lower(t) == t;
    assert t[1..][1..] == t[2..];
    assert Contains(t[2..], EasyWords[2]);
    assert Contains(t, EasyWords[2]);
    // "uneasy" lacks the r, p, m, c and d of the five urgent words
    NoUrgentWord(t, [1, 3, 1, 0, 0]);
  }

  /** A title with no keyword is medium. */
  lemma PlainExample()
    ensures Classify("write report") == Medium
  {
    var t := "write report";
    assert Lower(t) == t;
    // "write report" lacks the u, a, m, c and d of the five urgent words
    NoUrgentWord(t, [0, 0, 1, 0, 0]);
    // ... and the s, q, a and m of the four easy words
    forall k | 0 <= k < |EasyWords| ensures !Contains(Lower(t), EasyWords[k]) {
      MissingCharNotContained(Lower(t), EasyWords[k], if k == 3 then 0 else if k == 2 then 1 else 0);
    }
  }
}
