/** `analyze_sentiment`: count how many words of a positive and of a
    negative list occur as substrings of the lower-cased description and
    compare the two counts. */
module Sentiment {
  import opened Text

  const PositiveWords: seq<string> := [
    "innovative", "leading", "success", "successful", "growth", "growing",
    "best", "excellent", "outstanding", "award", "winning", "top", "premier",
    "trusted", "advanced", "expert", "specialized", "quality", "efficient",
    "effective", "proven", "reliable", "seamless", "cutting-edge", "state-of-the-art"
  ]

  const NegativeWords: seq<string> := [
    "challenge", "difficult", "problem", "issue", "struggle", "fail",
    "limitation", "constraint", "weakness", "disadvantage", "drawback",
    "decline", "decrease", "reduce", "loss", "costly", "expensive"
  ]

  datatype Sentiment = Positive | Negative | Neutral
  {
    /** The label stored in the `sentiment` column. */
    function Label(): string {
      match this
      case Positive => "positive"
      case Negative => "negative"
      case Neutral => "neutral"
    }
  }

  /** The listed words that occur in the text. */
  function Present(words: seq<string>, lowered: string): set<string> {
    set w | w in words && Contains(lowered, w)
  }

  /** How many entries of the list occur in the text: each listed word
      present adds one, however often it occurs in the text; on a list
      without repeats that is the number of distinct listed words present. */
  function Presence(words: seq<string>, lowered: string): (r: nat)
    ensures r <= |words|
    ensures NoDuplicates(words) ==> r == |Present(words, lowered)|
    decreases |words|
  {
    if |words| == 0 then
      assert Present(words, lowered) == {};
      0
    else
      var rest := Presence(words[1..], lowered);
      var here := Present(words, lowered);
      var there := Present(words[1..], lowered);
      assert NoDuplicates(words) ==> words[0] !in there && NoDuplicates(words[1..]);
      if Contains(lowered, words[0]) then
        assert here == {words[0]} + there;
        1 + rest
      else
        assert here == there;
        rest
  }

  /** `positive_count`: at most the 25 listed words, and, the list having no
      repeats, the number of different positive words present. */
  function PositiveCount(lowered: string): (r: nat)
    ensures r <= 25
    ensures r == |Present(PositiveWords, lowered)|
  {
    PositiveWordsDistinct();
    Presence(PositiveWords, lowered)
  }

  /** `negative_count`: at most the 17 listed words, and, the list having no
      repeats, the number of different negative words present. */
  function NegativeCount(lowered: string): (r: nat)
    ensures r <= 17
    ensures r == |Present(NegativeWords, lowered)|
  {
    NegativeWordsDistinct();
    Presence(NegativeWords, lowered)
  }

  /** No positive word is listed twice: checked on the first thirteen, on
      the remaining twelve, and across the two parts. */
  lemma PositiveWordsDistinct()
    ensures NoDuplicates(PositiveWords)
  {
    PositiveHeadDistinct();
    PositiveTailDistinct();
    PositivePartsDisjoint();
    NoDuplicatesSplit(PositiveWords, 13);
  }

  lemma PositiveHeadDistinct()
    ensures NoDuplicates(PositiveWords[..13])
  {
  }

  lemma PositiveTailDistinct()
    ensures NoDuplicates(PositiveWords[13..])
  {
  }

  lemma PositivePartsDisjoint()
    ensures forall i, j :: 0 <= i < 13 <= j < |PositiveWords| ==> PositiveWords[i] != PositiveWords[j]
  {
  }

  /** No negative word is listed twice. */
  lemma NegativeWordsDistinct()
    ensures NoDuplicates(NegativeWords)
  {
  }

  /** `analyze_sentiment(text)`: neutral for a non-string or empty value,
      otherwise decided by which count is larger, neutral on a tie. */
  function AnalyzeSentiment(text: Value): (r: Sentiment)
    ensures r == Positive <==> text.Str? && text.s != "" && PositiveCount(Lower(text.s)) > NegativeCount(Lower(text.s))
    ensures r == Negative <==> text.Str? && text.s != "" && NegativeCount(Lower(text.s)) > PositiveCount(Lower(text.s))
    ensures r == Neutral <==> !text.Str? || text.s == "" || PositiveCount(Lower(text.s)) == NegativeCount(Lower(text.s))
  {
    if !text.Str? || text.s == "" then Neutral
    else
      var lowered := Lower(text.s);
      var pos := PositiveCount(lowered);
      var neg := NegativeCount(lowered);
      if pos > neg then Positive
      else if neg > pos then Negative
      else Neutral
  }

  /** The decision read over the sets of listed words present: positive
      exactly when more different positive words than negative words occur,
      negative in the opposite case, neutral on a tie or an empty text. */
  lemma SentimentOfPresentWords(s: string)
    ensures var pos := |Present(PositiveWords, Lower(s))|;
            var neg := |Present(NegativeWords, Lower(s))|;
            && (AnalyzeSentiment(Str(s)) == Positive <==> s != "" && pos > neg)
            && (AnalyzeSentiment(Str(s)) == Negative <==> s != "" && neg > pos)
            && (AnalyzeSentiment(Str(s)) == Neutral <==> s == "" || pos == neg)
  {
  }

  /** A text mentioning no listed word at all is neutral. */
  lemma NoKeywordIsNeutral(s: string)
    requires forall w :: w in PositiveWords ==> !Contains(Lower(s), w)
    requires forall w :: w in NegativeWords ==> !Contains(Lower(s), w)
    ensures AnalyzeSentiment(Str(s)) == Neutral
  {
    NonePresent(PositiveWords, Lower(s));
    NonePresent(NegativeWords, Lower(s));
  }

  /** No listed word occurs: the count is zero. */
  lemma {:induction false} NonePresent(words: seq<string>, lowered: string)
    requires forall w :: w in words ==> !Contains(lowered, w)
    ensures Presence(words, lowered) == 0
    decreases |words|
  {
    if |words| > 0 {
      assert words[0] in words;
      NonePresent(words[1..], lowered);
    }
  }

  /** "successful" contains "success", so it alone counts twice. */
  lemma SuccessfulCountsTwice(s: string)
    requires Contains(Lower(s), "successful")
    ensures PositiveCount(Lower(s)) >= 2
  {
    var lowered := Lower(s);
    SuccessListed();
    ContainsTransitive(lowered, "successful", "success");
    TwoPresent(PositiveWords, lowered, "success", "successful");
  }

  /** A listed word that occurs counts one. */
  lemma {:induction false} OnePresent(words: seq<string>, lowered: string, a: string)
    requires a in words && Contains(lowered, a)
    ensures Presence(words, lowered) >= 1
    decreases |words|
  {
    if words[0] != a {
      assert a in words[1..];
      OnePresent(words[1..], lowered, a);
    }
  }

  /** Two different listed words that both occur count two. */
  lemma {:induction false} TwoPresent(words: seq<string>, lowered: string, a: string, b: string)
    requires a in words && b in words && a != b
    requires Contains(lowered, a) && Contains(lowered, b)
    ensures Presence(words, lowered) >= 2
    decreases |words|
  {
    if words[0] == a {
      assert b in words[1..];
      OnePresent(words[1..], lowered, b);
    } else if words[0] == b {
      assert a in words[1..];
      OnePresent(words[1..], lowered, a);
    } else {
      assert a in words[1..] && b in words[1..];
      TwoPresent(words[1..], lowered, a, b);
    }
  }

  lemma SuccessListed()
    ensures "success" in PositiveWords && "successful" in PositiveWords
    ensures Contains("successful", "success")
  {
    assert PositiveWords[2] == "success" && PositiveWords[3] == "successful";
    assert OccursAt("successful", "success", 0) by {
      var w := "successful";
      assert w[0..][..7] == "success";
    }
    OccursAtContains("successful", "success", 0);
  }
}
