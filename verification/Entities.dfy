/** `extract_entities`: the technology terms, from a fixed list, that occur
    as substrings of the lower-cased description, in list order and joined
    with ", ". */
module Entities {
  import opened Text

  /** `tech_keywords`, in declaration order. */
  const TechKeywords: seq<string> := [
    "ai", "artificial intelligence", "machine learning", "ml", "data science",
    "cloud", "aws", "azure", "gcp", "google cloud", "blockchain", "iot",
    "internet of things", "big data", "analytics", "devops", "saas",
    "software as a service", "python", "java", "javascript", "react",
    "angular", "node", "mobile", "web development", "cybersecurity",
    "security", "automation", "fintech", "healthtech", "edtech", "proptech"
  ]

  /** The lower-cased text of a string value; any other value reads as the
      empty text. */
  function LowerText(text: Value): string {
    if text.Str? then Lower(text.s) else ""
  }

  /** The terms the loop appends: exactly those occurring in the lowered
      text, in the order of the list. */
  function Detected(text: Value): (r: seq<string>)
    ensures IsSubsequence(r, TechKeywords)
    ensures forall i :: 0 <= i < |r| ==> r[i] in TechKeywords
    ensures forall i :: 0 <= i < |r| ==> Contains(LowerText(text), r[i])
    ensures forall i :: 0 <= i < |TechKeywords| && Contains(LowerText(text), TechKeywords[i]) ==> TechKeywords[i] in r
  {
    var lowered := LowerText(text);
    Select(TechKeywords, k => Contains(lowered, k))
  }

  /** Every term is non-empty and free of commas. */
  lemma TechKeywordsAreListItems()
    ensures forall i :: 0 <= i < |TechKeywords| ==> ListItem(TechKeywords[i])
  {
    FirstTechKeywordsAreListItems();
    MiddleTechKeywordsAreListItems();
    LastTechKeywordsAreListItems();
  }

  lemma FirstTechKeywordsAreListItems()
    ensures forall i :: 0 <= i < 11 ==> ListItem(TechKeywords[i])
  {
  }

  lemma MiddleTechKeywordsAreListItems()
    ensures forall i :: 11 <= i < 22 ==> ListItem(TechKeywords[i])
  {
  }

  lemma LastTechKeywordsAreListItems()
    ensures forall i :: 22 <= i < |TechKeywords| ==> ListItem(TechKeywords[i])
  {
  }

  /** `extract_entities(text)`: the detected terms joined with ", ", which
      read back as exactly those terms, with a space after every comma; ""
      for a non-string value. */
  function ExtractEntities(text: Value): (r: string)
    ensures ParseList(r) == Detected(text)
    ensures CommasSpaced(r)
    ensures !text.Str? ==> r == ""
  {
    var found := Detected(text);
    TechKeywordsAreListItems();
    ParseJoinedList(found);
    JoinCommasSpaced(found);
    NothingDetectedInEmpty();
    Join(found, ", ")
  }

  /** Every term is non-empty, so the empty text mentions none of them. */
  lemma NothingDetectedInEmpty()
    ensures Detected(Null) == []
  {
    TechKeywordsAreListItems();
    forall i | 0 <= i < |TechKeywords| ensures !Contains("", TechKeywords[i]) {
      EmptyContainsNothing(TechKeywords[i]);
    }
  }

  lemma Listed(i: nat, term: string)
    requires i < |TechKeywords| && TechKeywords[i] == term
    ensures term in TechKeywords
  {
  }

  /** A reported term reports every list term it contains. */
  lemma ImpliedTerm(text: Value, a: string, b: string)
    requires a in Detected(text) && Contains(a, b)
    requires b in TechKeywords
    ensures b in Detected(text)
  {
    var found := Detected(text);
    var k :| 0 <= k < |found| && found[k] == a;
    ContainsTransitive(LowerText(text), a, b);
  }

  /** "google cloud" contains "cloud": whenever the former is reported, so
      is the latter. */
  lemma GoogleCloudImpliesCloud(text: Value)
    requires "google cloud" in Detected(text)
    ensures "cloud" in Detected(text)
  {
    CloudListedInGoogleCloud();
    ImpliedTerm(text, "google cloud", "cloud");
  }

  lemma CloudListedInGoogleCloud()
    ensures "cloud" in TechKeywords && Contains("google cloud", "cloud")
  {
    Listed(5, "cloud");
    assert OccursAt("google cloud", "cloud", 7) by {
      var w := "google cloud";
      assert w[7..][..5] == "cloud";
    }
    OccursAtContains("google cloud", "cloud", 7);
  }

  /** "javascript" contains "java": whenever the former is reported, so is
      the latter. */
  lemma JavascriptImpliesJava(text: Value)
    requires "javascript" in Detected(text)
    ensures "java" in Detected(text)
  {
    JavaListedInJavascript();
    ImpliedTerm(text, "javascript", "java");
  }

  lemma JavaListedInJavascript()
    ensures "java" in TechKeywords && Contains("javascript", "java")
  {
    Listed(19, "java");
    assert OccursAt("javascript", "java", 0) by {
      var w := "javascript";
      assert w[0..][..4] == "java";
    }
    OccursAtContains("javascript", "java", 0);
  }

  /** "machine learning" does not contain "ml": the abbreviation is not
      reported for the spelled-out term. */
  lemma MachineLearningWithoutMl()
    ensures "machine learning" in Detected(Str("machine learning"))
    ensures "ml" !in Detected(Str("machine learning"))
  {
    var t := "machine learning";
    MachineLearningText();
    Listed(2, t);
    NoMlInMachineLearning();
  }

  lemma MachineLearningText()
    ensures LowerText(Str("machine learning")) == "machine learning"
    ensures Contains("machine learning", "machine learning")
  {
    var t := "machine learning";
    LowerOfLowerCase(t);
    assert OccursAt(t, t, 0) by {
      assert t[0..][..|t|] == t;
    }
    OccursAtContains(t, t, 0);
  }

  lemma NoMlInMachineLearning()
    ensures !Contains("machine learning", "ml")
  {
    var t := "machine learning";
    assert forall i :: 0 <= i < |t| - 1 ==> !(t[i] == 'm' && t[i + 1] == 'l');
    NoAdjacentPair(t, 'm', 'l');
  }

  /** A text in which `a` is never directly followed by `b` does not
      contain the two-letter string `[a, b]`. */
  lemma {:induction false} NoAdjacentPair(hay: string, a: char, b: char)
    requires forall i :: 0 <= i < |hay| - 1 ==> !(hay[i] == a && hay[i + 1] == b)
    ensures !Contains(hay, [a, b])
    decreases |hay|
  {
    if |hay| > 0 {
      assert !StartsWith(hay, [a, b]) by {
        if |hay| >= 2 { assert hay[..2][0] == hay[0] && hay[..2][1] == hay[1]; }
      }
      NoAdjacentPair(hay[1..], a, b);
    }
  }
}
