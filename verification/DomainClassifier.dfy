/** The scraper's business-category heuristic (`classify_domain` in
    leads.py): the lower-cased domain is matched against eight ordered
    trigger lists and the first list with a trigger occurring in it decides
    the category. */
module DomainClassifier {
  import opened Text

  datatype Industry =
    | Technology | Finance | Healthcare | Education
    | Marketing | Retail | Manufacturing | Consulting | Other
  {
    /** The label the scraper stores in `domain_class`. */
    function Label(): string {
      match this
      case Technology => "Technology"
      case Finance => "Finance"
      case Healthcare => "Healthcare"
      case Education => "Education"
      case Marketing => "Marketing"
      case Retail => "Retail"
      case Manufacturing => "Manufacturing"
      case Consulting => "Consulting"
      case Other => "Other"
    }
  }

  /** The nine labels differ, so the string `classify_domain` returns
      identifies the category. */
  lemma LabelIdentifiesIndustry(a: Industry, b: Industry)
    requires a.Label() == b.Label()
    ensures a == b
  {
  }

  const TechnologyTriggers: seq<string> := ["tech", "software", "digital", "comp", "it"]
  const FinanceTriggers: seq<string> := ["finance", "bank", "invest", "capital"]
  const HealthcareTriggers: seq<string> := ["health", "med", "care", "pharm"]
  const EducationTriggers: seq<string> := ["edu", "school", "college", "univ"]
  const MarketingTriggers: seq<string> := ["marketing", "media", "advert", "pr"]
  const RetailTriggers: seq<string> := ["retail", "shop", "store"]
  const ManufacturingTriggers: seq<string> := ["manufact", "indust", "prod"]
  const ConsultingTriggers: seq<string> := ["consult", "service", "solution"]

  /** Some trigger of the list occurs in the domain: the `or` of `in` tests
      on one branch of the chain. */
  predicate Mentions(domain: string, triggers: seq<string>)
    decreases |triggers|
  {
    |triggers| > 0 && (Contains(domain, triggers[0]) || Mentions(domain, triggers[1..]))
  }

  lemma {:induction false} MentionsIff(domain: string, triggers: seq<string>)
    ensures Mentions(domain, triggers) <==> exists k :: k in triggers && Contains(domain, k)
    decreases |triggers|
  {
    if |triggers| > 0 {
      MentionsIff(domain, triggers[1..]);
      if Contains(domain, triggers[0]) {
        assert triggers[0] in triggers;
      } else if Mentions(domain, triggers[1..]) {
        var k :| k in triggers[1..] && Contains(domain, k);
        assert k in triggers;
      } else {
        forall k | k in triggers ensures !Contains(domain, k) {
          assert k == triggers[0] || k in triggers[1..];
        }
      }
    }
  }

  /** `classify_domain(domain)`: a missing or empty domain is read as the
      empty string, the text is lower-cased, and the branches are tried in
      declaration order, so the first rule of the table that fires decides. */
  function ClassifyDomain(domain: Option<string>): (r: Industry)
    ensures r == FirstMatch(Rules, Lower(DomainText(domain)))
  {
    ChainFollowsRules(Lower(DomainText(domain)));
    ClassifyLowered(Lower(DomainText(domain)))
  }

  /** The if/elif chain itself, on the lower-cased domain. */
  function ClassifyLowered(d: string): Industry {
    if Mentions(d, TechnologyTriggers) then Technology
    else if Mentions(d, FinanceTriggers) then Finance
    else if Mentions(d, HealthcareTriggers) then Healthcare
    else if Mentions(d, EducationTriggers) then Education
    else if Mentions(d, MarketingTriggers) then Marketing
    else if Mentions(d, RetailTriggers) then Retail
    else if Mentions(d, ManufacturingTriggers) then Manufacturing
    else if Mentions(d, ConsultingTriggers) then Consulting
    else Other
  }

  /** Python's `domain or ''` for a string-or-None argument. */
  function DomainText(domain: Option<string>): string {
    match domain
    case None => ""
    case Some(s) => s
  }

  // ---------------------------------------------------------------------
  // Reference reading: an ordered rule table, first firing rule wins

  datatype Rule = Rule(triggers: seq<string>, industry: Industry)

  /** A rule table whose rules all name a proper category. */
  type RuleTable = rules: seq<Rule> | ProperRules(rules) witness []

  const Rules: RuleTable := [
    Rule(TechnologyTriggers, Technology),
    Rule(FinanceTriggers, Finance),
    Rule(HealthcareTriggers, Healthcare),
    Rule(EducationTriggers, Education),
    Rule(MarketingTriggers, Marketing),
    Rule(RetailTriggers, Retail),
    Rule(ManufacturingTriggers, Manufacturing),
    Rule(ConsultingTriggers, Consulting)
  ]

  predicate Fires(rule: Rule, domain: string) {
    Mentions(domain, rule.triggers)
  }

  /** None of the first `k` rules fires. */
  predicate NoneFiresBelow(rules: seq<Rule>, domain: string, k: int)
    requires k <= |rules|
  {
    forall j :: 0 <= j < k ==> !Fires(rules[j], domain)
  }

  /** No rule of the table yields the fallback label. */
  predicate ProperRules(rules: seq<Rule>) {
    forall i :: 0 <= i < |rules| ==> rules[i].industry != Other
  }

  /** Rule `i` fires and no earlier rule does. */
  predicate FirstFiringRule(rules: seq<Rule>, domain: string, i: int) {
    && 0 <= i < |rules|
    && Fires(rules[i], domain)
    && NoneFiresBelow(rules, domain, i)
  }

  /** No string of `needles` occurs in `domain`. */
  predicate NoneOccurs(domain: string, needles: seq<string>) {
    forall k :: k in needles ==> !Contains(domain, k)
  }

  /** The industry of the first rule that fires, `Other` when none does. */
  function FirstMatch(rules: seq<Rule>, domain: string): (r: Industry)
    requires ProperRules(rules)
    ensures r == Other <==> NoneFiresBelow(rules, domain, |rules|)
    decreases |rules|
  {
    if |rules| == 0 then Other
    else if Fires(rules[0], domain) then rules[0].industry
    else
      var r := FirstMatch(rules[1..], domain);
      assert forall i :: 1 <= i < |rules| ==> rules[i] == rules[1..][i - 1];
      r
  }

  /** The first rule that fires decides the result. */
  lemma {:induction false} FirstMatchOfFirstFiring(rules: seq<Rule>, domain: string, k: nat)
    requires ProperRules(rules) && FirstFiringRule(rules, domain, k)
    ensures FirstMatch(rules, domain) == rules[k].industry
    decreases k
  {
    if k > 0 {
      assert !Fires(rules[0], domain);
      assert FirstFiringRule(rules[1..], domain, k - 1) by {
        forall j | 0 <= j < k - 1 ensures !Fires(rules[1..][j], domain) {
          assert rules[1..][j] == rules[j + 1];
        }
      }
      FirstMatchOfFirstFiring(rules[1..], domain, k - 1);
    }
  }

  /** A result other than `Other` comes from the first rule that fires. */
  lemma {:induction false} FirstMatchDecidedByRule(rules: seq<Rule>, domain: string) returns (k: nat)
    requires ProperRules(rules) && FirstMatch(rules, domain) != Other
    ensures FirstFiringRule(rules, domain, k)
    ensures FirstMatch(rules, domain) == rules[k].industry
    decreases |rules|
  {
    if Fires(rules[0], domain) {
      k := 0;
    } else {
      var k' := FirstMatchDecidedByRule(rules[1..], domain);
      k := k' + 1;
      forall j | 0 <= j < k ensures !Fires(rules[j], domain) {
        if j > 0 { assert rules[j] == rules[1..][j - 1]; }
      }
    }
  }

  /** Every trigger string of every rule, in table order. */
  function TriggersOf(rules: seq<Rule>): (r: seq<string>)
    ensures forall k :: k in r <==> exists i :: 0 <= i < |rules| && k in rules[i].triggers
    decreases |rules|
  {
    if |rules| == 0 then []
    else
      var tail := TriggersOf(rules[1..]);
      assert forall i :: 1 <= i < |rules| ==> rules[i] == rules[1..][i - 1];
      rules[0].triggers + tail
  }

  // ---------------------------------------------------------------------
  // Properties

  /** A missing or empty domain is `Other`. */
  lemma EmptyDomainIsOther(domain: Option<string>)
    requires domain == None || domain == Some("")
    ensures ClassifyDomain(domain) == Other
  {
    assert Lower(DomainText(domain)) == "";
    EmptyChainIsOther();
  }

  lemma EmptyChainIsOther()
    ensures ClassifyLowered("") == Other
  {
    EarlyListsMissEmpty();
    LateListsMissEmpty();
  }

  lemma EarlyListsMissEmpty()
    ensures !Mentions("", TechnologyTriggers) && !Mentions("", FinanceTriggers)
    ensures !Mentions("", HealthcareTriggers) && !Mentions("", EducationTriggers)
  {
    NoMentionInEmpty(TechnologyTriggers);
    NoMentionInEmpty(FinanceTriggers);
    NoMentionInEmpty(HealthcareTriggers);
    NoMentionInEmpty(EducationTriggers);
  }

  lemma LateListsMissEmpty()
    ensures !Mentions("", MarketingTriggers) && !Mentions("", RetailTriggers)
    ensures !Mentions("", ManufacturingTriggers) && !Mentions("", ConsultingTriggers)
  {
    NoMentionInEmpty(MarketingTriggers);
    NoMentionInEmpty(RetailTriggers);
    NoMentionInEmpty(ManufacturingTriggers);
    NoMentionInEmpty(ConsultingTriggers);
  }

  /** The empty domain mentions no list of non-empty triggers. */
  lemma NoMentionInEmpty(triggers: seq<string>)
    requires forall i :: 0 <= i < |triggers| ==> |triggers[i]| > 0
    ensures !Mentions("", triggers)
  {
    NothingOccursInEmpty(triggers);
    MentionsIff("", triggers);
  }

  lemma NothingOccursInEmpty(needles: seq<string>)
    requires forall k :: k in needles ==> |k| > 0
    ensures NoneOccurs("", needles)
  {
    forall k | k in needles ensures !Contains("", k) {
      EmptyContainsNothing(k);
    }
  }

  /** Classification ignores letter case. */
  lemma CaseInsensitive(d: string)
    ensures ClassifyDomain(Some(d)) == ClassifyDomain(Some(Lower(d)))
  {
    LowerOfLowerCase(Lower(d));
  }

  /** The result is `Other` exactly when no trigger of any branch occurs in
      the lower-cased domain. */
  lemma OtherIffNoTrigger(domain: Option<string>)
    ensures ClassifyDomain(domain) == Other
            <==> NoneOccurs(Lower(DomainText(domain)), TriggersOf(Rules))
  {
    RulesWellFormed();
    FirstMatchOtherIffNoTrigger(Rules, Lower(DomainText(domain)));
  }

  lemma FirstMatchOtherIffNoTrigger(rules: seq<Rule>, d: string)
    requires ProperRules(rules)
    ensures FirstMatch(rules, d) == Other <==> NoneOccurs(d, TriggersOf(rules))
  {
    NoneFiresIffNoTrigger(rules, d);
  }

  /** No rule fires exactly when no trigger of any rule occurs. */
  lemma NoneFiresIffNoTrigger(rules: seq<Rule>, d: string)
    ensures NoneFiresBelow(rules, d, |rules|) ==> NoneOccurs(d, TriggersOf(rules))
    ensures NoneOccurs(d, TriggersOf(rules)) ==> NoneFiresBelow(rules, d, |rules|)
  {
    var all := TriggersOf(rules);
    forall i | 0 <= i < |rules| ensures Fires(rules[i], d) <==> exists k :: k in rules[i].triggers && Contains(d, k) {
      MentionsIff(d, rules[i].triggers);
    }
    if NoneFiresBelow(rules, d, |rules|) {
      forall k | k in all ensures !Contains(d, k) {
        var i :| 0 <= i < |rules| && k in rules[i].triggers;
        assert !Fires(rules[i], d);
      }
    } else {
      var j :| 0 <= j < |rules| && Fires(rules[j], d);
      var t :| t in rules[j].triggers && Contains(d, t);
      assert t in all;
    }
  }

  /** Technology comes first: any technology trigger decides the result,
      whatever triggers of later branches are present too. */
  lemma TechnologyHasPriority(d: string, k: string)
    requires k in TechnologyTriggers && Contains(Lower(d), k)
    ensures ClassifyDomain(Some(d)) == Technology
  {
    MentionsIff(Lower(d), TechnologyTriggers);
  }

  /** No two rules of the table yield the same industry. */
  predicate DistinctIndustries(rules: seq<Rule>) {
    forall i, j :: 0 <= i < j < |rules| ==> rules[i].industry != rules[j].industry
  }

  /** With distinct industries, the result names the rule that decided it:
      that rule fires and no earlier rule does. */
  lemma FirstMatchIdentifiesRule(rules: seq<Rule>, domain: string, i: nat)
    requires ProperRules(rules) && DistinctIndustries(rules)
    requires i < |rules| && FirstMatch(rules, domain) == rules[i].industry
    ensures FirstFiringRule(rules, domain, i)
  {
    var k := FirstMatchDecidedByRule(rules, domain);
  }

  /** The if/elif chain and the rule table agree on every lower-cased
      domain. */
  lemma ChainFollowsRules(d: string)
    ensures ClassifyLowered(d) == FirstMatch(Rules, d)
  {
    if FirstFiring(Rules, d) < |Rules| {
      ChainFollowsFiringRule(d);
    } else {
      ChainFollowsNoRule(d);
    }
  }

  lemma ChainFollowsFiringRule(d: string)
    requires FirstFiring(Rules, d) < |Rules|
    ensures ClassifyLowered(d) == FirstMatch(Rules, d)
  {
    var k := FirstFiring(Rules, d);
    FirstMatchOfFirstFiring(Rules, d, k);
    ChainBranch(d, k);
  }

  lemma ChainFollowsNoRule(d: string)
    requires FirstFiring(Rules, d) == |Rules|
    ensures ClassifyLowered(d) == FirstMatch(Rules, d)
  {
    assert NoneFiresBelow(Rules, d, |Rules|);
    assert FirstMatch(Rules, d) == Other;
    ChainOther(d);
  }

  lemma RulesWellFormed()
    ensures ProperRules(Rules) && DistinctIndustries(Rules)
  {
  }

  lemma ChainOther(d: string)
    requires FirstFiring(Rules, d) == |Rules|
    ensures ClassifyLowered(d) == Other
  {
    RuleIndustries();
  }

  /** Index of the first rule that fires, `|rules|` when none does. */
  function FirstFiring(rules: seq<Rule>, d: string): (k: nat)
    ensures k <= |rules|
    ensures NoneFiresBelow(rules, d, k)
    ensures k < |rules| ==> Fires(rules[k], d)
    decreases |rules|
  {
    if |rules| == 0 || Fires(rules[0], d) then 0
    else
      var k := FirstFiring(rules[1..], d);
      assert forall j :: 0 < j <= k ==> rules[j] == rules[1..][j - 1];
      1 + k
  }

  lemma ChainBranch(d: string, k: nat)
    requires k < |Rules| && k == FirstFiring(Rules, d)
    ensures ClassifyLowered(d) == Rules[k].industry
  {
    RuleIndustries();
    if k == 0 {
      assert Fires(Rules[0], d);
    } else if k == 1 {
      assert !Fires(Rules[0], d) && Fires(Rules[1], d);
    } else if k == 2 {
      assert !Fires(Rules[0], d) && !Fires(Rules[1], d) && Fires(Rules[2], d);
    } else if k == 3 {
      assert !Fires(Rules[0], d) && !Fires(Rules[1], d) && !Fires(Rules[2], d)
             && Fires(Rules[3], d);
    } else if k == 4 {
      assert !Fires(Rules[0], d) && !Fires(Rules[1], d) && !Fires(Rules[2], d)
             && !Fires(Rules[3], d) && Fires(Rules[4], d);
    } else if k == 5 {
      assert !Fires(Rules[0], d) && !Fires(Rules[1], d) && !Fires(Rules[2], d)
             && !Fires(Rules[3], d) && !Fires(Rules[4], d) && Fires(Rules[5], d);
    } else if k == 6 {
      assert !Fires(Rules[0], d) && !Fires(Rules[1], d) && !Fires(Rules[2], d)
             && !Fires(Rules[3], d) && !Fires(Rules[4], d) && !Fires(Rules[5], d)
             && Fires(Rules[6], d);
    } else {
      assert !Fires(Rules[0], d) && !Fires(Rules[1], d) && !Fires(Rules[2], d)
             && !Fires(Rules[3], d) && !Fires(Rules[4], d) && !Fires(Rules[5], d)
             && !Fires(Rules[6], d) && Fires(Rules[7], d);
    }
  }

  lemma RuleIndustries()
    ensures |Rules| == 8
    ensures Rules[0].triggers == TechnologyTriggers && Rules[1].triggers == FinanceTriggers
    ensures Rules[2].triggers == HealthcareTriggers && Rules[3].triggers == EducationTriggers
    ensures Rules[4].triggers == MarketingTriggers && Rules[5].triggers == RetailTriggers
    ensures Rules[6].triggers == ManufacturingTriggers && Rules[7].triggers == ConsultingTriggers
    ensures Rules[0].industry == Technology && Rules[1].industry == Finance
    ensures Rules[2].industry == Healthcare && Rules[3].industry == Education
    ensures Rules[4].industry == Marketing && Rules[5].industry == Retail
    ensures Rules[6].industry == Manufacturing && Rules[7].industry == Consulting
  {
  }

  /** A later branch is reached only when every earlier branch fails. */
  lemma BranchOrder(domain: Option<string>, i: nat)
    requires i < |Rules|
    requires ClassifyDomain(domain) == Rules[i].industry
    ensures FirstFiringRule(Rules, Lower(DomainText(domain)), i)
  {
    RulesWellFormed();
    FirstMatchIdentifiesRule(Rules, Lower(DomainText(domain)), i);
  }

  /** `needle` contains `inner`, so any domain containing `needle` mentions a
      list that holds `inner`. */
  lemma MentionsThrough(d: string, needle: string, inner: string, triggers: seq<string>)
    requires Contains(d, needle) && Contains(needle, inner) && inner in triggers
    ensures Mentions(d, triggers)
  {
    ContainsTransitive(d, needle, inner);
  }

  /** "capital" contains "it": a domain with "capital" is Technology and never
      Finance. */
  lemma CapitalIsTechnology(d: string)
    requires Contains(Lower(d), "capital")
    ensures ClassifyDomain(Some(d)) == Technology
  {
    assert OccursAt("capital", "it", 3) by {
      var w := "capital";
      assert w[3] == 'i' && w[4] == 't';
      assert w[3..][..2] == "it";
    }
    OccursAtContains("capital", "it", 3);
    MentionsThrough(Lower(d), "capital", "it", TechnologyTriggers);
  }

  /** "media" contains "med": a domain with "media" reaches Healthcare at the
      latest and is never Marketing. */
  lemma MediaNeverMarketing(d: string)
    requires Contains(Lower(d), "media")
    ensures ClassifyDomain(Some(d)) in {Technology, Finance, Healthcare}
  {
    assert OccursAt("media", "med", 0) by {
      var w := "media";
      assert w[0] == 'm' && w[1] == 'e' && w[2] == 'd';
      assert w[0..][..3] == "med";
    }
    OccursAtContains("media", "med", 0);
    MentionsThrough(Lower(d), "media", "med", HealthcareTriggers);
  }

  /** "prod" contains "pr": a domain with "prod" reaches Marketing at the
      latest and is never Manufacturing. */
  lemma ProdNeverManufacturing(d: string)
    requires Contains(Lower(d), "prod")
    ensures ClassifyDomain(Some(d)) in {Technology, Finance, Healthcare, Education, Marketing}
  {
    assert OccursAt("prod", "pr", 0) by {
      var w := "prod";
      assert w[0] == 'p' && w[1] == 'r';
      assert w[0..][..2] == "pr";
    }
    OccursAtContains("prod", "pr", 0);
    MentionsThrough(Lower(d), "prod", "pr", MarketingTriggers);
  }
}
