/**
 * The referrer classifier of setReferrerDefaults: a first-match-wins table of
 * referrer substrings that yields the (source, medium, campaign) triple written
 * when a visit carries no campaign parameters.
 */
module Referrer {
  import opened Options
  import opened Text

  datatype Attribution = Attribution(source: string, medium: string, campaign: string)

  const NotProvided := "Not-Provided"
  const Direct := "Direct"
  const OrganicSearch := "Organic Search"
  const OrganicSocial := "Organic Social"
  const Referral := "Referral"

  /**
   * The triple for a referrer; `currentUrl` is `window.location.href`.
   * The search engines are checked before the social networks, and within each
   * group the first listed substring wins.
   */
  function Classify(referrer: string, currentUrl: string): (a: Attribution)
    ensures a.campaign == NotProvided
    ensures a.medium == Direct <==> referrer == ""
    ensures a.medium == Direct ==> a.source == currentUrl
    ensures a.medium in {Direct, OrganicSearch, OrganicSocial, Referral}
    ensures a.medium == OrganicSearch <==>
              referrer != "" && (Contains(referrer, "google.") || Contains(referrer, "bing.") || Contains(referrer, "yahoo."))
    ensures a.medium == Referral ==> a.source == referrer
    ensures currentUrl != "" ==> a.source != ""
  {
    if referrer == "" then
      Attribution(currentUrl, Direct, NotProvided)
    else if Contains(referrer, "google.") || Contains(referrer, "bing.") || Contains(referrer, "yahoo.") then
      var engine := if Contains(referrer, "google.") then "Google" else if Contains(referrer, "bing.") then "Bing" else "Yahoo";
      Attribution(engine, OrganicSearch, NotProvided)
    else if Contains(referrer, "facebook.") || Contains(referrer, "t.co") || Contains(referrer, "linkedin.") then
      var network := if Contains(referrer, "facebook.") then "Facebook" else if Contains(referrer, "t.co") then "Twitter" else "LinkedIn";
      Attribution(network, OrganicSocial, NotProvided)
    else
      Attribution(referrer, Referral, NotProvided)
  }

  /** One line of the classification table: a substring and what it stands for. */
  datatype Rule = Rule(pattern: string, source: string, medium: string)

  /** The classification table in priority order. */
  const Rules: seq<Rule> := [
    Rule("google.", "Google", OrganicSearch),
    Rule("bing.", "Bing", OrganicSearch),
    Rule("yahoo.", "Yahoo", OrganicSearch),
    Rule("facebook.", "Facebook", OrganicSocial),
    Rule("t.co", "Twitter", OrganicSocial),
    Rule("linkedin.", "LinkedIn", OrganicSocial)
  ]

  /** The first rule whose substring the referrer contains. */
  function FirstRule(rules: seq<Rule>, referrer: string): (r: Option<Rule>)
    ensures r.Some? ==> r.value in rules && Contains(referrer, r.value.pattern)
  {
    if |rules| == 0 then None
    else if Contains(referrer, rules[0].pattern) then Some(rules[0])
    else FirstRule(rules[1..], referrer)
  }

  /** A reference classification: the first matching line of the table, else a plain referral. */
  function ClassifyByTable(referrer: string, currentUrl: string): Attribution
  {
    if referrer == "" then Attribution(currentUrl, Direct, NotProvided)
    else match FirstRule(Rules, referrer)
      case Some(rule) => Attribution(rule.source, rule.medium, NotProvided)
      case None => Attribution(referrer, Referral, NotProvided)
  }

  /** One step down a table: its first rule, else the rest. */
  lemma FirstRuleStep(rules: seq<Rule>, i: nat, referrer: string)
    requires i < |rules|
    ensures FirstRule(rules[i..], referrer) ==
              if Contains(referrer, rules[i].pattern) then Some(rules[i]) else FirstRule(rules[i + 1..], referrer)
  {
    assert rules[i..][0] == rules[i];
    assert rules[i..][1..] == rules[i + 1..];
  }

  /** The social half of the table, read line by line. */
  lemma FirstRuleSocial(referrer: string)
    ensures FirstRule(Rules[3..], referrer) ==
      if Contains(referrer, "facebook.") then Some(Rules[3])
      else if Contains(referrer, "t.co") then Some(Rules[4])
      else if Contains(referrer, "linkedin.") then Some(Rules[5])
      else None
  {
    FirstRuleStep(Rules, 3, referrer);
    FirstRuleStep(Rules, 4, referrer);
    FirstRuleStep(Rules, 5, referrer);
    assert Rules[6..] == [];
  }

  /** The table read line by line. */
  lemma FirstRuleUnfolded(referrer: string)
    ensures FirstRule(Rules, referrer) ==
      if Contains(referrer, "google.") then Some(Rules[0])
      else if Contains(referrer, "bing.") then Some(Rules[1])
      else if Contains(referrer, "yahoo.") then Some(Rules[2])
      else if Contains(referrer, "facebook.") then Some(Rules[3])
      else if Contains(referrer, "t.co") then Some(Rules[4])
      else if Contains(referrer, "linkedin.") then Some(Rules[5])
      else None
  {
    assert Rules[0..] == Rules;
    FirstRuleStep(Rules, 0, referrer);
    FirstRuleStep(Rules, 1, referrer);
    FirstRuleStep(Rules, 2, referrer);
    FirstRuleSocial(referrer);
  }

  /** The nested conditionals of the classifier are exactly the first-match table. */
  lemma ClassifyIsFirstMatch(referrer: string, currentUrl: string)
    ensures Classify(referrer, currentUrl) == ClassifyByTable(referrer, currentUrl)
  {
    FirstRuleUnfolded(referrer);
  }

  /** A search-engine substring decides the triple even if a social one is also present. */
  lemma SearchBeforeSocial(referrer: string, currentUrl: string)
    requires Contains(referrer, "google.")
    requires Contains(referrer, "facebook.") || Contains(referrer, "t.co") || Contains(referrer, "linkedin.")
    ensures Classify(referrer, currentUrl) == Attribution("Google", OrganicSearch, NotProvided)
  {
  }

  /** Worked example: a Google search results page. */
  lemma ClassifyGoogleExample(currentUrl: string)
    ensures Classify("https://www.google.com/search?q=x", currentUrl) == Attribution("Google", OrganicSearch, NotProvided)
  {
    var g := "https://www.google.com/search?q=x";
    assert OccursAt(g, "google.", 12);
  }

  /** Worked example: a t.co short link. */
  lemma ClassifyTwitterExample(currentUrl: string)
    ensures Classify("https://t.co/abc", currentUrl) == Attribution("Twitter", OrganicSocial, NotProvided)
  {
    var t := "https://t.co/abc";
    assert OccursAt(t, "t.co", 8);
    MissingCharNotContained(t, "google.", 0);
    MissingCharNotContained(t, "bing.", 1);
    MissingCharNotContained(t, "yahoo.", 0);
    MissingCharNotContained(t, "facebook.", 0);
  }

  /**
   * Worked example of the substring rules' reach: `reddit.com` contains `t.co`,
   * so a Reddit referrer is classified as Twitter social traffic.
   */
  lemma ClassifyRedditExample(currentUrl: string)
    ensures Classify("https://www.reddit.com/r/x", currentUrl) == Attribution("Twitter", OrganicSocial, NotProvided)
  {
    var r := "https://www.reddit.com/r/x";
    assert OccursAt(r, "t.co", 17);
    MissingCharNotContained(r, "google.", 0);
    MissingCharNotContained(r, "bing.", 0);
    MissingCharNotContained(r, "yahoo.", 0);
    MissingCharNotContained(r, "facebook.", 0);
  }

  /** Worked example: a referral from an unlisted site keeps the referrer as the source. */
  lemma ClassifyReferralExample(currentUrl: string)
    ensures Classify("https://example.org/page", currentUrl) == Attribution("https://example.org/page", Referral, NotProvided)
  {
    ExampleOrgHasNoGoogle();
    ExampleOrgHasNoOtherEngine();
    ExampleOrgHasNoSocial();
  }

  /** The example referral URL names neither of the other two search engines. */
  lemma ExampleOrgHasNoOtherEngine()
    ensures !Contains("https://example.org/page", "bing.")
    ensures !Contains("https://example.org/page", "yahoo.")
  {
    var e := "https://example.org/page";
    MissingCharNotContained(e, "bing.", 0);
    MissingCharNotContained(e, "yahoo.", 0);
  }

  /** The example referral URL names no social network. */
  lemma ExampleOrgHasNoSocial()
    ensures !Contains("https://example.org/page", "facebook.")
    ensures !Contains("https://example.org/page", "t.co")
    ensures !Contains("https://example.org/page", "linkedin.")
  {
    var e := "https://example.org/page";
    assert !Contains(e, "facebook.") by {
      MissingCharNotContained(e, "facebook.", 0);
    }
    assert !Contains(e, "t.co") by {
      MissingCharNotContained(e, "t.co", 2);
    }
    assert !Contains(e, "linkedin.") by {
      MissingCharNotContained(e, "linkedin.", 3);
    }
  }

  /** No 'g' of the example referral URL is followed by an 'o'. */
  lemma ExampleOrgHasNoGoogle()
    ensures !Contains("https://example.org/page", "google.")
  {
    var e, p := "https://example.org/page", "google.";
    assert forall i | 0 <= i < |e| - 1 :: !(e[i] == 'g' && e[i + 1] == 'o');
    forall i | 0 <= i <= |e| - |p| ensures !OccursAt(e, p, i) {
      assert e[i..i + |p|][0] == e[i] && e[i..i + |p|][1] == e[i + 1];
    }
  }
}
