/** First-match-wins keyword rules: the first rule with a key occurring in the text decides. */
module KeywordRules {
  import opened Strings

  /** One rule: any of `keys` occurring in the text gives `result`. */
  datatype Rule = Rule(keys: seq<string>, result: string)

  predicate RuleMatches(rule: Rule, name: string) {
    exists k | k in rule.keys :: Contains(name, k)
  }

  /** The index of the first rule that matches, or `|rules|` when none does. */
  function FirstMatch(rules: seq<Rule>, name: string): (i: nat)
    ensures i <= |rules|
    ensures i < |rules| ==> RuleMatches(rules[i], name)
    ensures forall j :: 0 <= j < i ==> !RuleMatches(rules[j], name)
    decreases |rules|
  {
    if rules == [] then 0
    else if RuleMatches(rules[0], name) then 0
    else 1 + FirstMatch(rules[1..], name)
  }

  /** The first match is unique: the index of a matching rule with no match before it. */
  lemma {:induction false} FirstMatchIs(rules: seq<Rule>, name: string, i: nat)
    requires i < |rules| && RuleMatches(rules[i], name)
    requires forall j :: 0 <= j < i ==> !RuleMatches(rules[j], name)
    ensures FirstMatch(rules, name) == i
    decreases i
  {
    if i > 0 {
      assert !RuleMatches(rules[0], name);
      assert forall j :: 0 <= j < i - 1 ==> rules[1..][j] == rules[j + 1];
      FirstMatchIs(rules[1..], name, i - 1);
    }
  }
}
