/**
 * Strictest-wins policy evaluation over rules, legs and scopes, and the dry run beside it.
 * Models packages/sdp-policy/src/evaluate.ts and decisions.ts. Matching a single rule is a
 * parameter: an arbitrary function of the rule and the candidate.
 */
module PolicyEvaluation {
  import opened Wrappers

  datatype Decision = NotEvaluated | Allow | Review | ProviderApprovalRequired | ApprovalRequired | Deny

  function Rank(d: Decision): nat {
    match d
    case NotEvaluated => 0
    case Allow => 1
    case Review => 2
    case ProviderApprovalRequired => 3
    case ApprovalRequired => 4
    case Deny => 5
  }

  predicate IsApprovalDecision(d: Decision) {
    d == ApprovalRequired || d == ProviderApprovalRequired
  }

  datatype RuleKind = Always | OperationFamily | OperationType | Asset | Destination | Amount | Approval

  datatype Rule = Rule(id: Option<string>, kind: RuleKind, name: Option<string>, criteria: string)

  datatype Candidate = Candidate(apiKeyId: Option<string>, content: string)

  datatype RuleEvaluation = RuleEvaluation(decision: Decision, reason: string, rule: Rule)

  type Evaluator = (Rule, Candidate) -> Option<RuleEvaluation>

  /** A match names the rule that was matched. */
  ghost predicate NamesItsRule(eval: Evaluator) {
    forall r: Rule, c: Candidate :: eval(r, c).Some? ==> eval(r, c).value.rule == r
  }

  datatype View = View(candidate: Candidate, leg: Option<nat>)

  datatype Match = Match(evaluation: RuleEvaluation, leg: Option<nat>)

  datatype Source = ImplicitDefaultAllow | ProfileSource(name: string)

  datatype Revision = Revision(id: string, rules: seq<Rule>)

  datatype Policy = Policy(
    source: Source, profileId: Option<string>, revision: Option<Revision>, defaultAction: Decision)

  const IMPLICIT_ALLOW := Policy(ImplicitDefaultAllow, None, None, Allow)

  datatype Scope = Wallet | ApiKey

  datatype MatchedRule = MatchedRule(
    scope: Scope, ruleId: Option<string>, kind: RuleKind, decision: Decision, reason: string, rule: Rule,
    leg: Option<nat>)

  datatype ReasonCode = ScopeMissing(scope: Scope) | ScopeMatch(scope: Scope) | AllImplicitAllow

  /** The scope's reason: inactive, no match, or the selected rule's text and the leg it decided. */
  datatype ScopeReason = NotActive | NoRuleMatched(defaultAction: Decision) | RuleReason(text: string, leg: Option<nat>)

  datatype ScopeEvaluation = ScopeEvaluation(
    scope: Scope, source: Source, profileId: Option<string>, revisionId: Option<string>, defaultAction: Decision,
    decision: Decision, reasonCode: ReasonCode, reason: ScopeReason,
    matchedRules: seq<MatchedRule>, requiresApproval: bool)

  datatype Evaluation = Evaluation(
    wallet: ScopeEvaluation, apiKey: Option<ScopeEvaluation>, decision: Decision, reasonCode: ReasonCode,
    matchedRules: seq<MatchedRule>, requiresApproval: bool)

  // ------------------------------------------------------------ evaluation

  function LegViews(legs: seq<Candidate>, from: nat): seq<View> {
    if legs == [] then [] else [View(legs[0], Some(from))] + LegViews(legs[1..], from + 1)
  }

  /** The aggregate candidate first, then one view per leg. */
  function CandidateViews(candidate: Candidate, legs: seq<Candidate>): seq<View> {
    [View(candidate, None)] + LegViews(legs, 0)
  }

  function WithoutDestination(rules: seq<Rule>): seq<Rule> {
    if rules == [] then []
    else (if rules[0].kind == Destination then [] else [rules[0]]) + WithoutDestination(rules[1..])
  }

  function ViewRules(rules: seq<Rule>, view: View, hasLegs: bool): seq<Rule> {
    if !hasLegs || view.leg.Some? then rules else WithoutDestination(rules)
  }

  function RuleMatches(eval: Evaluator, rules: seq<Rule>, view: View): seq<Match> {
    if rules == [] then []
    else
      var e := eval(rules[0], view.candidate);
      (if e.None? then [] else [Match(e.value, view.leg)]) + RuleMatches(eval, rules[1..], view)
  }

  function ViewMatches(eval: Evaluator, rules: seq<Rule>, views: seq<View>, hasLegs: bool): seq<Match> {
    if views == [] then []
    else
      RuleMatches(eval, ViewRules(rules, views[0], hasLegs), views[0])
      + ViewMatches(eval, rules, views[1..], hasLegs)
  }

  /** The first of the strictest matches. */
  function Strictest(matches: seq<Match>): Option<Match> {
    if matches == [] then None
    else
      var last := matches[|matches| - 1];
      var selected := Strictest(matches[..|matches| - 1]);
      if selected.None? || Rank(last.evaluation.decision) > Rank(selected.value.evaluation.decision)
      then Some(last)
      else selected
  }

  method SelectStrictestRule(matches: seq<Match>) returns (selected: Option<Match>)
    ensures selected == Strictest(matches)
    ensures selected.None? <==> matches == []
    ensures selected.Some? ==> IsFirstStrictest(matches, selected.value)
  {
    selected := None;
    for k := 0 to |matches|
      invariant selected == Strictest(matches[..k])
    {
      assert matches[..k + 1][..k] == matches[..k];
      if selected == None || Rank(matches[k].evaluation.decision) > Rank(selected.value.evaluation.decision) {
        selected := Some(matches[k]);
      }
    }
    assert matches[..|matches|] == matches;
    StrictestIsFirst(matches);
  }

  ghost predicate IsFirstStrictest(matches: seq<Match>, m: Match) {
    exists i :: IsFirstStrictestAt(matches, m, i)
  }

  ghost predicate IsFirstStrictestAt(matches: seq<Match>, m: Match, i: int) {
    && 0 <= i < |matches| && matches[i] == m
    && (forall j :: 0 <= j < |matches| ==> Rank(matches[j].evaluation.decision) <= Rank(m.evaluation.decision))
    && (forall j :: 0 <= j < i ==> Rank(matches[j].evaluation.decision) < Rank(m.evaluation.decision))
  }

  lemma {:induction false} StrictestIsFirst(matches: seq<Match>)
    ensures Strictest(matches).None? <==> matches == []
    ensures matches != [] ==> IsFirstStrictest(matches, Strictest(matches).value)
  {
    if matches != [] {
      var front, last := matches[..|matches| - 1], matches[|matches| - 1];
      StrictestIsFirst(front);
      var m := Strictest(matches).value;
      if front != [] && m == Strictest(front).value && Rank(last.evaluation.decision) <= Rank(m.evaluation.decision) {
        var i :| IsFirstStrictestAt(front, m, i);
        assert IsFirstStrictestAt(matches, m, i);
      } else {
        assert IsFirstStrictestAt(matches, m, |matches| - 1);
      }
    }
  }

  function ToMatchedRule(scope: Scope, m: Match): MatchedRule {
    var e := m.evaluation;
    MatchedRule(scope, e.rule.id, e.rule.kind, e.decision, e.reason, e.rule, m.leg)
  }

  function ToMatchedRules(scope: Scope, matches: seq<Match>): seq<MatchedRule> {
    if matches == [] then [] else [ToMatchedRule(scope, matches[0])] + ToMatchedRules(scope, matches[1..])
  }

  function HasLegView(views: seq<View>): bool {
    views != [] && (views[0].leg.Some? || HasLegView(views[1..]))
  }

  function EvaluateScope(eval: Evaluator, scope: Scope, policy: Policy, views: seq<View>): ScopeEvaluation {
    if policy.revision.None? then
      ScopeEvaluation(scope, ImplicitDefaultAllow, None, None, policy.defaultAction, Allow,
                      ScopeMissing(scope), NotActive, [], false)
    else
      var revision := policy.revision.value;
      var matches := ViewMatches(eval, revision.rules, views, HasLegView(views));
      var selected := Strictest(matches);
      if selected.Some? then
        var e := selected.value.evaluation;
        ScopeEvaluation(scope, policy.source, policy.profileId, Some(revision.id), policy.defaultAction, e.decision,
                        ScopeMatch(scope), RuleReason(e.reason, selected.value.leg), ToMatchedRules(scope, matches),
                        IsApprovalDecision(e.decision))
      else
        ScopeEvaluation(scope, policy.source, policy.profileId, Some(revision.id),
                        policy.defaultAction, policy.defaultAction, ScopeMatch(scope),
                        NoRuleMatched(policy.defaultAction), [], IsApprovalDecision(policy.defaultAction))
  }

  function ApiKeyScope(
    eval: Evaluator, candidate: Candidate, legs: seq<Candidate>, apiKeyPolicy: Option<Policy>)
    : Option<ScopeEvaluation>
  {
    if apiKeyPolicy.Some? then Some(EvaluateScope(eval, ApiKey, apiKeyPolicy.value, CandidateViews(candidate, legs)))
    else if candidate.apiKeyId.Some?
    then Some(EvaluateScope(eval, ApiKey, IMPLICIT_ALLOW, CandidateViews(candidate, legs)))
    else None
  }

  function Stricter(first: ScopeEvaluation, second: Option<ScopeEvaluation>): ScopeEvaluation {
    if second.Some? && Rank(second.value.decision) > Rank(first.decision) then second.value else first
  }

  predicate UsesImplicitAllow(s: ScopeEvaluation) {
    s.source == ImplicitDefaultAllow && s.decision == Allow
  }

  function EvaluateCandidate(
    eval: Evaluator, candidate: Candidate, legs: seq<Candidate>, walletPolicy: Policy, apiKeyPolicy: Option<Policy>)
    : Evaluation
  {
    var wallet := EvaluateScope(eval, Wallet, walletPolicy, CandidateViews(candidate, legs));
    var apiKey := ApiKeyScope(eval, candidate, legs, apiKeyPolicy);
    var selected := Stricter(wallet, apiKey);
    var implicit := UsesImplicitAllow(wallet) && (apiKey.Some? ==> UsesImplicitAllow(apiKey.value));
    Evaluation(wallet, apiKey, selected.decision, if implicit then AllImplicitAllow else selected.reasonCode,
               wallet.matchedRules + (if apiKey.Some? then apiKey.value.matchedRules else []),
               IsApprovalDecision(selected.decision))
  }

  // --------------------------------------------------------------- dry run

  datatype Criterion = Criterion(
    scope: Scope, ruleId: Option<string>, kind: RuleKind, name: Option<string>, matched: bool,
    action: Option<Decision>, reason: Option<string>, leg: Option<nat>)

  function ViewCriteria(eval: Evaluator, scope: Scope, rules: seq<Rule>, view: View): seq<Criterion> {
    if rules == [] then []
    else
      var r, e := rules[0], eval(rules[0], view.candidate);
      [Criterion(scope, r.id, r.kind, r.name, e.Some?, if e.Some? then Some(e.value.decision) else None,
                 if e.Some? then Some(e.value.reason) else None, view.leg)]
      + ViewCriteria(eval, scope, rules[1..], view)
  }

  function Criteria(eval: Evaluator, scope: Scope, rules: seq<Rule>, views: seq<View>, hasLegs: bool): seq<Criterion> {
    if views == [] then []
    else
      ViewCriteria(eval, scope, ViewRules(rules, views[0], hasLegs), views[0])
      + Criteria(eval, scope, rules, views[1..], hasLegs)
  }

  function DescribeRuleCriteria(
    eval: Evaluator, scope: Scope, policy: Policy, candidate: Candidate, legs: seq<Candidate>): seq<Criterion>
  {
    if policy.revision.None? then []
    else Criteria(eval, scope, policy.revision.value.rules, CandidateViews(candidate, legs), |legs| > 0)
  }

  /** What a dry-run criterion and an enforced match have in common. */
  datatype Contribution = Contribution(
    scope: Scope, ruleId: Option<string>, kind: RuleKind, action: Decision, reason: string, leg: Option<nat>)

  function FromCriteria(cs: seq<Criterion>): seq<Contribution> {
    if cs == [] then []
    else
      var c := cs[0];
      (if c.matched && c.action.Some? && c.reason.Some?
       then [Contribution(c.scope, c.ruleId, c.kind, c.action.value, c.reason.value, c.leg)] else [])
      + FromCriteria(cs[1..])
  }

  function FromMatched(ms: seq<MatchedRule>): seq<Contribution> {
    if ms == [] then []
    else
      [Contribution(ms[0].scope, ms[0].ruleId, ms[0].kind, ms[0].decision, ms[0].reason, ms[0].leg)]
      + FromMatched(ms[1..])
  }

  lemma {:induction false} FromCriteriaConcat(a: seq<Criterion>, b: seq<Criterion>)
    ensures FromCriteria(a + b) == FromCriteria(a) + FromCriteria(b)
  {
    if a == [] {
      assert a + b == b;
    } else {
      assert (a + b)[1..] == a[1..] + b;
      FromCriteriaConcat(a[1..], b);
    }
  }

  lemma {:induction false} MatchedConcat(scope: Scope, a: seq<Match>, b: seq<Match>)
    ensures FromMatched(ToMatchedRules(scope, a + b))
            == FromMatched(ToMatchedRules(scope, a)) + FromMatched(ToMatchedRules(scope, b))
  {
    if a == [] {
      assert a + b == b;
    } else {
      assert (a + b)[1..] == a[1..] + b;
      MatchedConcat(scope, a[1..], b);
    }
  }

  lemma {:induction false} ViewAgrees(eval: Evaluator, scope: Scope, rules: seq<Rule>, view: View)
    requires NamesItsRule(eval)
    ensures FromCriteria(ViewCriteria(eval, scope, rules, view))
            == FromMatched(ToMatchedRules(scope, RuleMatches(eval, rules, view)))
  {
    if rules != [] {
      ViewAgrees(eval, scope, rules[1..], view);
      var criteria := ViewCriteria(eval, scope, rules, view);
      assert criteria == [criteria[0]] + ViewCriteria(eval, scope, rules[1..], view);
      assert criteria[1..] == ViewCriteria(eval, scope, rules[1..], view);
      var e := eval(rules[0], view.candidate);
      var rest := RuleMatches(eval, rules[1..], view);
      if e.Some? {
        assert RuleMatches(eval, rules, view) == [Match(e.value, view.leg)] + rest;
        MatchedConcat(scope, [Match(e.value, view.leg)], rest);
        assert ToMatchedRules(scope, [Match(e.value, view.leg)]) == [ToMatchedRule(scope, Match(e.value, view.leg))];
      } else {
        assert RuleMatches(eval, rules, view) == rest;
      }
    }
  }

  lemma {:induction false} ViewsAgree(eval: Evaluator, scope: Scope, rules: seq<Rule>, views: seq<View>, hasLegs: bool)
    requires NamesItsRule(eval)
    ensures FromCriteria(Criteria(eval, scope, rules, views, hasLegs))
            == FromMatched(ToMatchedRules(scope, ViewMatches(eval, rules, views, hasLegs)))
  {
    if views != [] {
      var viewRules := ViewRules(rules, views[0], hasLegs);
      ViewAgrees(eval, scope, viewRules, views[0]);
      ViewsAgree(eval, scope, rules, views[1..], hasLegs);
      FromCriteriaConcat(ViewCriteria(eval, scope, viewRules, views[0]),
        Criteria(eval, scope, rules, views[1..], hasLegs));
      MatchedConcat(scope, RuleMatches(eval, viewRules, views[0]), ViewMatches(eval, rules, views[1..], hasLegs));
    }
  }

  lemma HasLegViewIff(candidate: Candidate, legs: seq<Candidate>)
    ensures HasLegView(CandidateViews(candidate, legs)) <==> |legs| > 0
  {
    assert CandidateViews(candidate, legs)[1..] == LegViews(legs, 0);
  }

  /**
   * The dry run agrees with enforcement, scope by scope: the criteria marked matched are, in
   * order, exactly the rules the enforced evaluation records.
   */
  lemma DryRunAgrees(eval: Evaluator, scope: Scope, policy: Policy, candidate: Candidate, legs: seq<Candidate>)
    requires NamesItsRule(eval)
    ensures FromCriteria(DescribeRuleCriteria(eval, scope, policy, candidate, legs))
            == FromMatched(EvaluateScope(eval, scope, policy, CandidateViews(candidate, legs)).matchedRules)
  {
    var views := CandidateViews(candidate, legs);
    HasLegViewIff(candidate, legs);
    if policy.revision.Some? {
      var rules := policy.revision.value.rules;
      ViewsAgree(eval, scope, rules, views, |legs| > 0);
      StrictestIsFirst(ViewMatches(eval, rules, views, |legs| > 0));
    }
  }

  // ------------------------------------------- decisions, order forgotten

  /** Some rule, against the aggregate or some leg, contributes the decision d. */
  ghost predicate Contributes(
    eval: Evaluator, rules: seq<Rule>, candidate: Candidate, legs: seq<Candidate>, d: Decision)
  {
    || (exists r :: r in rules && (legs == [] || r.kind != Destination)
         && eval(r, candidate).Some? && eval(r, candidate).value.decision == d)
    || (exists r, leg :: r in rules && leg in legs && eval(r, leg).Some? && eval(r, leg).value.decision == d)
  }

  lemma {:induction false} WithoutDestinationMembers(rules: seq<Rule>, r: Rule)
    ensures r in WithoutDestination(rules) <==> r in rules && r.kind != Destination
  {
    if rules != [] {
      WithoutDestinationMembers(rules[1..], r);
      assert rules == [rules[0]] + rules[1..];
    }
  }

  ghost predicate HasDecision(matches: seq<Match>, d: Decision) {
    exists i :: 0 <= i < |matches| && matches[i].evaluation.decision == d
  }

  lemma HasDecisionConcat(a: seq<Match>, b: seq<Match>, d: Decision)
    ensures HasDecision(a + b, d) <==> HasDecision(a, d) || HasDecision(b, d)
  {
    if HasDecision(a, d) {
      var i :| 0 <= i < |a| && a[i].evaluation.decision == d;
      assert (a + b)[i] == a[i];
    }
    if HasDecision(b, d) {
      var i :| 0 <= i < |b| && b[i].evaluation.decision == d;
      assert (a + b)[|a| + i] == b[i];
    }
  }

  lemma {:induction false} RuleMatchesDecide(eval: Evaluator, rules: seq<Rule>, view: View, d: Decision)
    ensures HasDecision(RuleMatches(eval, rules, view), d)
            <==> exists r :: r in rules && eval(r, view.candidate).Some? && eval(r, view.candidate).value.decision == d
  {
    if rules != [] {
      RuleMatchesDecide(eval, rules[1..], view, d);
      var e := eval(rules[0], view.candidate);
      var head := if e.None? then [] else [Match(e.value, view.leg)];
      HasDecisionConcat(head, RuleMatches(eval, rules[1..], view), d);
      if e.Some? { assert head[0].evaluation == e.value; }
      assert forall r :: r in rules <==> r == rules[0] || r in rules[1..];
    }
  }

  lemma {:induction false} LegMatchesDecide(
    eval: Evaluator, rules: seq<Rule>, legs: seq<Candidate>, from: nat, d: Decision)
    ensures HasDecision(ViewMatches(eval, rules, LegViews(legs, from), true), d)
            <==> exists r, leg :: r in rules && leg in legs && eval(r, leg).Some? && eval(r, leg).value.decision == d
  {
    if legs != [] {
      var views := LegViews(legs, from);
      LegMatchesDecide(eval, rules, legs[1..], from + 1, d);
      RuleMatchesDecide(eval, rules, views[0], d);
      assert views[1..] == LegViews(legs[1..], from + 1);
      HasDecisionConcat(RuleMatches(eval, rules, views[0]), ViewMatches(eval, rules, views[1..], true), d);
      assert forall leg :: leg in legs <==> leg == legs[0] || leg in legs[1..];
    }
  }

  lemma {:induction false} MatchesDecide(
    eval: Evaluator, rules: seq<Rule>, candidate: Candidate, legs: seq<Candidate>, d: Decision)
    ensures HasDecision(ViewMatches(eval, rules, CandidateViews(candidate, legs), |legs| > 0), d)
            <==> Contributes(eval, rules, candidate, legs, d)
  {
    var views := CandidateViews(candidate, legs);
    var own := ViewRules(rules, views[0], |legs| > 0);
    assert views[1..] == LegViews(legs, 0);
    HasDecisionConcat(RuleMatches(eval, own, views[0]), ViewMatches(eval, rules, views[1..], |legs| > 0), d);
    RuleMatchesDecide(eval, own, views[0], d);
    forall r ensures r in own <==> r in rules && (legs == [] || r.kind != Destination) {
      WithoutDestinationMembers(rules, r);
    }
    if |legs| > 0 {
      LegMatchesDecide(eval, rules, legs, 0, d);
    } else {
      assert !HasDecision(ViewMatches(eval, rules, views[1..], false), d);
    }
  }

  /** An active scope decides the strictest contribution, and its default when there is none. */
  ghost predicate IsScopeDecision(
    eval: Evaluator, policy: Policy, rules: seq<Rule>, candidate: Candidate, legs: seq<Candidate>, d: Decision)
  {
    if exists x :: Contributes(eval, rules, candidate, legs, x)
    then Contributes(eval, rules, candidate, legs, d)
         && forall x :: Contributes(eval, rules, candidate, legs, x) ==> Rank(x) <= Rank(d)
    else d == policy.defaultAction
  }

  lemma ScopeDecidesStrictest(eval: Evaluator, scope: Scope, policy: Policy, candidate: Candidate, legs: seq<Candidate>)
    ensures var s := EvaluateScope(eval, scope, policy, CandidateViews(candidate, legs));
            && (policy.revision.None? ==> s.decision == Allow && s.matchedRules == [])
            && (policy.revision.Some? ==>
                 IsScopeDecision(eval, policy, policy.revision.value.rules, candidate, legs, s.decision))
            && s.requiresApproval == IsApprovalDecision(s.decision)
  {
    HasLegViewIff(candidate, legs);
    if policy.revision.Some? {
      var rules := policy.revision.value.rules;
      var matches := ViewMatches(eval, rules, CandidateViews(candidate, legs), |legs| > 0);
      StrictestIsFirst(matches);
      forall d ensures HasDecision(matches, d) <==> Contributes(eval, rules, candidate, legs, d) {
        MatchesDecide(eval, rules, candidate, legs, d);
      }
      if matches != [] {
        var first := Strictest(matches).value.evaluation.decision;
        assert HasDecision(matches, matches[0].evaluation.decision);
        assert HasDecision(matches, first);
      }
    }
  }

  /** Two policies that differ at most in the order and repetition of their rules. */
  ghost predicate SameRules(policy: Policy, other: Policy) {
    && (policy.revision.None? <==> other.revision.None?)
    && policy.defaultAction == other.defaultAction
    && (policy.revision.Some? ==> forall r :: r in policy.revision.value.rules <==> r in other.revision.value.rules)
  }

  /** Permuting or repeating rules and legs never changes a scope's decision. */
  lemma ScopeIgnoresOrder(
    eval: Evaluator, scope: Scope, policy: Policy, other: Policy, candidate: Candidate, legs: seq<Candidate>,
    otherLegs: seq<Candidate>)
    requires SameRules(policy, other) && forall leg :: leg in legs <==> leg in otherLegs
    ensures EvaluateScope(eval, scope, policy, CandidateViews(candidate, legs)).decision
            == EvaluateScope(eval, scope, other, CandidateViews(candidate, otherLegs)).decision
  {
    var d := EvaluateScope(eval, scope, policy, CandidateViews(candidate, legs)).decision;
    var e := EvaluateScope(eval, scope, other, CandidateViews(candidate, otherLegs)).decision;
    ScopeDecidesStrictest(eval, scope, policy, candidate, legs);
    ScopeDecidesStrictest(eval, scope, other, candidate, otherLegs);
    if policy.revision.Some? {
      forall x ensures Contributes(eval, policy.revision.value.rules, candidate, legs, x)
                       <==> Contributes(eval, other.revision.value.rules, candidate, otherLegs, x) {
        SameContributions(eval, policy.revision.value.rules, other.revision.value.rules, candidate, legs, otherLegs, x);
        SameContributions(eval, other.revision.value.rules, policy.revision.value.rules, candidate, otherLegs, legs, x);
      }
      RankInjective(d, e);
    }
  }

  lemma SameContributions(
    eval: Evaluator, rules: seq<Rule>, otherRules: seq<Rule>, candidate: Candidate, legs: seq<Candidate>,
                          otherLegs: seq<Candidate>, d: Decision)
    requires (forall r :: r in rules <==> r in otherRules) && forall leg :: leg in legs <==> leg in otherLegs
    ensures Contributes(eval, rules, candidate, legs, d) ==> Contributes(eval, otherRules, candidate, otherLegs, d)
  {
    assert otherLegs != [] ==> otherLegs[0] in legs;
  }

  /** So neither does it change the combined decision. */
  lemma DecisionIgnoresOrder(eval: Evaluator, candidate: Candidate, legs: seq<Candidate>, otherLegs: seq<Candidate>,
                             wallet: Policy, otherWallet: Policy, apiKey: Option<Policy>, otherApiKey: Option<Policy>)
    requires SameRules(wallet, otherWallet) && forall leg :: leg in legs <==> leg in otherLegs
    requires (apiKey.Some? <==> otherApiKey.Some?) && (apiKey.Some? ==> SameRules(apiKey.value, otherApiKey.value))
    ensures EvaluateCandidate(eval, candidate, legs, wallet, apiKey).decision
            == EvaluateCandidate(eval, candidate, otherLegs, otherWallet, otherApiKey).decision
  {
    ScopeIgnoresOrder(eval, Wallet, wallet, otherWallet, candidate, legs, otherLegs);
    if apiKey.Some? {
      ScopeIgnoresOrder(eval, ApiKey, apiKey.value, otherApiKey.value, candidate, legs, otherLegs);
    }
  }

  lemma RankInjective(a: Decision, b: Decision)
    ensures Rank(a) == Rank(b) ==> a == b
  {
  }

  /**
   * The combined decision is the strictest scope's: no scope is stricter, some scope decides it.
   * So adding or activating an API-key scope never weakens what the wallet scope decides.
   */
  lemma CombinedIsStrictest(
    eval: Evaluator, candidate: Candidate, legs: seq<Candidate>, walletPolicy: Policy, apiKeyPolicy: Option<Policy>)
    ensures var result := EvaluateCandidate(eval, candidate, legs, walletPolicy, apiKeyPolicy);
            var walletOnly := EvaluateCandidate(eval, candidate.(apiKeyId := None), legs, walletPolicy, None);
            && Rank(result.wallet.decision) <= Rank(result.decision)
            && (result.apiKey.Some? ==> Rank(result.apiKey.value.decision) <= Rank(result.decision))
            && (result.decision == result.wallet.decision
                 || (result.apiKey.Some? && result.decision == result.apiKey.value.decision))
            && (candidate.apiKeyId.None? ==> Rank(walletOnly.decision) <= Rank(result.decision))
            && (result.decision == Deny <==>
                 result.wallet.decision == Deny || (result.apiKey.Some? && result.apiKey.value.decision == Deny))
            && (result.reasonCode == AllImplicitAllow ==> result.decision == Allow)
            && result.requiresApproval == IsApprovalDecision(result.decision)
  {
    if candidate.apiKeyId.None? {
      assert candidate.(apiKeyId := None) == candidate;
    }
  }

  /** A deny anywhere, in any scope, on the aggregate or on any leg, denies the operation. */
  lemma AnyDenyDenies(
    eval: Evaluator, candidate: Candidate, legs: seq<Candidate>, walletPolicy: Policy, apiKeyPolicy: Option<Policy>)
    requires || (walletPolicy.revision.Some?
                 && Contributes(eval, walletPolicy.revision.value.rules, candidate, legs, Deny))
             || (apiKeyPolicy.Some? && apiKeyPolicy.value.revision.Some?
                 && Contributes(eval, apiKeyPolicy.value.revision.value.rules, candidate, legs, Deny))
    ensures EvaluateCandidate(eval, candidate, legs, walletPolicy, apiKeyPolicy).decision == Deny
  {
    ScopeDecidesStrictest(eval, Wallet, walletPolicy, candidate, legs);
    if apiKeyPolicy.Some? {
      ScopeDecidesStrictest(eval, ApiKey, apiKeyPolicy.value, candidate, legs);
    }
    CombinedIsStrictest(eval, candidate, legs, walletPolicy, apiKeyPolicy);
  }
}
