/** The environment records the adapter compares (lib/plugins/environments.js):
    the desired entries as written in the settings, the normalized existing records that
    `find` builds from the remote, the default filling of `getChanged`, and the lower-casing
    of names done by the constructor. */
module Records {
  import opened Seqs
  import opened Names

  /** A required reviewer, `{id, type}`. */
  datatype Reviewer = Reviewer(id: int, kind: string)

  /** An environment variable, `{name, value}`. */
  datatype Variable = Variable(name: string, value: string)

  /** A custom deployment protection rule, `{app_id, id}`; desired rules usually have no `id`. */
  datatype ProtectionRule = ProtectionRule(appId: int, id: Option<int>)

  /** A custom branch policy, in the object form `{name}` that `find` produces. */
  datatype PolicyPattern = PolicyPattern(name: string)

  /** `custom_branch_policies`: a boolean flag, or the list of policies. */
  datatype CustomPolicies = Flag(enabled: bool) | Patterns(items: seq<PolicyPattern>)
  {
    /** JavaScript truthiness: `false` is falsy, `true` and every array (even empty) are truthy. */
    predicate Truthy()
    {
      match this
      case Flag(b) => b
      case Patterns(_) => true
    }
  }

  /** `deployment_branch_policy` when it is not null. */
  datatype BranchPolicy = BranchPolicy(protectedBranches: bool, custom: CustomPolicies)

  /** A fully populated environment record: what `find` returns for an existing environment,
      and what a desired entry becomes once `getChanged` has filled its defaults.
      `branchPolicy == None` is `deployment_branch_policy: null`. */
  datatype Settings = Settings(
    name: string,
    waitTimer: int,
    preventSelfReview: bool,
    reviewers: seq<Reviewer>,
    branchPolicy: Option<BranchPolicy>,
    variables: seq<Variable>,
    protectionRules: seq<ProtectionRule>)

  /** A desired environment entry. `None` is a field that is absent (or null, which `sync`
      deletes before comparing). */
  datatype Entry = Entry(
    name: string,
    waitTimer: Option<int>,
    preventSelfReview: Option<bool>,
    reviewers: Option<seq<Reviewer>>,
    branchPolicy: Option<BranchPolicy>,
    variables: Option<seq<Variable>>,
    protectionRules: Option<seq<ProtectionRule>>)

  /** The default filling at the start of `getChanged` (lines 84-89): a falsy field takes its
      default. A wait timer of 0 and a `false` flag are falsy, so they are replaced by the
      same default; arrays and objects are always truthy. */
  function Fill(attrs: Entry): Settings
  {
    Settings(
      attrs.name,
      match attrs.waitTimer case Some(t) => t case None => 0,
      match attrs.preventSelfReview case Some(b) => b case None => false,
      match attrs.reviewers case Some(rs) => rs case None => [],
      attrs.branchPolicy,
      match attrs.variables case Some(vs) => vs case None => [],
      match attrs.protectionRules case Some(rules) => rules case None => [])
  }

  /** The entry that sets every field explicitly; the inverse of `Fill`. */
  function Embed(s: Settings): (attrs: Entry)
    ensures Fill(attrs) == s
    ensures attrs.name == s.name
  {
    Entry(s.name, Some(s.waitTimer), Some(s.preventSelfReview), Some(s.reviewers),
          s.branchPolicy, Some(s.variables), Some(s.protectionRules))
  }

  /** Re-applying the default filling to an already filled entry changes nothing. */
  lemma FillIdempotent(attrs: Entry)
    ensures Fill(Embed(Fill(attrs))) == Fill(attrs)
  {
  }

  /** An omitted field and a field set to its documented default fill identically. */
  lemma FillOmittedIsDefault(attrs: Entry)
    ensures Fill(attrs.(waitTimer := None)) == Fill(attrs.(waitTimer := Some(0)))
    ensures Fill(attrs.(preventSelfReview := None)) == Fill(attrs.(preventSelfReview := Some(false)))
    ensures Fill(attrs.(reviewers := None)) == Fill(attrs.(reviewers := Some([])))
    ensures Fill(attrs.(variables := None)) == Fill(attrs.(variables := Some([])))
    ensures Fill(attrs.(protectionRules := None)) == Fill(attrs.(protectionRules := Some([])))
  {
  }

  // ---------------------------------------------------------------------------------------
  // Lower-casing done by the constructor (lines 9-19)

  function LowerVariables(vs: seq<Variable>): (r: seq<Variable>)
    ensures |r| == |vs|
    ensures forall i :: 0 <= i < |vs| ==>
              r[i].value == vs[i].value && NoUpper(r[i].name) && EqualIgnoringCase(vs[i].name, r[i].name)
  {
    Each(vs, (v: Variable) => Variable(Lower(v.name), v.value))
  }

  /** The entry name and the names of its variables (when present) are lower-case. */
  predicate EntryLowered(e: Entry)
  {
    NoUpper(e.name)
    && (e.variables.Some? ==> forall i :: 0 <= i < |e.variables.value| ==> NoUpper(e.variables.value[i].name))
  }

  /** What the constructor does to one entry: lower-case its name and its variables' names,
      leaving every other field as it was. */
  function LowerEntry(e: Entry): (r: Entry)
    ensures EntryLowered(r)
    ensures EqualIgnoringCase(e.name, r.name)
    ensures r.name == Lower(e.name)
    ensures r.variables.Some? <==> e.variables.Some?
    ensures r.(name := e.name, variables := e.variables) == e
  {
    e.(name := Lower(e.name),
       variables := match e.variables case Some(vs) => Some(LowerVariables(vs)) case None => None)
  }

  // ---------------------------------------------------------------------------------------
  // The mapping in `find` (lines 41-72); the GET requests themselves are inputs.

  /** A reviewer as the API returns it inside a `required_reviewers` rule: `{type, reviewer: {id}}`. */
  datatype RawReviewer = RawReviewer(kind: string, reviewerId: int)

  /** An entry of the environment's `protection_rules`, by its `type`. */
  datatype RawRule =
    | WaitTimerRule(waitTimer: int)
    | RequiredReviewersRule(preventSelfReview: bool, reviewers: seq<RawReviewer>)
    | OtherRule(kind: string)

  /** The environment's `deployment_branch_policy`: null, missing (undefined), or present. */
  datatype RawBranchPolicy =
    | NullPolicy
    | MissingPolicy
    | PolicyFlags(protectedBranches: bool, customBranchPolicies: bool)

  datatype RawEnvironment = RawEnvironment(name: string, protectionRules: seq<RawRule>, branchPolicy: RawBranchPolicy)

  /** A custom protection rule as listed by the API: `{app: {id}, id}`. */
  datatype RawCustomRule = RawCustomRule(appId: int, id: int)

  /** One environment and the results of the three GETs `find` issues for it: the branch
      policy names (only read when custom branch policies are on), the variables, and the
      custom protection rules. */
  datatype FetchedEnvironment = FetchedEnvironment(
    environment: RawEnvironment,
    branchPolicyNames: seq<string>,
    variables: seq<Variable>,
    customRules: seq<RawCustomRule>)

  /** `protection_rules.find(rule => rule.type === 'wait_timer')`. */
  function FirstWaitTimer(rules: seq<RawRule>): (r: Option<int>)
    ensures r.None? <==> forall i :: 0 <= i < |rules| ==> !rules[i].WaitTimerRule?
    ensures r.Some? ==> exists i :: 0 <= i < |rules| && rules[i].WaitTimerRule? && rules[i].waitTimer == r.value
                                     && forall j :: 0 <= j < i ==> !rules[j].WaitTimerRule?
  {
    if rules == [] then None
    else if rules[0].WaitTimerRule? then Some(rules[0].waitTimer)
    else FirstWaitTimer(rules[1..])
  }

  /** `protection_rules.find(rule => rule.type === 'required_reviewers')`. */
  function FirstReviewersRule(rules: seq<RawRule>): (r: Option<RawRule>)
    ensures r.Some? ==> r.value.RequiredReviewersRule? && r.value in rules
    ensures r.None? <==> forall i :: 0 <= i < |rules| ==> !rules[i].RequiredReviewersRule?
    ensures r.Some? ==> exists i :: 0 <= i < |rules| && rules[i] == r.value
                                     && forall j :: 0 <= j < i ==> !rules[j].RequiredReviewersRule?
  {
    if rules == [] then None
    else if rules[0].RequiredReviewersRule? then Some(rules[0])
    else FirstReviewersRule(rules[1..])
  }

  /** The shape every record produced by `find` has: lower-case names, rule ids present, and
      custom branch policies either off or listed. */
  predicate Normalized(s: Settings)
  {
    NoUpper(s.name)
    && (forall i :: 0 <= i < |s.variables| ==> NoUpper(s.variables[i].name))
    && (forall i :: 0 <= i < |s.protectionRules| ==> s.protectionRules[i].id.Some?)
    && (s.branchPolicy.Some? ==> s.branchPolicy.value.custom != Flag(true))
  }

  function AppIds(rules: seq<ProtectionRule>): (ids: seq<int>)
    ensures |ids| == |rules|
    ensures forall i :: 0 <= i < |rules| ==> ids[i] == rules[i].appId
  {
    Each(rules, (r: ProtectionRule) => r.appId)
  }

  /** The record `find` maps one fetched environment to, with the defaults of lines 45-49
      for absent protection rules and a missing branch policy. */
  function Normalize(f: FetchedEnvironment): (s: Settings)
    ensures Normalized(s)
    ensures s.name == Lower(f.environment.name)
    ensures FirstWaitTimer(f.environment.protectionRules).None? ==> s.waitTimer == 0
    ensures FirstWaitTimer(f.environment.protectionRules).Some? ==> s.waitTimer == FirstWaitTimer(f.environment.protectionRules).value
    ensures FirstReviewersRule(f.environment.protectionRules).None? ==> !s.preventSelfReview && s.reviewers == []
    ensures var rule := FirstReviewersRule(f.environment.protectionRules);
            rule.Some? ==>
              && s.preventSelfReview == rule.value.preventSelfReview
              && |s.reviewers| == |rule.value.reviewers|
              && forall i :: 0 <= i < |rule.value.reviewers| ==>
                   s.reviewers[i] == Reviewer(rule.value.reviewers[i].reviewerId, rule.value.reviewers[i].kind)
    ensures s.branchPolicy.None? <==> f.environment.branchPolicy == NullPolicy
    ensures f.environment.branchPolicy == MissingPolicy ==> s.branchPolicy == Some(BranchPolicy(false, Flag(false)))
    ensures f.environment.branchPolicy.PolicyFlags? ==>
              && s.branchPolicy.Some?
              && s.branchPolicy.value.protectedBranches == f.environment.branchPolicy.protectedBranches
              && (!f.environment.branchPolicy.customBranchPolicies ==> s.branchPolicy.value.custom == Flag(false))
              && (f.environment.branchPolicy.customBranchPolicies ==>
                    && s.branchPolicy.value.custom.Patterns?
                    && |s.branchPolicy.value.custom.items| == |f.branchPolicyNames|
                    && forall i :: 0 <= i < |f.branchPolicyNames| ==>
                         s.branchPolicy.value.custom.items[i].name == f.branchPolicyNames[i])
    ensures |s.variables| == |f.variables|
    ensures forall i :: 0 <= i < |f.variables| ==>
              s.variables[i].value == f.variables[i].value && EqualIgnoringCase(f.variables[i].name, s.variables[i].name)
    ensures AppIds(s.protectionRules) == Each(f.customRules, (r: RawCustomRule) => r.appId)
    ensures |s.protectionRules| == |f.customRules|
    ensures forall i :: 0 <= i < |f.customRules| ==>
              s.protectionRules[i] == ProtectionRule(f.customRules[i].appId, Some(f.customRules[i].id))
  {
    var env := f.environment;
    var reviewersRule := FirstReviewersRule(env.protectionRules);
    Settings(
      Lower(env.name),
      match FirstWaitTimer(env.protectionRules) case Some(t) => t case None => 0,
      match reviewersRule case Some(rule) => rule.preventSelfReview case None => false,
      match reviewersRule
        case Some(rule) => Each(rule.reviewers, (r: RawReviewer) => Reviewer(r.reviewerId, r.kind))
        case None => [],
      match env.branchPolicy
        case NullPolicy => None
        case MissingPolicy => Some(BranchPolicy(false, Flag(false)))
        case PolicyFlags(p, c) =>
          Some(BranchPolicy(p, if c then Patterns(Each(f.branchPolicyNames, (n: string) => PolicyPattern(n))) else Flag(false))),
      LowerVariables(f.variables),
      Each(f.customRules, (r: RawCustomRule) => ProtectionRule(r.appId, Some(r.id))))
  }
}
