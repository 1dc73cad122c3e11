/** Field-wise change detection: `getChanged` and `changed` (lib/plugins/environments.js:83-126). */
module Changes {
  import opened Seqs
  import opened Sorting
  import opened Records

  /** One flag per tracked field: does the desired value differ from the existing one? */
  datatype ChangeSet = ChangeSet(
    waitTimer: bool,
    preventSelfReview: bool,
    reviewers: bool,
    branchPolicy: bool,
    variables: bool,
    protectionRules: bool)
  {
    /** Some tracked field differs (`changed`, line 125). */
    predicate Any()
    {
      waitTimer || preventSelfReview || reviewers || branchPolicy || variables || protectionRules
    }

    /** A field that the single settings PUT of `update` carries differs (line 137). */
    predicate Settings()
    {
      waitTimer || preventSelfReview || reviewers || branchPolicy
    }
  }

  /** Reviewers are sorted by their numeric id before comparison. */
  function ReviewerId(r: Reviewer): int
  {
    r.id
  }

  function SortedReviewers(rs: seq<Reviewer>): seq<Reviewer>
  {
    SortBy(rs, ReviewerId)
  }

  function IntKey(x: int): int
  {
    x
  }

  /** The app ids of the rules, sorted numerically (line 117). */
  function SortedAppIds(rules: seq<ProtectionRule>): seq<int>
  {
    SortBy(AppIds(rules), IntKey)
  }

  /** The three-way comparison of `deployment_branch_policy` (lines 95-114): both null is
      unchanged, exactly one null is changed, and two objects differ when
      `protected_branches` or the `custom_branch_policies` differ. Object-valued custom
      policies are not reordered by the default sort, and `JSON.stringify` tells a flag from a
      list, so the comparison is exactly structural inequality. */
  function BranchPolicyChanged(existing: Option<BranchPolicy>, desired: Option<BranchPolicy>): (changed: bool)
    ensures changed <==> existing != desired
    ensures existing.None? && desired.None? ==> !changed
    ensures existing.None? != desired.None? ==> changed
  {
    if existing.None? && desired.None? then false
    else
      existing.None? || desired.None?
      || existing.value.protectedBranches != desired.value.protectedBranches
      || existing.value.custom != desired.value.custom
  }

  /** `getChanged(existing, attrs)`: fill the defaults into `attrs`, then compare field by field.
      Variables are compared in the order given: the comparator `x1.name - x2.name` is NaN for
      names, so the sort leaves them as they are. Protection rules are compared by app id only. */
  function GetChanged(existing: Settings, attrs: Entry): (c: ChangeSet)
    ensures c.waitTimer <==> existing.waitTimer != Fill(attrs).waitTimer
    ensures c.preventSelfReview <==> existing.preventSelfReview != Fill(attrs).preventSelfReview
    ensures c.branchPolicy <==> existing.branchPolicy != Fill(attrs).branchPolicy
    ensures c.variables <==> existing.variables != Fill(attrs).variables
  {
    var desired := Fill(attrs);
    ChangeSet(
      existing.waitTimer != desired.waitTimer,
      existing.preventSelfReview != desired.preventSelfReview,
      SortedReviewers(existing.reviewers) != SortedReviewers(desired.reviewers),
      BranchPolicyChanged(existing.branchPolicy, desired.branchPolicy),
      existing.variables != desired.variables,
      SortedAppIds(existing.protectionRules) != SortedAppIds(desired.protectionRules))
  }

  /** `changed(existing, attrs)`: some field differs. */
  function Changed(existing: Settings, attrs: Entry): bool
  {
    GetChanged(existing, attrs).Any()
  }

  /** Reviewers are compared as a multiset: a permutation of the reviewers is not a change,
      provided the existing reviewers' ids identify them. */
  lemma ReviewersOrderInsensitive(existing: Settings, attrs: Entry)
    requires KeyDetermines(existing.reviewers, ReviewerId)
    ensures GetChanged(existing, attrs).reviewers <==> multiset(existing.reviewers) != multiset(Fill(attrs).reviewers)
  {
    SortedEqualIffPermutation(existing.reviewers, Fill(attrs).reviewers, ReviewerId);
  }

  /** Protection rules are compared on the multiset of their app ids alone: their order and
      their `id`s never cause a change. */
  lemma RulesCompareAppIdsOnly(existing: Settings, attrs: Entry)
    ensures GetChanged(existing, attrs).protectionRules
            <==> multiset(AppIds(existing.protectionRules)) != multiset(AppIds(Fill(attrs).protectionRules))
  {
    SortedEqualIffPermutation(AppIds(existing.protectionRules), AppIds(Fill(attrs).protectionRules), IntKey);
  }

  /** The existing record agrees with the filled entry on every tracked field, stated without
      sorting: reviewers and rule app ids as multisets, the rest exactly. */
  ghost predicate Agrees(existing: Settings, desired: Settings)
  {
    existing.waitTimer == desired.waitTimer
    && existing.preventSelfReview == desired.preventSelfReview
    && multiset(existing.reviewers) == multiset(desired.reviewers)
    && existing.branchPolicy == desired.branchPolicy
    && existing.variables == desired.variables
    && multiset(AppIds(existing.protectionRules)) == multiset(AppIds(desired.protectionRules))
  }

  /** `changed` holds exactly when the existing record disagrees with the filled entry. */
  lemma ChangedIffDisagrees(existing: Settings, attrs: Entry)
    requires KeyDetermines(existing.reviewers, ReviewerId)
    ensures Changed(existing, attrs) <==> !Agrees(existing, Fill(attrs))
  {
    ReviewersOrderInsensitive(existing, attrs);
    RulesCompareAppIdsOnly(existing, attrs);
  }

  /** An entry that omits an optional field and one that sets it to its default yield identical
      change sets (line 84-89 run before any comparison). */
  lemma OmittedFieldIsDefault(existing: Settings, attrs: Entry)
    ensures GetChanged(existing, attrs.(waitTimer := None)) == GetChanged(existing, attrs.(waitTimer := Some(0)))
    ensures GetChanged(existing, attrs.(preventSelfReview := None)) == GetChanged(existing, attrs.(preventSelfReview := Some(false)))
    ensures GetChanged(existing, attrs.(reviewers := None)) == GetChanged(existing, attrs.(reviewers := Some([])))
    ensures GetChanged(existing, attrs.(variables := None)) == GetChanged(existing, attrs.(variables := Some([])))
    ensures GetChanged(existing, attrs.(protectionRules := None)) == GetChanged(existing, attrs.(protectionRules := Some([])))
  {
    FillOmittedIsDefault(attrs);
    SameFillSameChanges(existing, attrs.(waitTimer := None), attrs.(waitTimer := Some(0)));
    SameFillSameChanges(existing, attrs.(preventSelfReview := None), attrs.(preventSelfReview := Some(false)));
    SameFillSameChanges(existing, attrs.(reviewers := None), attrs.(reviewers := Some([])));
    SameFillSameChanges(existing, attrs.(variables := None), attrs.(variables := Some([])));
    SameFillSameChanges(existing, attrs.(protectionRules := None), attrs.(protectionRules := Some([])));
  }

  /** The change set depends on a desired entry only through its filled form. */
  lemma SameFillSameChanges(existing: Settings, a: Entry, b: Entry)
    requires Fill(a) == Fill(b)
    ensures GetChanged(existing, a) == GetChanged(existing, b)
  {
  }

  /** Comparing a filled entry against itself reports no change, whatever the order of its lists. */
  lemma UnchangedAgainstOwnFill(attrs: Entry)
    ensures !Changed(Fill(attrs), attrs)
  {
  }
}
