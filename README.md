# Environments adapter of safe-settings, modelled in Dafny

This project models `lib/plugins/environments.js`. That plugin reconciles a repository's
deployment environments with a list of desired environment entries. It does so in three steps:

- It fetches the existing environments and normalizes them (`find`).
- It matches them to the entries by lower-cased name (`comparator`).
- It decides, field by field, what differs (`getChanged`, `changed`).

Then it issues the mutating calls:

- `remove` for an environment no entry names;
- `add` for an entry no environment matches;
- `update` for a matched environment that differs.

Every call goes through one choke point, `nopifyRequest`. In dry-run mode that choke point
performs nothing and returns one command describing the call.

The model has these modules:

- `Names`: ASCII lower-casing of identity keys.
- `Records`: the desired entry and the normalized existing record, the default filling of
  `getChanged`, the lower-casing done by the constructor, and the mapping `find` applies to
  the data it fetched.
- `Sorting`: the stable sort by a numeric key that the reviewer and rule comparisons use.
- `Changes`: the six change flags and `changed`.
- `Requests`: the mutating calls, the dry-run command, and the error command.
- `Plans`: the ordered calls that `update`, `add` and `remove` issue, as functions of their
  inputs.
- `Reconcile`: the classification `sync` makes, the calls of a whole pass, and the outcome
  `sync` settles with.
- `EnvironmentsPlugin`: the plugin object as a class. Its methods run the same loops as the
  source and append to a log of the calls. Each method is proved to issue exactly the plan
  that `Plans` or `Reconcile` computes.

The remote is the append-only field `remote`. Dry-run commands go to `dryRun`. The class
invariant `Valid` states how the two relate to the calls made:

- In live mode, `remote` holds every call and `dryRun` is empty.
- In dry-run mode, `remote` is empty and `dryRun` holds one command per call, in order.

The GET requests are inputs to the model:

- `find`'s result is a `Fetch` value, either the records or the failure that rejected the
  fetch.
- The branch policies `update` fetches are the function `branchPolicies`, which maps an
  environment name to its policies.

## Model

| member | source | states |
|---|---|---|
| Names.Lower | lib/plugins/environments.js:9-19 | the lower-cased name has no upper-case letter and differs from the original only in the case of letters |
| Names.LowerFixesLowerCase | lib/plugins/environments.js:43 | lower-casing a name that is already lower-case leaves it unchanged, so the records `find` lower-cases compare unchanged |
| Names.LowerEqualIff | lib/plugins/environments.js:79-81 | two names lower-case to the same string exactly when they differ only by letter case (both directions) |
| Names.LowerCaseVariantsEqual | lib/plugins/environments.js:79-81 | two lower-case names that differ only by case are equal, so the exact comparator matches them |
| Records.Embed | lib/plugins/environments.js:84-89 | for every filled record there is an entry that fills to exactly that record, so the default filling is onto |
| Records.FillIdempotent | lib/plugins/environments.js:84-89 | filling an already filled entry again changes nothing |
| Records.FillOmittedIsDefault | lib/plugins/environments.js:84-89 | an omitted wait timer, self-review flag, reviewer list, variable list or rule list fills the same as the documented default (0, false, []) |
| Records.LowerVariables | lib/plugins/environments.js:13-17 | keeps the number and the values of the variables, and lower-cases each name |
| Records.LowerEntry | lib/plugins/environments.js:9-19 | the entry's name and its variables' names become lower-case, the names match the old ones up to case, and every other field is unchanged |
| Records.FirstWaitTimer | lib/plugins/environments.js:45 | returns the timer of the first wait-timer rule, with no wait-timer rule before it, and finds nothing exactly when no protection rule is a wait timer |
| Records.FirstReviewersRule | lib/plugins/environments.js:46-47 | returns the first `required_reviewers` rule of the list, with none before it, and finds nothing exactly when there is none |
| Records.Normalize | lib/plugins/environments.js:41-72 | the record has the lower-cased name. The wait timer is that of the first wait-timer rule, or 0. `prevent_self_review` and the reviewers (`{id, type}` per reviewer, in order) come from the first reviewers rule, or are false and []. A null branch policy stays null, a missing one becomes `{false, false}`. A present one keeps `protected_branches`, and its custom policies are the fetched policy names in order when the flag is on, `false` otherwise. Variables keep their values and order with lower-cased names. Each rule is `{app_id, id}` of the fetched rule, in order |
| Sorting.SortBy | lib/plugins/environments.js:93 | the result is sorted by the numeric key and is a permutation of the input |
| Sorting.SortedPermutationsEqual | lib/plugins/environments.js:93 | two sorted permutations of the same elements are equal when the key identifies an element |
| Sorting.SortedEqualIffPermutation | lib/plugins/environments.js:117 | two lists are equal after sorting exactly when they are permutations of each other, when the key identifies an element |
| Changes.BranchPolicyChanged | lib/plugins/environments.js:95-114 | both null means unchanged, exactly one null means changed, and otherwise the flag is set exactly when `protected_branches` or `custom_branch_policies` differ |
| Changes.GetChanged | lib/plugins/environments.js:83-120 | the wait-timer, self-review, branch-policy and variable flags are each set exactly when the existing value differs from the filled desired one (variables in the order given) |
| Changes.ReviewersOrderInsensitive | lib/plugins/environments.js:93 | when the existing reviewers' ids identify them, the reviewers flag is set exactly when the reviewer multisets differ, so a permutation of reviewers is not a change |
| Changes.RulesCompareAppIdsOnly | lib/plugins/environments.js:117 | the rules flag is set exactly when the multisets of app ids differ, so rule order and rule ids never cause a change |
| Changes.ChangedIffDisagrees | lib/plugins/environments.js:122-126 | when the existing reviewers' ids identify them, `changed` holds exactly when the existing record disagrees with the filled entry on a tracked field (reviewers and rule app ids compared as multisets) |
| Changes.OmittedFieldIsDefault | lib/plugins/environments.js:84-92 | an entry that omits an optional field yields the same change set as one that sets it to its default |
| Changes.SameFillSameChanges | lib/plugins/environments.js:84-89 | the change set depends on the entry only through its filled form |
| Changes.UnchangedAgainstOwnFill | lib/plugins/environments.js:83-126 | an environment that already holds the filled entry is reported unchanged |
| Requests.DryRunCommand | lib/plugins/environments.js:22-31 | the dry-run command is a normal command of this plugin and repository that describes exactly the call |
| Requests.DryRunCommandsAppend | lib/plugins/environments.js:22-31 | the commands for two batches of calls are those of each batch, in order |
| Requests.DryRunCommandsNormal | lib/plugins/environments.js:26-29 | there is one command per call, each normal and for this plugin and repository |
| Requests.DryRunFaithful | lib/plugins/environments.js:22-31 | the calls recovered from the dry-run commands are exactly the calls, in order, none added or dropped |
| Requests.ErrorCommand | lib/plugins/environments.js:377 | the error command has severity `'ERROR'`, no endpoint and no call it describes, and names this plugin and repository |
| Plans.VariableRequestsDistinct | lib/plugins/environments.js:179-205 | a variable's PATCH, POST and DELETE identify the variable, and requests of different kinds never coincide |
| Plans.PostRuleDistinct | lib/plugins/environments.js:216-221 | a rule POST identifies the app id it installs |
| Plans.PolicyReplacement | lib/plugins/environments.js:152-169 | the replacement is a DELETE for each fetched policy in fetched order, then a POST for each desired policy in desired order |
| Plans.FindVariable | lib/plugins/environments.js:175 | returns the first variable of the list with that name, and nothing exactly when no variable has the name |
| Plans.Unclaimed | lib/plugins/environments.js:177 | keeps exactly the variables whose names are not in the given set |
| Plans.FindUnclaimed | lib/plugins/environments.js:175-177 | after filtering, a search for an unfiltered name finds what it found before, and a search for a filtered name finds nothing |
| Plans.UnclaimedFilter | lib/plugins/environments.js:177 | filtering one more name out of the remaining list is filtering the larger set of names out of the original |
| Plans.UnclaimedNothing | lib/plugins/environments.js:172 | the copy made before the loop is the whole existing list |
| Plans.UnclaimedAbsent | lib/plugins/environments.js:188-196 | posting a name that no remaining variable has leaves the remaining list as it is |
| Plans.VariableUpsertsSnoc | lib/plugins/environments.js:174-197 | one more turn of the upsert loop appends the calls for that variable, and that variable's name joins the handled ones |
| Plans.UpsertsAreForDesired | lib/plugins/environments.js:174-197 | every upsert call is a PATCH or POST of a desired variable, and there are no more upsert calls than desired variables |
| Plans.UpsertIsFor | lib/plugins/environments.js:175-196 | one turn of the loop issues at most one call: a PATCH or POST of that variable |
| Plans.UpsertOfNewName | lib/plugins/environments.js:175-196 | for a name not yet handled, a PATCH is issued exactly when the existing value differs, and a POST exactly when the name is new |
| Plans.UpsertsExact | lib/plugins/environments.js:174-197 | with distinct desired names, a desired variable is patched exactly when its name exists with another value, and posted exactly when its name is new |
| Plans.NoRequestForAbsent | lib/plugins/environments.js:174-197 | no PATCH or POST is issued for a name the desired list does not contain |
| Plans.DeletesExact | lib/plugins/environments.js:199-206 | a name is deleted exactly when it exists and is not desired |
| Plans.VariableRoutes | lib/plugins/environments.js:174-206 | the upserts are PATCHes or POSTs of variables, and the deletes are variable DELETEs |
| Plans.UpsertReconciliation | lib/plugins/environments.js:171-197 | a desired variable is patched exactly when an existing variable has its name and another value, and posted exactly when no existing variable has its name |
| Plans.DeleteReconciliation | lib/plugins/environments.js:199-207 | a DELETE of a name is issued exactly when an existing variable has it and no desired variable does |
| Plans.VariableReconciliation | lib/plugins/environments.js:171-207 | the set difference: a PATCH for a changed value, a POST for a new name, no call for an equal value, and a DELETE for a name no longer desired |
| Plans.UpsertsOnce | lib/plugins/environments.js:174-197 | with distinct desired names, no PATCH or POST is issued twice |
| Plans.UnclaimedDistinct | lib/plugins/environments.js:177 | filtering `existingVariables` keeps its names distinct |
| Plans.DeletesOnce | lib/plugins/environments.js:199-206 | with distinct existing names, no DELETE is issued twice |
| Plans.VariableRequestsOnce | lib/plugins/environments.js:171-207 | with distinct names on both sides, each variable call occurs at most once (as a multiset, every call has multiplicity at most 1), so the reconciliation issues exactly one PATCH, POST or DELETE per variable that needs one |
| Plans.VariableCaseVariants | lib/plugins/environments.js:13-17 | with the existing names lower-case, as `find` makes them (line 62), a desired variable whose name differs from an existing one's only by case is never posted as new, and the existing one is never deleted |
| Plans.HasRuleIdIff | lib/plugins/environments.js:213 | the search finds a rule exactly when some existing rule has that id |
| Plans.RulePostsExact | lib/plugins/environments.js:212-223 | a rule of an app is posted exactly when a desired rule of that app has an id no existing rule has |
| Plans.RuleReconciliation | lib/plugins/environments.js:209-233 | at most one POST per desired rule, then a DELETE for every existing rule in existing order, whether or not it is still desired |
| Plans.RuleWithoutIdPosted | lib/plugins/environments.js:212-222 | a desired rule without an id is always posted when every existing rule has an id |
| Plans.RemovePlan | lib/plugins/environments.js:298-311 | `remove` issues exactly one environment DELETE, with the owner, the repository and the environment's name |
| Plans.UpdatePolicyStepsInPhase | lib/plugins/environments.js:152-169 | the branch-policy calls of `update` are deletes before posts, and exist only when the branch-policy flag is set |
| Plans.PolicyStepsInPhase | lib/plugins/environments.js:259-266 | the replacement deletes before it posts, and `add` only posts policies |
| Plans.VariableRequestsOrdered | lib/plugins/environments.js:171-207 | the variable calls are all PATCHes and POSTs first, then all DELETEs |
| Plans.RuleRequestsOrdered | lib/plugins/environments.js:209-233 | the rule calls are all POSTs first, then all DELETEs |
| Plans.StepsInOrder | lib/plugins/environments.js:137-233 | the calls of `update` follow the fixed order: PUT, policy deletes, policy posts, variable upserts, variable deletes, rule posts, rule deletes |
| Plans.UpdateStepsInOrder | lib/plugins/environments.js:128-234 | `update` issues its calls in that fixed order |
| Plans.StepsFollowChanges | lib/plugins/environments.js:137-233 | one PUT is issued, and first, exactly when a settings flag is set. Policy, variable and rule calls are issued only when their flag is set |
| Plans.TailPhases | lib/plugins/environments.js:171-233 | variable calls exist only when the variables flag is set, and rule calls only when the rules flag is set |
| Plans.UpdateFollowsChanges | lib/plugins/environments.js:128-234 | `update`'s calls follow the change set of `getChanged` as above |
| Plans.AddPlanOrdered | lib/plugins/environments.js:236-296 | `add` issues its calls in the fixed order |
| Plans.AddPlanCreatesOnly | lib/plugins/environments.js:236-296 | `add` only issues the PUT and POSTs |
| Plans.AddStepsInOrder | lib/plugins/environments.js:236-296 | `add` issues the PUT first, then its posts in order, and never patches or deletes |
| Plans.AddPlanSize | lib/plugins/environments.js:236-296 | a completed `add` issues one call per desired policy, variable and rule, plus the PUT. It stops early exactly when `custom_branch_policies` is `true` |
| Plans.PolicyNameDiffers | lib/plugins/environments.js:259-266 | `add` posts the policy's name string, while `update` posts the policy object (line 166), so the two POSTs differ |
| Reconcile.FindRecord | lib/plugins/environments.js:344-346 | returns the first record that matches the entry, and nothing exactly when no record matches |
| Reconcile.EntryOperationsSize | lib/plugins/environments.js:343-365 | the entries loop dispatches at most one operation per entry |
| Reconcile.Classify | lib/plugins/environments.js:329-365 | a pass dispatches at most one operation per record plus one per entry |
| Reconcile.RemovalsExact | lib/plugins/environments.js:331-341 | an operation of the removals loop is exactly a removal of a record no entry names |
| Reconcile.EntryOperationsExact | lib/plugins/environments.js:343-365 | an operation of the entries loop is exactly an add or an update that the entry's own case calls for |
| Reconcile.ClassifyExact | lib/plugins/environments.js:331-365 | a record is removed exactly when no entry has its (lower-cased) name. An entry is added exactly when no record has its name. It is updated exactly when `find` returns a record and `changed` holds |
| Reconcile.OperationsExclusive | lib/plugins/environments.js:343-365 | an entry is never both added and updated, an updated record is never removed, and an entry updates one record at most |
| Reconcile.NoCreateDeletePairForCaseVariants | lib/plugins/environments.js:9-19 | with the existing names lower-case, as `find` makes them, an entry whose name differs from an existing environment's only by case neither removes that environment nor adds a new one once the constructor has lower-cased it |
| Reconcile.NoRemovalsWhenAllClaimed | lib/plugins/environments.js:331-341 | when every record is named by an entry, nothing is removed |
| Reconcile.NoEntryOperationsWhenSettled | lib/plugins/environments.js:343-365 | when no entry calls for an operation, the entries loop dispatches nothing |
| Reconcile.FindRecordUnique | lib/plugins/environments.js:344-346 | when exactly one record matches, `find` returns it |
| Reconcile.ConvergedPassIsEmpty | lib/plugins/environments.js:329-365 | once the remote holds exactly the filled entries (distinct names), a pass dispatches nothing |
| Reconcile.PassPlanAppend | lib/plugins/environments.js:329-370 | two batches of operations issue their calls one after the other, and complete when both do |
| Reconcile.PassRequestFrom | lib/plugins/environments.js:329-370 | a call of a pass comes from one of its operations, and every call of every operation is issued |
| Reconcile.EntryPlanAdd | lib/plugins/environments.js:348-355 | an entry no record matches issues exactly `add`'s calls |
| Reconcile.EntryPlanUpdate | lib/plugins/environments.js:356-363 | an entry whose record differs issues exactly `update`'s calls for that record |
| Reconcile.EntryPlanNothing | lib/plugins/environments.js:343-365 | an entry whose record agrees issues nothing and completes |
| Reconcile.AddNeverDeletesEnvironment | lib/plugins/environments.js:236-296 | `add` never deletes an environment |
| Reconcile.UpdateNeverDeletesEnvironment | lib/plugins/environments.js:128-234 | `update` never deletes an environment |
| Reconcile.DeleteEnvironmentOnlyOnRemove | lib/plugins/environments.js:298-311 | only a removal deletes an environment, and it deletes the one it names |
| Reconcile.EnvironmentDeletedIffUnnamed | lib/plugins/environments.js:331-341 | over a whole pass, an existing environment is deleted exactly when no entry has its name |
| Reconcile.CatchOutcome | lib/plugins/environments.js:371-383 | a failed fetch in dry-run mode settles with no command on a 404 and exactly one `'ERROR'` command otherwise; in live mode it is logged |
| Reconcile.DryRunResultAsWritten | lib/plugins/environments.js:367-368 | the dry-run result as written describes no call |
| Reconcile.DryRunResultAsWrittenLosesCalls | lib/plugins/environments.js:343-368 | for one new entry and no records, the pass issues one call but the result as written describes none |
| Reconcile.DryRunResult | lib/plugins/environments.js:367-368 | the corrected dry-run result has one normal command per call, describing exactly the pass's calls in order |
| Reconcile.PassOutcome | lib/plugins/environments.js:367-370 | dry-run passes settle with commands describing the pass's calls. Live passes settle exactly when every operation completed, and otherwise the TypeError is logged |
| EnvironmentsPlugin.LowerNames | lib/plugins/environments.js:11-17 | the loop lower-cases the entry as `LowerEntry` does |
| EnvironmentsPlugin.Environments.constructor | lib/plugins/environments.js:6-20 | the entries are stored lower-cased, every name in them is lower-case, and nothing has been issued |
| EnvironmentsPlugin.Environments.DryRunLog | lib/plugins/environments.js:22-31 | in dry-run mode, the command log is the dry-run commands of all calls made, in order |
| EnvironmentsPlugin.Environments.RemoteLog | lib/plugins/environments.js:22-31 | in live mode, the remote saw exactly the calls made, in order |
| EnvironmentsPlugin.Environments.NopifyRequest | lib/plugins/environments.js:22-31 | live: the call is appended to the remote and nothing is returned. Dry run: the remote is untouched and exactly one command for the call is returned and logged |
| EnvironmentsPlugin.Environments.Remove | lib/plugins/environments.js:298-311 | issues exactly `remove`'s plan |
| EnvironmentsPlugin.Environments.IssueEach | lib/plugins/environments.js:155-160 | a `for ... of` loop issues one call per element, in order |
| EnvironmentsPlugin.Environments.ReplacePoliciesStep | lib/plugins/environments.js:152-169 | issues exactly the branch-policy replacement, stopping after the deletes when the desired policies are the flag `true` |
| EnvironmentsPlugin.Environments.UpsertVariable | lib/plugins/environments.js:175-196 | one loop turn issues that variable's upsert and removes its name from `existingVariables` |
| EnvironmentsPlugin.Environments.UpsertVariables | lib/plugins/environments.js:172-197 | the loop issues the upserts in desired order and leaves in `existingVariables` exactly the existing variables that are not desired |
| EnvironmentsPlugin.Environments.VariablesStep | lib/plugins/environments.js:171-207 | issues exactly the variable reconciliation's calls |
| EnvironmentsPlugin.Environments.PostNewRules | lib/plugins/environments.js:210-223 | issues exactly the POSTs of desired rules with unknown ids |
| EnvironmentsPlugin.Environments.RulesStep | lib/plugins/environments.js:209-233 | issues exactly the rule reconciliation's calls |
| EnvironmentsPlugin.Environments.Update | lib/plugins/environments.js:128-234 | issues exactly `update`'s plan, and reports whether it ran to its end |
| EnvironmentsPlugin.Environments.Add | lib/plugins/environments.js:236-296 | issues exactly `add`'s plan, and reports whether it ran to its end |
| EnvironmentsPlugin.Environments.RemoveIfUnnamed | lib/plugins/environments.js:331-340 | removes the record exactly when no entry names it |
| EnvironmentsPlugin.Environments.RemoveUnnamed | lib/plugins/environments.js:331-341 | issues exactly the removals of the pass, which always complete |
| EnvironmentsPlugin.Environments.DispatchEntry | lib/plugins/environments.js:343-364 | issues exactly the add, the update or nothing that the entry calls for |
| EnvironmentsPlugin.Environments.DispatchEntries | lib/plugins/environments.js:343-365 | issues exactly the adds and updates of the pass, in entry order |
| EnvironmentsPlugin.Environments.Sync | lib/plugins/environments.js:313-385 | a failed fetch issues nothing and settles as the catch block says. A successful fetch issues exactly the pass's calls and settles as `PassOutcome` says |

## Findings

| source | as written | input that shows it | evidently intended | confidence | as-written member | corrected member |
|---|---|---|---|---|---|---|
| lib/plugins/environments.js:349-368 | in dry-run mode `sync` returns `resArray` before any `remove`, `add` or `update` has settled, and those operations resolve to `undefined`, so the returned array holds no command | no existing environments and one entry named `production`: the pass issues one PUT, and the dry-run result describes no call | the dry-run result lists one command per call the live path would make, in order | not executed | Reconcile.DryRunResultAsWritten, Reconcile.DryRunResultAsWrittenLosesCalls | Reconcile.DryRunResult |

`Reconcile.PassOutcome` and `EnvironmentsPlugin.Environments.Sync` use the corrected result.

## Behaviour worth noting

- A 404 on the fetch in dry-run mode settles with no command and dispatches nothing. The
  code does not go on to classify the entries against an empty set of records.
- The comparison of variables is sensitive to their order. The comparator `x1.name - x2.name`
  is NaN for strings, so the sort leaves the lists as they are.

## Left out

- The GET requests of `find` and of `update` (lines 34-70 and 153) are not performed. Their
  results are inputs: `Fetch` for `find`, and `branchPolicies` for the policies `update` reads.
  `Records.Normalize` maps one fetched environment.
- The operations of a pass run one after the other in the model. The source starts them
  together and awaits them with `Promise.all`. Across environments their calls may interleave
  on the remote. Within one operation the order is the one modelled.
- The failure of a mutating call is not modelled; every call succeeds. The only early stop
  is the TypeError of iterating the flag `true` as a list of branch policies.
- In dry-run mode, a TypeError raised by an operation is an unhandled rejection in the
  source. The model only reports the commands issued.
- `toLowerCase` is modelled on the ASCII letters only.
- The engine's sort is modelled as a stable insertion sort. Comparators that yield NaN are
  modelled as leaving the order unchanged.
- `JSON.stringify` comparisons are modelled as structural equality of the values, in the
  order the code leaves them.
- Records.BranchPolicy: both `protected_branches` and `custom_branch_policies` are required
  fields. A desired `deployment_branch_policy` object that omits one of them is not modelled.
  In the source the omitted key compares as `undefined` (lines 111-113), so such a policy is
  reported changed on every pass. The PUT then sends `custom_branch_policies: false` for an
  omitted policy list (line 145) and no `protected_branches` for an omitted flag (line 144).
- Custom branch policies given as bare strings (`update` posts `name: policy`) are not
  modelled. Policies are the `{name}` objects that `find` produces.
- Requests.ErrorCommand: the description does not embed the `JSON.stringify` rendering of the
  repository and the entries, and the live-mode `logError` text is only the message.
- The internals of `NopCommand` (lib/nopcommand), of the `Diffable` base class and of
  `filterEntries` are not part of this model. `filterEntries` is taken to return the entries
  unchanged.
- The deletion of null and undefined keys at lines 319-326 is modelled only as an absent
  optional field.
- `sync` without entries (`this.entries` undefined, line 315) is not modelled. The entries are
  always a list.
- `EnvironmentsPlugin.Environments.Sync` returns the corrected dry-run result described under
  "## Findings", not the empty array the source returns.
- The ghost field `calls` and the field `dryRun` are devices for stating the contracts. The
  source keeps no such logs.
