/** The plugin object of lib/plugins/environments.js: its repository, its dry-run switch, its
    lower-cased entries, and the calls it makes through `nopifyRequest`. The remote is an
    append-only log of the calls performed; the dry-run commands the choke point produces are
    kept in a second log; the ghost `calls` records every call that reached the choke point.
    Each operation is proved to send exactly the plan the `Plans` and `Reconcile` modules
    compute through the choke point. */
module EnvironmentsPlugin {
  import opened Seqs
  import opened Names
  import opened Requests
  import opened Records
  import opened Changes
  import opened Plans
  import opened Reconcile

  /** One environment's lower-casing (lines 11-17): its name, then each of its variables' names. */
  method LowerNames(e: Entry) returns (r: Entry)
    ensures r == LowerEntry(e)
  {
    r := e.(name := Lower(e.name));
    if e.variables.Some? {
      var vs := e.variables.value;
      var lowered: seq<Variable> := [];
      var i := 0;
      while i < |vs|
        invariant 0 <= i <= |vs|
        invariant |lowered| == i
        invariant forall k :: 0 <= k < i ==> lowered[k] == Variable(Lower(vs[k].name), vs[k].value)
      {
        lowered := lowered + [Variable(Lower(vs[i].name), vs[i].value)];
        i := i + 1;
      }
      assert lowered == LowerVariables(vs);
      r := r.(variables := Some(lowered));
    }
  }

  /** The outcome of `find`: the normalized records, or the failure that rejected it. */
  datatype Fetch = Fetched(records: seq<Settings>) | FetchFailed(failure: Failure)

  class Environments {
    /** `this.repo`. */
    const repo: Repo
    /** `this.nop`: dry-run mode. */
    const nop: bool
    /** `this.entries`, lower-cased by the constructor and never reassigned. */
    const entries: seq<Entry>
    /** The calls performed against the remote, in order. */
    var remote: seq<Request>
    /** The commands `nopifyRequest` produced in dry-run mode, in order. */
    var dryRun: seq<NopCommand>
    /** Every call that went through `nopifyRequest`, in order. */
    ghost var calls: seq<Request>

    /** The choke point is the only way to the remote: in live mode the remote saw exactly the
        calls, in dry-run mode it saw nothing and each call became one dry-run command, in order. */
    ghost predicate Valid()
      reads this
    {
      && |remote| == (if nop then 0 else |calls|)
      && (forall i :: 0 <= i < |remote| ==> remote[i] == calls[i])
      && |dryRun| == (if nop then |calls| else 0)
      && forall i :: 0 <= i < |dryRun| ==> dryRun[i] == DryRunCommand(repo, calls[i])
    }

    /** In dry-run mode the log holds the dry-run commands of all the calls. */
    lemma DryRunLog()
      requires Valid() && nop
      ensures dryRun == DryRunCommands(repo, calls)
    {
      DryRunCommandsOf(repo, calls, dryRun);
    }

    /** In live mode the remote saw exactly the calls. */
    lemma RemoteLog()
      requires Valid() && !nop
      ensures remote == calls
    {
    }

    /** The constructor (lines 6-20): every entry name and every variable name is lower-cased,
        and nothing has been issued yet. */
    constructor(repo: Repo, nop: bool, entries: seq<Entry>)
      ensures Valid()
      ensures this.repo == repo && this.nop == nop
      ensures this.entries == Each(entries, LowerEntry)
      ensures forall i :: 0 <= i < |this.entries| ==> EntryLowered(this.entries[i])
      ensures calls == [] && remote == [] && dryRun == []
    {
      var lowered: seq<Entry> := [];
      var i := 0;
      while i < |entries|
        invariant 0 <= i <= |entries|
        invariant |lowered| == i
        invariant forall k :: 0 <= k < i ==> lowered[k] == LowerEntry(entries[k])
      {
        var e := LowerNames(entries[i]);
        lowered := lowered + [e];
        i := i + 1;
      }
      this.repo := repo;
      this.nop := nop;
      this.entries := lowered;
      remote := [];
      dryRun := [];
      calls := [];
    }

    /** `nopifyRequest` (lines 22-31): in live mode the call is performed and nothing is
        returned; in dry-run mode nothing is performed and exactly one command is returned. */
    method NopifyRequest(req: Request) returns (result: seq<NopCommand>)
      requires Valid()
      modifies `remote, `dryRun, `calls
      ensures Valid()
      ensures calls == old(calls) + [req]
      ensures remote == old(remote) + (if nop then [] else [req])
      ensures dryRun == old(dryRun) + result
      ensures result == (if nop then [DryRunCommand(repo, req)] else [])
    {
      calls := calls + [req];
      if !nop {
        remote := remote + [req];
        result := [];
      } else {
        result := [DryRunCommand(repo, req)];
        dryRun := dryRun + result;
      }
    }

    /** `remove(existing)` (lines 298-311). */
    method Remove(existing: Settings) returns (completed: bool)
      requires Valid()
      modifies `remote, `dryRun, `calls
      ensures Valid()
      ensures completed == RemovePlan(repo, existing).completed
      ensures calls == old(calls) + RemovePlan(repo, existing).requests
    {
      var _ := NopifyRequest(DeleteEnvironmentRequest(BaseParams(repo, existing.name)));
      completed := true;
    }

    /** A `for ... of` loop that makes one call per element of `xs`, in order: the policy
        deletes and posts of `update` and `add` (lines 155-168, 260-267), the variable deletes of
        `update` (lines 196-206), its rule deletes (lines 223-232) and the variable and rule
        posts of `add` (lines 271-294). */
    method IssueEach<X>(xs: seq<X>, call: X -> Request)
      requires Valid()
      modifies `remote, `dryRun, `calls
      ensures Valid()
      ensures calls == old(calls) + Each(xs, call)
    {
      ghost var c0 := calls;
      var i := 0;
      while i < |xs|
        invariant 0 <= i <= |xs|
        invariant Valid()
        invariant calls == c0 + Each(xs[..i], call)
      {
        assert xs[..i + 1][..i] == xs[..i];
        var _ := NopifyRequest(call(xs[i]));
        i := i + 1;
      }
      assert xs[..i] == xs;
    }

    /** The branch-policy replacement of `update` (lines 152-169): delete each fetched policy,
        then post each desired one; iterating the flag `true` throws after the deletes. */
    method ReplacePoliciesStep(base: Params, fetched: seq<PolicyRecord>, custom: CustomPolicies)
      returns (completed: bool)
      requires Valid()
      modifies `remote, `dryRun, `calls
      ensures Valid()
      ensures completed == ReplacePolicies(base, fetched, custom).completed
      ensures calls == old(calls) + ReplacePolicies(base, fetched, custom).requests
    {
      ghost var c0 := calls;
      IssueEach(fetched, DeletePolicyOf(base));
      match custom {
        case Flag(_) =>
          completed := false;
        case Patterns(items) =>
          IssueEach(items, UpdatePolicyPostOf(base));
          Associate(c0, PolicyDeletes(base, fetched), UpdatePolicyPosts(base, items));
          completed := true;
      }
    }

    /** One turn of the first loop of the variable reconciliation of `update` (lines 175-195):
        `existingVariables` holds the existing variables whose names no earlier desired variable
        claimed; a match loses its name and is patched when its value differs, and a new name
        is posted. */
    method UpsertVariable(base: Params, existingVariables: seq<Variable>, variable: Variable,
                          ghost existing: seq<Variable>, ghost claimed: set<string>)
      returns (remaining: seq<Variable>)
      requires Valid()
      requires existingVariables == Unclaimed(existing, claimed)
      modifies `remote, `dryRun, `calls
      ensures Valid()
      ensures remaining == Unclaimed(existing, claimed + {variable.name})
      ensures calls == old(calls) + VariableUpsert(base, existing, claimed, variable)
    {
      FindUnclaimed(existing, claimed, variable.name);
      var existingVariable := FindVariable(existingVariables, variable.name);
      if existingVariable.Some? {
        UnclaimedFilter(existing, claimed, variable.name);
        remaining := Unclaimed(existingVariables, {variable.name});
        if existingVariable.value.value != variable.value {
          var _ := NopifyRequest(PatchVariableRequest(base, variable));
        } else {
          NothingAppended(calls);
        }
      } else {
        UnclaimedAbsent(existing, claimed, variable.name);
        remaining := existingVariables;
        var _ := NopifyRequest(PostVariableRequest(base, variable));
      }
    }

    /** The first loop of the variable reconciliation of `update` (lines 171-195):
        `existingVariables` starts as a copy of the existing variables and loses every name a
        desired variable claims; what is left is returned. */
    method UpsertVariables(base: Params, existing: seq<Variable>, desired: seq<Variable>)
      returns (existingVariables: seq<Variable>)
      requires Valid()
      modifies `remote, `dryRun, `calls
      ensures Valid()
      ensures existingVariables == Unclaimed(existing, VariableNames(desired))
      ensures calls == old(calls) + VariableUpserts(base, existing, desired)
    {
      ghost var c0 := calls;
      existingVariables := existing;
      var i := 0;
      assert VariableNames(desired[..0]) == {};
      UnclaimedNothing(existing);
      while i < |desired|
        invariant 0 <= i <= |desired|
        invariant Valid()
        invariant existingVariables == Unclaimed(existing, VariableNames(desired[..i]))
        invariant calls == c0 + VariableUpserts(base, existing, desired[..i])
      {
        ghost var claimed := VariableNames(desired[..i]);
        ghost var done := VariableUpserts(base, existing, desired[..i]);
        VariableUpsertsSnoc(base, existing, desired, i);
        existingVariables := UpsertVariable(base, existingVariables, desired[i], existing, claimed);
        Associate(c0, done, VariableUpsert(base, existing, claimed, desired[i]));
        i := i + 1;
      }
      assert desired[..i] == desired;
    }

    /** The variable reconciliation of `update` (lines 171-207): the upserts, then a delete for
        every variable no desired variable claimed. */
    method VariablesStep(base: Params, existing: seq<Variable>, desired: seq<Variable>)
      requires Valid()
      modifies `remote, `dryRun, `calls
      ensures Valid()
      ensures calls == old(calls) + VariableRequests(base, existing, desired)
    {
      ghost var c0 := calls;
      var existingVariables := UpsertVariables(base, existing, desired);
      IssueEach(existingVariables, DeleteVariableOf(base));
      Associate(c0, VariableUpserts(base, existing, desired), VariableDeletes(base, existing, desired));
    }

    /** The first loop of the protection-rule handling of `update` (lines 210-222): post each
        desired rule whose `id` no existing rule has. */
    method PostNewRules(base: Params, existing: seq<ProtectionRule>, desired: seq<ProtectionRule>)
      requires Valid()
      modifies `remote, `dryRun, `calls
      ensures Valid()
      ensures calls == old(calls) + RulePosts(base, existing, desired)
    {
      ghost var c0 := calls;
      var i := 0;
      while i < |desired|
        invariant 0 <= i <= |desired|
        invariant Valid()
        invariant calls == c0 + RulePosts(base, existing, desired[..i])
      {
        var rule := desired[i];
        assert desired[..i + 1][..i] == desired[..i];
        if !HasRuleId(existing, rule.id) {
          var _ := NopifyRequest(PostRuleRequest(base, rule.appId));
        }
        Associate(c0, RulePosts(base, existing, desired[..i]),
                  if HasRuleId(existing, rule.id) then [] else [PostRuleRequest(base, rule.appId)]);
        i := i + 1;
      }
      assert desired[..i] == desired;
    }

    /** The protection-rule handling of `update` (lines 209-233): the posts of new rules, then a
        delete for every existing rule. */
    method RulesStep(base: Params, existing: seq<ProtectionRule>, desired: seq<ProtectionRule>)
      requires Valid()
      modifies `remote, `dryRun, `calls
      ensures Valid()
      ensures calls == old(calls) + RuleRequests(base, existing, desired)
    {
      ghost var c0 := calls;
      PostNewRules(base, existing, desired);
      IssueEach(existing, DeleteRuleOf(base));
      Associate(c0, RulePosts(base, existing, desired), RuleDeletes(base, existing));
    }

    /** `update(existing, attrs)` (lines 128-234), with the branch policies the GET of line 153
        returns passed in as `fetched`. It reports whether it ran to its end. */
    method Update(existing: Settings, attrs: Entry, fetched: seq<PolicyRecord>) returns (completed: bool)
      requires Valid()
      modifies `remote, `dryRun, `calls
      ensures Valid()
      ensures completed == UpdatePlan(repo, existing, attrs, fetched).completed
      ensures calls == old(calls) + UpdatePlan(repo, existing, attrs, fetched).requests
    {
      ghost var c0 := calls;
      var c := GetChanged(existing, attrs);
      var desired := Fill(attrs);
      var base := BaseParams(repo, desired.name);
      ghost var settings: seq<Request> := [];
      if c.Settings() {
        var _ := NopifyRequest(UpdateSettingsRequest(base, desired));
        settings := [UpdateSettingsRequest(base, desired)];
      } else {
        NothingAppended(c0);
      }
      ghost var c1 := calls;
      ghost var policies := UpdatePolicySteps(base, fetched, c, desired);
      completed := true;
      if ReplacesPolicies(c, desired) {
        completed := ReplacePoliciesStep(base, fetched, desired.branchPolicy.value.custom);
      } else {
        NothingAppended(c1);
      }
      assert calls == c1 + policies.requests;
      if !completed {
        NothingAppended(settings + policies.requests);
        Associate(c0, settings, policies.requests);
        return;
      }
      ghost var c2 := calls;
      ghost var variables: seq<Request> := [];
      if c.variables {
        VariablesStep(base, existing.variables, desired.variables);
        variables := VariableRequests(base, existing.variables, desired.variables);
      } else {
        NothingAppended(c2);
      }
      ghost var c3 := calls;
      ghost var rules: seq<Request> := [];
      if c.protectionRules {
        RulesStep(base, existing.protectionRules, desired.protectionRules);
        rules := RuleRequests(base, existing.protectionRules, desired.protectionRules);
      } else {
        NothingAppended(c3);
      }
      Concat4(c0, settings, policies.requests, variables, rules);
    }

    /** `add(attrs)` (lines 236-296). `add` fills no defaults: absent fields are left out of the
        PUT and absent lists are skipped. It reports whether it ran to its end. */
    method Add(attrs: Entry) returns (completed: bool)
      requires Valid()
      modifies `remote, `dryRun, `calls
      ensures Valid()
      ensures completed == AddPlan(repo, attrs).completed
      ensures calls == old(calls) + AddPlan(repo, attrs).requests
    {
      ghost var c0 := calls;
      var base := BaseParams(repo, attrs.name);
      var _ := NopifyRequest(AddSettingsRequest(base, attrs));
      ghost var put := [AddSettingsRequest(base, attrs)];
      ghost var c1 := calls;
      ghost var policies: Plan := Plan([], true);
      if attrs.branchPolicy.Some? && attrs.branchPolicy.value.custom.Truthy() {
        match attrs.branchPolicy.value.custom {
          case Flag(_) =>
            NothingAppended(put);
            return false;
          case Patterns(items) =>
            IssueEach(items, AddPolicyPostOf(base));
            policies := AddPolicies(base, attrs.branchPolicy.value.custom);
        }
      } else {
        NothingAppended(c1);
      }
      ghost var c2 := calls;
      ghost var variables: seq<Request> := [];
      if attrs.variables.Some? {
        IssueEach(attrs.variables.value, PostVariableOf(base));
        variables := AddVariablePosts(base, attrs.variables.value);
      } else {
        NothingAppended(c2);
      }
      ghost var c3 := calls;
      ghost var rules: seq<Request> := [];
      if attrs.protectionRules.Some? {
        IssueEach(attrs.protectionRules.value, PostRuleOf(base));
        rules := AddRulePosts(base, attrs.protectionRules.value);
      } else {
        NothingAppended(c3);
      }
      Concat4(c0, put, policies.requests, variables, rules);
      completed := true;
    }

    /** The callback of the removals loop of `sync` for one record (lines 332-340): remove it
        when no entry names it. */
    method RemoveIfUnnamed(x: Settings, filteredEntries: seq<Entry>)
      requires Valid()
      modifies `remote, `dryRun, `calls
      ensures Valid()
      ensures calls == old(calls) + (if Claimed(filteredEntries, x) then [] else RemovePlan(repo, x).requests)
    {
      if !Claimed(filteredEntries, x) {
        var _ := Remove(x);
      } else {
        NothingAppended(calls);
      }
    }

    /** The removals of `sync` (lines 331-341): every record no entry names is removed, in the
        order of the records. A removal always runs to its end. */
    method RemoveUnnamed(records: seq<Settings>, filteredEntries: seq<Entry>, branchPolicies: string -> seq<PolicyRecord>)
      requires Valid()
      modifies `remote, `dryRun, `calls
      ensures Valid()
      ensures PassPlan(repo, Removals(records, filteredEntries), branchPolicies).completed
      ensures calls == old(calls) + PassPlan(repo, Removals(records, filteredEntries), branchPolicies).requests
    {
      ghost var c0 := calls;
      var i := 0;
      NothingAppended(c0);
      while i < |records|
        invariant 0 <= i <= |records|
        invariant Valid()
        invariant calls == c0 + PassPlan(repo, Removals(records[..i], filteredEntries), branchPolicies).requests
        invariant PassPlan(repo, Removals(records[..i], filteredEntries), branchPolicies).completed
      {
        ghost var done := PassPlan(repo, Removals(records[..i], filteredEntries), branchPolicies).requests;
        RemovalsPassSnoc(repo, records, filteredEntries, i, branchPolicies);
        RemoveIfUnnamed(records[i], filteredEntries);
        Associate(c0, done, if Claimed(filteredEntries, records[i]) then [] else RemovePlan(repo, records[i]).requests);
        i := i + 1;
      }
      assert records[..i] == records;
    }

    /** The callback of the entries loop of `sync` for one entry (lines 344-364): add it when no
        record names it, update the record when `changed` says so, and nothing otherwise. */
    method DispatchEntry(records: seq<Settings>, attrs: Entry, branchPolicies: string -> seq<PolicyRecord>)
      returns (completed: bool)
      requires Valid()
      modifies `remote, `dryRun, `calls
      ensures Valid()
      ensures completed == EntryPlan(repo, records, attrs, branchPolicies).completed
      ensures calls == old(calls) + EntryPlan(repo, records, attrs, branchPolicies).requests
    {
      var existing := FindRecord(records, attrs);
      if existing.None? {
        EntryPlanAdd(repo, records, attrs, branchPolicies);
        completed := Add(attrs);
      } else if Changed(existing.value, attrs) {
        EntryPlanUpdate(repo, records, attrs, branchPolicies);
        completed := Update(existing.value, attrs, branchPolicies(attrs.name));
      } else {
        EntryPlanNothing(repo, records, attrs, branchPolicies);
        NothingAppended(calls);
        completed := true;
      }
    }

    /** The entries loop of `sync` (lines 343-365): an entry no record names is added, one whose
        record differs is updated, the rest are left alone. */
    method DispatchEntries(records: seq<Settings>, filteredEntries: seq<Entry>, branchPolicies: string -> seq<PolicyRecord>)
      returns (completed: bool)
      requires Valid()
      modifies `remote, `dryRun, `calls
      ensures Valid()
      ensures completed == PassPlan(repo, EntryOperations(records, filteredEntries), branchPolicies).completed
      ensures calls == old(calls) + PassPlan(repo, EntryOperations(records, filteredEntries), branchPolicies).requests
    {
      ghost var c0 := calls;
      completed := true;
      var j := 0;
      while j < |filteredEntries|
        invariant 0 <= j <= |filteredEntries|
        invariant Valid()
        invariant calls == c0 + PassPlan(repo, EntryOperations(records, filteredEntries[..j]), branchPolicies).requests
        invariant completed == PassPlan(repo, EntryOperations(records, filteredEntries[..j]), branchPolicies).completed
      {
        ghost var done := PassPlan(repo, EntryOperations(records, filteredEntries[..j]), branchPolicies).requests;
        EntriesPassSnoc(repo, records, filteredEntries, j, branchPolicies);
        var c := DispatchEntry(records, filteredEntries[j], branchPolicies);
        Associate(c0, done, EntryPlan(repo, records, filteredEntries[j], branchPolicies).requests);
        completed := completed && c;
        j := j + 1;
      }
      assert filteredEntries[..j] == filteredEntries;
    }

    /** `sync()` (lines 313-385) for one pass: the records `find` produced (or its failure), and
        the branch policies of each environment `update` would fetch. Removals are dispatched
        first, in the order of the records, then one add or update per entry that needs one;
        the operations run one after the other. */
    method Sync(fetch: Fetch, branchPolicies: string -> seq<PolicyRecord>) returns (outcome: SyncOutcome)
      requires Valid()
      modifies `remote, `dryRun, `calls
      ensures Valid()
      ensures fetch.FetchFailed? ==>
                calls == old(calls) && outcome == CatchOutcome(nop, repo, fetch.failure)
      ensures fetch.Fetched? ==>
                var pass := PassPlan(repo, Classify(fetch.records, entries), branchPolicies);
                calls == old(calls) + pass.requests && outcome == PassOutcome(nop, repo, pass)
    {
      match fetch {
        case FetchFailed(e) =>
          outcome := CatchOutcome(nop, repo, e);
        case Fetched(records) =>
          var filteredEntries := entries;
          ghost var c0 := calls;
          if nop {
            DryRunLog();
          }
          var start := |dryRun|;
          RemoveUnnamed(records, filteredEntries, branchPolicies);
          var dispatched := DispatchEntries(records, filteredEntries, branchPolicies);
          ghost var removals := PassPlan(repo, Removals(records, filteredEntries), branchPolicies);
          ghost var changes := PassPlan(repo, EntryOperations(records, filteredEntries), branchPolicies);
          ghost var pass := PassPlan(repo, Classify(records, filteredEntries), branchPolicies);
          PassPlanAppend(repo, Removals(records, filteredEntries), EntryOperations(records, filteredEntries), branchPolicies);
          Associate(c0, removals.requests, changes.requests);
          assert calls == c0 + pass.requests;
          if nop {
            DryRunLog();
            DryRunSince(repo, c0, pass.requests);
            outcome := Resolved(dryRun[start..]);
          } else if dispatched {
            outcome := Settled;
          } else {
            outcome := Logged("Error " + NotIterable + " in " + PluginName);
          }
      }
    }
  }

  lemma NothingAppended<T>(a: seq<T>)
    ensures a + [] == a
  {
  }

  /** Concatenation regrouped. */
  lemma Associate<T>(a: seq<T>, b: seq<T>, c: seq<T>)
    ensures a + b + c == a + (b + c)
  {
  }

  /** The four parts of a plan after what came before it. */
  lemma Concat4<T>(a: seq<T>, p: seq<T>, q: seq<T>, v: seq<T>, w: seq<T>)
    ensures a + p + q + v + w == a + (p + q + (v + w))
  {
  }

  /** The dry-run commands after `c0` are those of the calls made since. */
  lemma DryRunSince(repo: Repo, c0: seq<Request>, reqs: seq<Request>)
    ensures |DryRunCommands(repo, c0)| <= |DryRunCommands(repo, c0 + reqs)|
    ensures DryRunCommands(repo, c0 + reqs)[|DryRunCommands(repo, c0)|..] == DryRunCommands(repo, reqs)
  {
    DryRunCommandsAppend(repo, c0, reqs);
  }

  /** A log with one dry-run command per call, index by index, is the dry-run commands of the calls. */
  lemma {:induction false} DryRunCommandsOf(repo: Repo, reqs: seq<Request>, log: seq<NopCommand>)
    requires |log| == |reqs|
    requires forall i :: 0 <= i < |log| ==> log[i] == DryRunCommand(repo, reqs[i])
    ensures log == DryRunCommands(repo, reqs)
  {
    if reqs != [] {
      var k := |reqs| - 1;
      DryRunCommandsOf(repo, reqs[..k], log[..k]);
      assert log == log[..k] + [log[k]];
    }
  }
}
