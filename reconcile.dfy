/** The classification `sync` makes (lib/plugins/environments.js:313-385): which existing
    environments to remove, which entries to add, which to update, and what a pass issues as
    a whole, together with the outcome of a pass whose fetch failed. */
module Reconcile {
  import opened Seqs
  import opened Names
  import opened Requests
  import opened Records
  import opened Changes
  import opened Plans

  /** `comparator(existing, attrs)` (lines 79-81): an existing record and an entry are the same
      environment when their (already lower-cased) names are equal. */
  predicate Matches(record: Settings, attrs: Entry)
  {
    record.name == attrs.name
  }

  /** One operation `sync` dispatches. */
  datatype Operation =
    | RemoveOp(record: Settings)
    | AddOp(attrs: Entry)
    | UpdateOp(record: Settings, attrs: Entry)

  /** `existingRecords.find(record => this.comparator(record, attrs))`: the first match. */
  function FindRecord(records: seq<Settings>, attrs: Entry): (r: Option<Settings>)
    ensures r.Some? ==> r.value in records && Matches(r.value, attrs)
    ensures r.None? <==> forall x :: x in records ==> !Matches(x, attrs)
    ensures r.Some? ==> exists i :: 0 <= i < |records| && records[i] == r.value
                                     && forall j :: 0 <= j < i ==> !Matches(records[j], attrs)
  {
    if records == [] then None
    else if Matches(records[0], attrs) then Some(records[0])
    else FindRecord(records[1..], attrs)
  }

  /** `filteredEntries.find(y => this.comparator(x, y))` finds an entry: some entry names `record`. */
  predicate Claimed(entries: seq<Entry>, record: Settings)
  {
    exists e :: e in entries && Matches(record, e)
  }

  /** The removals of the first loop (lines 331-341): one per existing record that no entry
      names, in the order of the records. */
  function Removals(records: seq<Settings>, entries: seq<Entry>): (ops: seq<Operation>)
    ensures |ops| <= |records|
  {
    if records == [] then []
    else
      var k := |records| - 1;
      Removals(records[..k], entries) + (if Claimed(entries, records[k]) then [] else [RemoveOp(records[k])])
  }

  /** What the second loop does for one entry (lines 344-364): add it when no record matches,
      update the matching record when `changed` says so, and nothing otherwise. */
  function EntryOperation(records: seq<Settings>, attrs: Entry): seq<Operation>
  {
    match FindRecord(records, attrs)
    case None => [AddOp(attrs)]
    case Some(x) => if Changed(x, attrs) then [UpdateOp(x, attrs)] else []
  }

  /** The operations of the second loop, in the order of the entries: at most one per entry. */
  function EntryOperations(records: seq<Settings>, entries: seq<Entry>): (ops: seq<Operation>)
  {
    Flatten(Each(entries, (e: Entry) => EntryOperation(records, e)))
  }

  /** The second loop adds at most one operation per entry. */
  lemma {:induction false} EntryOperationsSize(records: seq<Settings>, entries: seq<Entry>)
    ensures |EntryOperations(records, entries)| <= |entries|
  {
    if entries != [] {
      var k := |entries| - 1;
      EntryOperationsSize(records, entries[..k]);
      assert EntryOperations(records, entries)
             == EntryOperations(records, entries[..k]) + EntryOperation(records, entries[k]);
    }
  }

  /** Every operation of one pass, in dispatch order: removals first, then adds and updates. */
  function Classify(records: seq<Settings>, entries: seq<Entry>): (ops: seq<Operation>)
    ensures |ops| <= |records| + |entries|
  {
    EntryOperationsSize(records, entries);
    Removals(records, entries) + EntryOperations(records, entries)
  }

  lemma {:induction false} RemovalsExact(records: seq<Settings>, entries: seq<Entry>, op: Operation)
    ensures op in Removals(records, entries) <==> op.RemoveOp? && op.record in records && !Claimed(entries, op.record)
  {
    if records != [] {
      var k := |records| - 1;
      RemovalsExact(records[..k], entries, op);
      assert records == records[..k] + [records[k]];
    }
  }

  /** An operation of one entry is an add or an update of that entry. */
  lemma EntryOperationOf(records: seq<Settings>, e: Entry, op: Operation)
    requires op in EntryOperation(records, e)
    ensures !op.RemoveOp? && op.attrs == e
  {
  }

  lemma EntryOperationsExact(records: seq<Settings>, entries: seq<Entry>, op: Operation)
    ensures op in EntryOperations(records, entries)
            <==> !op.RemoveOp? && op.attrs in entries && op in EntryOperation(records, op.attrs)
  {
    var parts := Each(entries, (e: Entry) => EntryOperation(records, e));
    FlattenMember(parts, op);
    if op in EntryOperations(records, entries) {
      var i :| 0 <= i < |parts| && op in parts[i];
      EntryOperationOf(records, entries[i], op);
    }
    if !op.RemoveOp? && op.attrs in entries && op in EntryOperation(records, op.attrs) {
      var i :| 0 <= i < |entries| && entries[i] == op.attrs;
      assert op in parts[i];
    }
  }

  /** The classification is exact: a record is removed exactly when no entry names it; an entry
      is added exactly when no record matches it; a record is updated for an entry exactly when
      it is the record `find` matches and `changed` holds. */
  lemma ClassifyExact(records: seq<Settings>, entries: seq<Entry>, x: Settings, e: Entry)
    ensures RemoveOp(x) in Classify(records, entries)
            <==> x in records && forall y :: y in entries ==> !Matches(x, y)
    ensures AddOp(e) in Classify(records, entries)
            <==> e in entries && forall y :: y in records ==> !Matches(y, e)
    ensures UpdateOp(x, e) in Classify(records, entries)
            <==> e in entries && FindRecord(records, e) == Some(x) && Changed(x, e)
  {
    RemovalsExact(records, entries, RemoveOp(x));
    RemovalsExact(records, entries, AddOp(e));
    RemovalsExact(records, entries, UpdateOp(x, e));
    EntryOperationsExact(records, entries, RemoveOp(x));
    EntryOperationsExact(records, entries, AddOp(e));
    EntryOperationsExact(records, entries, UpdateOp(x, e));
  }

  /** An entry is never both added and updated, and a record that is updated is not removed. */
  lemma OperationsExclusive(records: seq<Settings>, entries: seq<Entry>, x: Settings, y: Settings, e: Entry)
    ensures !(AddOp(e) in Classify(records, entries) && UpdateOp(x, e) in Classify(records, entries))
    ensures !(RemoveOp(x) in Classify(records, entries) && UpdateOp(x, e) in Classify(records, entries))
    ensures UpdateOp(x, e) in Classify(records, entries) && UpdateOp(y, e) in Classify(records, entries) ==> x == y
  {
    ClassifyExact(records, entries, x, e);
    ClassifyExact(records, entries, y, e);
  }

  /** Names that differ only by case never yield a remove and an add for the same environment:
      the constructor lower-cases the entries, `find` lower-cases the records, and the
      comparator is exact. */
  lemma NoCreateDeletePairForCaseVariants(records: seq<Settings>, raw: seq<Entry>, e: Entry, x: Settings)
    requires forall r :: r in records ==> NoUpper(r.name)
    requires e in raw && x in records && EqualIgnoringCase(e.name, x.name)
    ensures RemoveOp(x) !in Classify(records, Each(raw, LowerEntry))
    ensures AddOp(LowerEntry(e)) !in Classify(records, Each(raw, LowerEntry))
  {
    var entries := Each(raw, LowerEntry);
    var i :| 0 <= i < |raw| && raw[i] == e;
    assert entries[i] == LowerEntry(e);
    LowerEqualIff(e.name, x.name);
    LowerFixesLowerCase(x.name);
    assert Matches(x, LowerEntry(e));
    ClassifyExact(records, entries, x, LowerEntry(e));
  }

  lemma {:induction false} NoRemovalsWhenAllClaimed(records: seq<Settings>, entries: seq<Entry>)
    requires forall x :: x in records ==> Claimed(entries, x)
    ensures Removals(records, entries) == []
  {
    if records != [] {
      var k := |records| - 1;
      assert records[k] in records;
      NoRemovalsWhenAllClaimed(records[..k], entries);
    }
  }

  lemma NoEntryOperationsWhenSettled(records: seq<Settings>, entries: seq<Entry>)
    requires forall e :: e in entries ==> EntryOperation(records, e) == []
    ensures EntryOperations(records, entries) == []
  {
    var ops := EntryOperations(records, entries);
    if ops != [] {
      EntryOperationsExact(records, entries, ops[0]);
      assert false;
    }
  }

  /** When exactly one record matches, `find` returns it. */
  lemma {:induction false} FindRecordUnique(records: seq<Settings>, i: int, attrs: Entry)
    requires 0 <= i < |records| && Matches(records[i], attrs)
    requires forall j :: 0 <= j < |records| && j != i ==> !Matches(records[j], attrs)
    ensures FindRecord(records, attrs) == Some(records[i])
  {
    if i > 0 {
      FindRecordUnique(records[1..], i - 1, attrs);
    }
  }

  /** A pass converges: once the remote holds exactly the filled entries (with distinct names),
      the next pass classifies nothing. */
  lemma ConvergedPassIsEmpty(entries: seq<Entry>)
    requires forall i, j :: 0 <= i < j < |entries| ==> entries[i].name != entries[j].name
    ensures Classify(Each(entries, Fill), entries) == []
  {
    ConvergedRecordsClaimed(entries);
    NoRemovalsWhenAllClaimed(Each(entries, Fill), entries);
    ConvergedEntriesSettled(entries);
    NoEntryOperationsWhenSettled(Each(entries, Fill), entries);
  }

  lemma ConvergedRecordsClaimed(entries: seq<Entry>)
    ensures forall x :: x in Each(entries, Fill) ==> Claimed(entries, x)
  {
    var records := Each(entries, Fill);
    forall x | x in records ensures Claimed(entries, x) {
      var i :| 0 <= i < |records| && records[i] == x;
      assert entries[i] in entries && Matches(x, entries[i]);
    }
  }

  lemma ConvergedEntriesSettled(entries: seq<Entry>)
    requires forall i, j :: 0 <= i < j < |entries| ==> entries[i].name != entries[j].name
    ensures forall e :: e in entries ==> EntryOperation(Each(entries, Fill), e) == []
  {
    var records := Each(entries, Fill);
    forall e | e in entries ensures EntryOperation(records, e) == [] {
      var i :| 0 <= i < |entries| && entries[i] == e;
      FindRecordUnique(records, i, e);
      UnchangedAgainstOwnFill(e);
    }
  }

  // ---------------------------------------------------------------------------------------
  // The requests of a whole pass

  /** The requests of one operation. `branchPolicies(name)` stands for what the GET of
      line 153 returns for the environment of that name. */
  function OperationPlan(repo: Repo, op: Operation, branchPolicies: string -> seq<PolicyRecord>): Plan
  {
    match op
    case RemoveOp(x) => RemovePlan(repo, x)
    case AddOp(e) => AddPlan(repo, e)
    case UpdateOp(x, e) => UpdatePlan(repo, x, e, branchPolicies(e.name))
  }

  /** `OperationPlan` as a callback, for `Each`. */
  function PlanOf(repo: Repo, branchPolicies: string -> seq<PolicyRecord>): Operation -> Plan
  {
    op => OperationPlan(repo, op, branchPolicies)
  }

  /** Plans run one after the other; the whole completes when every part does. */
  function Chain(plans: seq<Plan>): Plan
  {
    if plans == [] then Plan([], true)
    else
      var k := |plans| - 1;
      var p := Chain(plans[..k]);
      Plan(p.requests + plans[k].requests, p.completed && plans[k].completed)
  }

  lemma {:induction false} ChainAppend(a: seq<Plan>, b: seq<Plan>)
    ensures Chain(a + b).requests == Chain(a).requests + Chain(b).requests
    ensures Chain(a + b).completed == (Chain(a).completed && Chain(b).completed)
  {
    if b == [] {
      assert a + b == a;
    } else {
      var k := |b| - 1;
      assert (a + b)[..|a + b| - 1] == a + b[..k];
      ChainAppend(a, b[..k]);
    }
  }

  lemma {:induction false} ChainRequestFrom(plans: seq<Plan>, req: Request)
    ensures req in Chain(plans).requests <==> exists i :: 0 <= i < |plans| && req in plans[i].requests
  {
    if plans != [] {
      var k := |plans| - 1;
      ChainRequestFrom(plans[..k], req);
      if req in plans[k].requests {
        assert 0 <= k < |plans| && req in plans[k].requests;
      }
      if exists i :: 0 <= i < |plans| && req in plans[i].requests {
        var i :| 0 <= i < |plans| && req in plans[i].requests;
        if i < k {
          assert plans[..k][i] == plans[i];
        }
      }
    }
  }

  /** The requests of a sequence of operations, one operation after the other. */
  function PassPlan(repo: Repo, ops: seq<Operation>, branchPolicies: string -> seq<PolicyRecord>): Plan
  {
    Chain(Each(ops, PlanOf(repo, branchPolicies)))
  }

  /** Running two batches of operations one after the other issues their plans one after the other. */
  lemma PassPlanAppend(repo: Repo, a: seq<Operation>, b: seq<Operation>, branchPolicies: string -> seq<PolicyRecord>)
    ensures PassPlan(repo, a + b, branchPolicies).requests
            == PassPlan(repo, a, branchPolicies).requests + PassPlan(repo, b, branchPolicies).requests
    ensures PassPlan(repo, a + b, branchPolicies).completed
            == (PassPlan(repo, a, branchPolicies).completed && PassPlan(repo, b, branchPolicies).completed)
  {
    var f := PlanOf(repo, branchPolicies);
    EachAppend(a, b, f);
    ChainAppend(Each(a, f), Each(b, f));
  }

  /** A request of a pass comes from one of its operations, and every request of every
      operation is issued. */
  lemma PassRequestFrom(repo: Repo, ops: seq<Operation>, branchPolicies: string -> seq<PolicyRecord>, req: Request)
    ensures req in PassPlan(repo, ops, branchPolicies).requests
            <==> exists op :: op in ops && req in OperationPlan(repo, op, branchPolicies).requests
  {
    var plans := Each(ops, PlanOf(repo, branchPolicies));
    ChainRequestFrom(plans, req);
    if exists op :: op in ops && req in OperationPlan(repo, op, branchPolicies).requests {
      var op :| op in ops && req in OperationPlan(repo, op, branchPolicies).requests;
      var i :| 0 <= i < |ops| && ops[i] == op;
      assert req in plans[i].requests;
    }
  }

  /** The pass of `ops` followed by one more operation. */
  lemma PassPlanSnoc(repo: Repo, ops: seq<Operation>, op: Operation, branchPolicies: string -> seq<PolicyRecord>)
    ensures PassPlan(repo, ops + [op], branchPolicies).requests
            == PassPlan(repo, ops, branchPolicies).requests + OperationPlan(repo, op, branchPolicies).requests
    ensures PassPlan(repo, ops + [op], branchPolicies).completed
            == (PassPlan(repo, ops, branchPolicies).completed && OperationPlan(repo, op, branchPolicies).completed)
  {
    PassPlanAppend(repo, ops, [op], branchPolicies);
    var plans := Each([op], PlanOf(repo, branchPolicies));
    assert plans == [OperationPlan(repo, op, branchPolicies)];
    assert plans[..0] == [];
  }

  /** The first loop's operations after one more record. */
  lemma RemovalsSnoc(records: seq<Settings>, entries: seq<Entry>, i: int)
    requires 0 <= i < |records|
    ensures Removals(records[..i + 1], entries)
            == Removals(records[..i], entries) + (if Claimed(entries, records[i]) then [] else [RemoveOp(records[i])])
  {
    assert records[..i + 1][..i] == records[..i];
  }

  /** The second loop's operations after one more entry. */
  lemma EntryOperationsSnoc(records: seq<Settings>, entries: seq<Entry>, j: int)
    requires 0 <= j < |entries|
    ensures EntryOperations(records, entries[..j + 1])
            == EntryOperations(records, entries[..j]) + EntryOperation(records, entries[j])
  {
    var f := (e: Entry) => EntryOperation(records, e);
    var parts := Each(entries[..j + 1], f);
    assert entries[..j + 1][..j] == entries[..j];
    assert parts == Each(entries[..j], f) + [f(entries[j])];
    assert parts[..|parts| - 1] == Each(entries[..j], f);
  }
  /** The pass of the first loop after one more record: the record's removal, when no entry
      names it. */
  lemma RemovalsPassSnoc(repo: Repo, records: seq<Settings>, entries: seq<Entry>, i: int,
                         branchPolicies: string -> seq<PolicyRecord>)
    requires 0 <= i < |records|
    ensures var before := PassPlan(repo, Removals(records[..i], entries), branchPolicies);
            var after := PassPlan(repo, Removals(records[..i + 1], entries), branchPolicies);
            && after.requests == before.requests + (if Claimed(entries, records[i]) then [] else RemovePlan(repo, records[i]).requests)
            && after.completed == before.completed
  {
    RemovalsSnoc(records, entries, i);
    var ops := Removals(records[..i], entries);
    if Claimed(entries, records[i]) {
      assert ops + [] == ops;
      assert PassPlan(repo, ops, branchPolicies).requests + [] == PassPlan(repo, ops, branchPolicies).requests;
    } else {
      PassPlanSnoc(repo, ops, RemoveOp(records[i]), branchPolicies);
    }
  }

  /** What the second loop does for one entry, as a plan: the add, the update, or nothing. */
  function EntryPlan(repo: Repo, records: seq<Settings>, e: Entry, branchPolicies: string -> seq<PolicyRecord>): Plan
  {
    PassPlan(repo, EntryOperation(records, e), branchPolicies)
  }

  /** A pass of one operation is that operation's plan. */
  lemma PassPlanSingle(repo: Repo, op: Operation, branchPolicies: string -> seq<PolicyRecord>)
    ensures PassPlan(repo, [op], branchPolicies) == OperationPlan(repo, op, branchPolicies)
  {
    var p := OperationPlan(repo, op, branchPolicies);
    PassPlanSnoc(repo, [], op, branchPolicies);
    assert [] + [op] == [op];
    assert Each([], PlanOf(repo, branchPolicies)) == [];
    assert [] + p.requests == p.requests;
  }

  /** An entry no record names is added. */
  lemma EntryPlanAdd(repo: Repo, records: seq<Settings>, e: Entry, branchPolicies: string -> seq<PolicyRecord>)
    requires FindRecord(records, e).None?
    ensures EntryPlan(repo, records, e, branchPolicies) == AddPlan(repo, e)
  {
    assert EntryOperation(records, e) == [AddOp(e)];
    PassPlanSingle(repo, AddOp(e), branchPolicies);
  }

  /** An entry whose record differs updates that record. */
  lemma EntryPlanUpdate(repo: Repo, records: seq<Settings>, e: Entry, branchPolicies: string -> seq<PolicyRecord>)
    requires FindRecord(records, e).Some? && Changed(FindRecord(records, e).value, e)
    ensures EntryPlan(repo, records, e, branchPolicies) == UpdatePlan(repo, FindRecord(records, e).value, e, branchPolicies(e.name))
  {
    var x := FindRecord(records, e).value;
    assert EntryOperation(records, e) == [UpdateOp(x, e)];
    PassPlanSingle(repo, UpdateOp(x, e), branchPolicies);
  }

  /** An entry whose record agrees with it issues nothing. */
  lemma EntryPlanNothing(repo: Repo, records: seq<Settings>, e: Entry, branchPolicies: string -> seq<PolicyRecord>)
    requires FindRecord(records, e).Some? && !Changed(FindRecord(records, e).value, e)
    ensures EntryPlan(repo, records, e, branchPolicies) == Plan([], true)
  {
    assert EntryOperation(records, e) == [];
  }

  /** The pass of the second loop after one more entry. */
  lemma EntriesPassSnoc(repo: Repo, records: seq<Settings>, entries: seq<Entry>, j: int,
                        branchPolicies: string -> seq<PolicyRecord>)
    requires 0 <= j < |entries|
    ensures var before := PassPlan(repo, EntryOperations(records, entries[..j]), branchPolicies);
            var after := PassPlan(repo, EntryOperations(records, entries[..j + 1]), branchPolicies);
            var step := EntryPlan(repo, records, entries[j], branchPolicies);
            && after.requests == before.requests + step.requests
            && after.completed == (before.completed && step.completed)
  {
    EntryOperationsSnoc(records, entries, j);
    PassPlanAppend(repo, EntryOperations(records, entries[..j]), EntryOperation(records, entries[j]), branchPolicies);
  }



  /** `add` never deletes an environment. */
  lemma AddNeverDeletesEnvironment(repo: Repo, e: Entry, req: Request)
    requires req in AddPlan(repo, e).requests
    ensures req.route != DeleteEnvironment
  {
    AddStepsInOrder(repo, e);
  }

  /** `update` never deletes an environment. */
  lemma UpdateNeverDeletesEnvironment(repo: Repo, x: Settings, e: Entry, fetched: seq<PolicyRecord>, req: Request)
    requires req in UpdatePlan(repo, x, e, fetched).requests
    ensures req.route != DeleteEnvironment
  {
    UpdateStepsInOrder(repo, x, e, fetched);
  }

  /** Only a remove deletes an environment, and it deletes the environment it names. */
  lemma DeleteEnvironmentOnlyOnRemove(repo: Repo, op: Operation, branchPolicies: string -> seq<PolicyRecord>, req: Request)
    requires req in OperationPlan(repo, op, branchPolicies).requests && req.route == DeleteEnvironment
    ensures op.RemoveOp? && req == DeleteEnvironmentRequest(BaseParams(repo, op.record.name))
  {
    match op {
      case RemoveOp(x) =>
      case AddOp(e) =>
        AddNeverDeletesEnvironment(repo, e, req);
      case UpdateOp(x, e) =>
        UpdateNeverDeletesEnvironment(repo, x, e, branchPolicies(e.name), req);
    }
  }

  /** The DELETE of an environment names the environment. */
  lemma DeleteEnvironmentNames(repo: Repo, a: string, b: string)
    ensures DeleteEnvironmentRequest(BaseParams(repo, a)) == DeleteEnvironmentRequest(BaseParams(repo, b)) ==> a == b
  {
    assert BaseParams(repo, a)[2] == ("environment_name", JStr(a));
    assert BaseParams(repo, b)[2] == ("environment_name", JStr(b));
  }

  /** Over a whole pass, an existing environment is deleted exactly when no entry names it. */
  lemma EnvironmentDeletedIffUnnamed(repo: Repo, records: seq<Settings>, entries: seq<Entry>,
                                     branchPolicies: string -> seq<PolicyRecord>, x: Settings)
    requires x in records
    ensures DeleteEnvironmentRequest(BaseParams(repo, x.name)) in PassPlan(repo, Classify(records, entries), branchPolicies).requests
            <==> forall e :: e in entries ==> e.name != x.name
  {
    var ops := Classify(records, entries);
    var req := DeleteEnvironmentRequest(BaseParams(repo, x.name));
    PassRequestFrom(repo, ops, branchPolicies, req);
    ClassifyExact(records, entries, x, Entry(x.name, None, None, None, None, None, None));
    if req in PassPlan(repo, ops, branchPolicies).requests {
      var op :| op in ops && req in OperationPlan(repo, op, branchPolicies).requests;
      DeleteEnvironmentOnlyOnRemove(repo, op, branchPolicies, req);
      DeleteEnvironmentNames(repo, x.name, op.record.name);
      ClassifyExact(records, entries, op.record, Entry(x.name, None, None, None, None, None, None));
    } else {
      assert RemoveOp(x) !in ops;
    }
  }

  // ---------------------------------------------------------------------------------------
  // Outcomes of a pass

  /** A rejected request: its HTTP status when it has one, and its message. */
  datatype Failure = Failure(status: Option<int>, message: string)

  /** What `sync` settles with: the dry-run commands, a logged error (live mode, settling with
      no value), or plain settlement of the live calls. */
  datatype SyncOutcome =
    | Resolved(commands: seq<NopCommand>)
    | Logged(message: string)
    | Settled

  /** The catch block of `sync` (lines 371-383) for a fetch that failed. Nothing has been pushed
      into `resArray` yet: in dry-run mode a 404 settles with no command and any other failure
      with exactly one `'ERROR'` command; in live mode the error is logged. */
  function CatchOutcome(nop: bool, repo: Repo, e: Failure): (r: SyncOutcome)
    ensures nop <==> r.Resolved?
    ensures nop ==> Described(r.commands) == []
    ensures nop ==> (r.commands == [] <==> e.status == Some(404))
    ensures nop ==> forall c :: c in r.commands ==> c.severity == Error && c.repo == repo
  {
    if nop then
      if e.status == Some(404) then Resolved([]) else Resolved([ErrorCommand(repo, e.message)])
    else Logged("Error " + e.message + " in " + PluginName)
  }

  /** The message of the TypeError thrown when `custom_branch_policies` is the flag `true`. */
  const NotIterable: string := "TypeError: custom_branch_policies is not iterable"

  /** What a dry-run pass whose fetch succeeded settles with, as written (line 368): `resArray`
      is returned before any operation has settled, and the values the operations push into it
      later are their own results, which carry no command. */
  function DryRunResultAsWritten(pass: Plan): (r: seq<NopCommand>)
    ensures Described(r) == []
  {
    []
  }

  /** As written, a dry run that would create an environment reports no command for it. */
  lemma DryRunResultAsWrittenLosesCalls(repo: Repo, branchPolicies: string -> seq<PolicyRecord>)
    ensures var e := Entry("production", None, None, None, None, None, None);
            var pass := PassPlan(repo, Classify([], [e]), branchPolicies);
            |pass.requests| == 1 && Described(DryRunResultAsWritten(pass)) != pass.requests
  {
    var e := Entry("production", None, None, None, None, None, None);
    var parts := Each([e], (a: Entry) => EntryOperation([], a));
    assert parts == [[AddOp(e)]];
    assert Flatten(parts) == [AddOp(e)] by {
      assert parts[..0] == [];
    }
    var ops := Classify([], [e]);
    assert ops == [AddOp(e)];
    var plans := Each(ops, PlanOf(repo, branchPolicies));
    assert plans == [AddPlan(repo, e)];
    assert Chain(plans).requests == AddPlan(repo, e).requests by {
      assert plans[..0] == [];
    }
  }

  /** The dry-run result the dry-run mode exists for: one command per call the live path makes,
      describing exactly those calls in order. */
  function DryRunResult(repo: Repo, pass: Plan): (r: seq<NopCommand>)
    ensures Described(r) == pass.requests
    ensures |r| == |pass.requests|
    ensures forall c :: c in r ==> c.severity == Normal && c.repo == repo && c.plugin == PluginName
  {
    DryRunFaithful(repo, pass.requests);
    DryRunCommandsNormal(repo, pass.requests);
    DryRunCommands(repo, pass.requests)
  }

  /** What a pass whose fetch succeeded settles with: the dry-run commands; in live mode,
      settlement, or the logged TypeError when an operation stopped early. */
  function PassOutcome(nop: bool, repo: Repo, pass: Plan): (r: SyncOutcome)
    ensures nop ==> r.Resolved? && Described(r.commands) == pass.requests
    ensures !nop ==> (r == Settled <==> pass.completed)
    ensures !nop && !pass.completed ==> r.Logged?
  {
    if nop then Resolved(DryRunResult(repo, pass))
    else if pass.completed then Settled
    else Logged("Error " + NotIterable + " in " + PluginName)
  }
}
