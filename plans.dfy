/** The ordered mutating requests that `update`, `add` and `remove` issue
    (lib/plugins/environments.js:128-311), as functions of their inputs. Every such request
    goes through `nopifyRequest`, so the same plan describes the live calls and the dry-run
    commands. */
module Plans {
  import opened Seqs
  import opened Names
  import opened Requests
  import opened Records
  import opened Changes


  // ---------------------------------------------------------------------------------------
  // Request builders

  /** `baseRequestOptions`: owner, repository and environment name. */
  function BaseParams(repo: Repo, name: string): Params
  {
    [("org", JStr(repo.owner)), ("repo", JStr(repo.repo)), ("environment_name", JStr(name))]
  }

  function ReviewerJson(r: Reviewer): Json
  {
    JObj([("id", JNum(r.id)), ("type", JStr(r.kind))])
  }

  function ReviewersJson(rs: seq<Reviewer>): Json
  {
    JArr(Each(rs, ReviewerJson))
  }

  /** `deployment_branch_policy` as sent in a PUT: null, or the two flags with
      `custom_branch_policies` coerced to a boolean (`!!`). */
  function PolicyFlagsJson(bp: Option<BranchPolicy>): Json
  {
    match bp
    case None => JNull
    case Some(p) => JObj([("protected_branches", JBool(p.protectedBranches)),
                          ("custom_branch_policies", JBool(p.custom.Truthy()))])
  }

  /** A body field whose value may be `undefined`, in which case it is not sent. */
  function OptionalField(key: string, v: Option<Json>): Params
  {
    match v
    case None => []
    case Some(j) => [(key, j)]
  }

  /** The PUT of `update` (lines 138-149). `attrs` has been filled by `getChanged`, and its
      reviewers have been sorted by id in place by the comparison at line 93. */
  function UpdateSettingsRequest(base: Params, desired: Settings): Request
  {
    Request(PutEnvironment,
            base + [("wait_timer", JNum(desired.waitTimer)),
                    ("prevent_self_review", JBool(desired.preventSelfReview)),
                    ("reviewers", ReviewersJson(SortedReviewers(desired.reviewers))),
                    ("deployment_branch_policy", PolicyFlagsJson(desired.branchPolicy))],
            "Update environment settings")
  }

  /** The PUT of `add` (lines 244-255). `add` does not fill defaults, so absent fields are not sent. */
  function AddSettingsRequest(base: Params, attrs: Entry): Request
  {
    Request(PutEnvironment,
            base
            + OptionalField("wait_timer", match attrs.waitTimer case Some(t) => Some(JNum(t)) case None => None)
            + OptionalField("prevent_self_review", match attrs.preventSelfReview case Some(b) => Some(JBool(b)) case None => None)
            + OptionalField("reviewers", match attrs.reviewers case Some(rs) => Some(ReviewersJson(rs)) case None => None)
            + [("deployment_branch_policy", PolicyFlagsJson(attrs.branchPolicy))],
            "Update environment settings")
  }

  /** A branch policy as listed by the GET of line 153. */
  datatype PolicyRecord = PolicyRecord(id: int, name: string)

  function DeletePolicyRequest(base: Params, p: PolicyRecord): Request
  {
    Request(DeletePolicy, base + [("branch_policy_id", JNum(p.id))], "Delete deployment branch policy")
  }

  /** `update` posts `name: policy`, the policy object itself (line 166). */
  function UpdatePolicyPost(base: Params, p: PolicyPattern): Request
  {
    Request(PostPolicy, base + [("name", JObj([("name", JStr(p.name))]))], "Create deployment branch policy")
  }

  /** `add` posts `name: policy.name` (line 263). */
  function AddPolicyPost(base: Params, p: PolicyPattern): Request
  {
    Request(PostPolicy, base + [("name", JStr(p.name))], "Create deployment branch policy")
  }

  function PatchVariableRequest(base: Params, v: Variable): Request
  {
    Request(PatchVariable, base + [("variable_name", JStr(v.name)), ("value", JStr(v.value))], "Update environment variable")
  }

  function PostVariableRequest(base: Params, v: Variable): Request
  {
    Request(PostVariable, base + [("name", JStr(v.name)), ("value", JStr(v.value))], "Create environment variable")
  }

  function DeleteVariableRequest(base: Params, name: string): Request
  {
    Request(DeleteVariable, base + [("variable_name", JStr(name))], "Delete environment variable")
  }

  function PostRuleRequest(base: Params, appId: int): Request
  {
    Request(PostRule, base + [("integration_id", JNum(appId))], "Create deployment protection rule")
  }

  function DeleteRuleRequest(base: Params, id: Option<int>): Request
  {
    Request(DeleteRule, base + OptionalField("rule_id", match id case Some(n) => Some(JNum(n)) case None => None),
            "Delete deployment protection rule")
  }

  function DeleteEnvironmentRequest(base: Params): Request
  {
    Request(DeleteEnvironment, base, "Delete environment")
  }

  /** The variable requests name their variable: distinct variables give distinct requests,
      and a PATCH, a POST and a DELETE are never the same request. */
  lemma VariableRequestsDistinct(base: Params, v: Variable, w: Variable, name: string)
    ensures PatchVariableRequest(base, v) == PatchVariableRequest(base, w) ==> v == w
    ensures PostVariableRequest(base, v) == PostVariableRequest(base, w) ==> v == w
    ensures DeleteVariableRequest(base, v.name) == DeleteVariableRequest(base, name) ==> v.name == name
    ensures PatchVariableRequest(base, v) != PostVariableRequest(base, w)
    ensures PatchVariableRequest(base, v) != DeleteVariableRequest(base, name)
    ensures PostVariableRequest(base, v) != DeleteVariableRequest(base, name)
  {
    var n := |base|;
    if PatchVariableRequest(base, v) == PatchVariableRequest(base, w) {
      assert PatchVariableRequest(base, v).params[n] == ("variable_name", JStr(v.name));
      assert PatchVariableRequest(base, v).params[n + 1] == ("value", JStr(v.value));
      assert PatchVariableRequest(base, w).params[n] == ("variable_name", JStr(w.name));
      assert PatchVariableRequest(base, w).params[n + 1] == ("value", JStr(w.value));
    }
    if PostVariableRequest(base, v) == PostVariableRequest(base, w) {
      assert PostVariableRequest(base, v).params[n] == ("name", JStr(v.name));
      assert PostVariableRequest(base, v).params[n + 1] == ("value", JStr(v.value));
      assert PostVariableRequest(base, w).params[n] == ("name", JStr(w.name));
      assert PostVariableRequest(base, w).params[n + 1] == ("value", JStr(w.value));
    }
    if DeleteVariableRequest(base, v.name) == DeleteVariableRequest(base, name) {
      assert DeleteVariableRequest(base, v.name).params[n] == ("variable_name", JStr(v.name));
      assert DeleteVariableRequest(base, name).params[n] == ("variable_name", JStr(name));
    }
  }

  /** A rule POST names the app it installs. */
  lemma PostRuleDistinct(base: Params, a: int, b: int)
    ensures PostRuleRequest(base, a) == PostRuleRequest(base, b) ==> a == b
  {
    if PostRuleRequest(base, a) == PostRuleRequest(base, b) {
      assert PostRuleRequest(base, a).params[|base|] == ("integration_id", JNum(a));
      assert PostRuleRequest(base, b).params[|base|] == ("integration_id", JNum(b));
    }
  }

  // ---------------------------------------------------------------------------------------
  // Branch policies: delete every fetched policy, then post every desired one (lines 152-169)

  /** The call made for one element of a list that is walked with one call per element. */
  function DeletePolicyOf(base: Params): PolicyRecord -> Request
  {
    (p: PolicyRecord) => DeletePolicyRequest(base, p)
  }

  function UpdatePolicyPostOf(base: Params): PolicyPattern -> Request
  {
    (p: PolicyPattern) => UpdatePolicyPost(base, p)
  }

  function AddPolicyPostOf(base: Params): PolicyPattern -> Request
  {
    (p: PolicyPattern) => AddPolicyPost(base, p)
  }

  function PolicyDeletes(base: Params, fetched: seq<PolicyRecord>): seq<Request>
  {
    Each(fetched, DeletePolicyOf(base))
  }

  function UpdatePolicyPosts(base: Params, items: seq<PolicyPattern>): seq<Request>
  {
    Each(items, UpdatePolicyPostOf(base))
  }

  function AddPolicyPosts(base: Params, items: seq<PolicyPattern>): seq<Request>
  {
    Each(items, AddPolicyPostOf(base))
  }

  /** An ordered child list is replaced wholesale: a DELETE for each fetched policy, in the
      fetched order, then a POST for each desired policy, in the desired order. */
  lemma PolicyReplacement(base: Params, fetched: seq<PolicyRecord>, items: seq<PolicyPattern>)
    ensures var r := PolicyDeletes(base, fetched) + UpdatePolicyPosts(base, items);
            && |r| == |fetched| + |items|
            && (forall k :: 0 <= k < |fetched| ==> r[k] == DeletePolicyRequest(base, fetched[k]))
            && (forall k :: 0 <= k < |items| ==> r[|fetched| + k] == UpdatePolicyPost(base, items[k]))
  {
  }

  // ---------------------------------------------------------------------------------------
  // Variables (lines 171-207)

  function VariableNames(vs: seq<Variable>): set<string>
  {
    set v | v in vs :: v.name
  }

  /** `existingVariables.find(_var => _var.name === name)`: the first variable with that name. */
  function FindVariable(vs: seq<Variable>, name: string): (r: Option<Variable>)
    ensures r.Some? ==> r.value in vs && r.value.name == name
    ensures r.None? <==> name !in VariableNames(vs)
    ensures r.Some? ==> exists i :: 0 <= i < |vs| && vs[i] == r.value && forall j :: 0 <= j < i ==> vs[j].name != name
  {
    if vs == [] then None
    else if vs[0].name == name then Some(vs[0])
    else
      assert VariableNames(vs) == {vs[0].name} + VariableNames(vs[1..]) by {
        assert vs == [vs[0]] + vs[1..];
      }
      var r := FindVariable(vs[1..], name);
      FirstInTail(vs, name, r);
      r
  }

  /** A first match in the tail, after a head of another name, is a first match in the list. */
  lemma FirstInTail(vs: seq<Variable>, name: string, r: Option<Variable>)
    requires vs != [] && vs[0].name != name
    requires r.Some? ==> exists i :: 0 <= i < |vs[1..]| && vs[1..][i] == r.value
                                     && forall j :: 0 <= j < i ==> vs[1..][j].name != name
    ensures r.Some? ==> exists i :: 0 <= i < |vs| && vs[i] == r.value && forall j :: 0 <= j < i ==> vs[j].name != name
  {
    if r.Some? {
      var i :| 0 <= i < |vs[1..]| && vs[1..][i] == r.value && forall j :: 0 <= j < i ==> vs[1..][j].name != name;
      assert vs[i + 1] == r.value;
      forall j | 0 <= j < i + 1
        ensures vs[j].name != name
      {
        if j > 0 {
          assert vs[j] == vs[1..][j - 1];
        }
      }
    }
  }

  /** The variables whose names are not in `names`, in their order
      (`existingVariables.filter(_var => _var.name !== variable.name)`, repeated). */
  function Unclaimed(vs: seq<Variable>, names: set<string>): (r: seq<Variable>)
    ensures forall v :: v in r <==> v in vs && v.name !in names
    ensures |r| <= |vs|
  {
    if vs == [] then []
    else (if vs[0].name in names then [] else [vs[0]]) + Unclaimed(vs[1..], names)
  }

  /** Filtering out handled names leaves the first variable of any other name where it was,
      and leaves none of a handled name. */
  lemma {:induction false} FindUnclaimed(vs: seq<Variable>, names: set<string>, name: string)
    ensures name !in names ==> FindVariable(Unclaimed(vs, names), name) == FindVariable(vs, name)
    ensures name in names ==> FindVariable(Unclaimed(vs, names), name) == None
  {
    if vs != [] {
      var rest := Unclaimed(vs[1..], names);
      FindUnclaimed(vs[1..], names, name);
      if vs[0].name in names {
        assert Unclaimed(vs, names) == rest;
      } else {
        assert Unclaimed(vs, names) == [vs[0]] + rest;
        assert ([vs[0]] + rest)[1..] == rest;
      }
    }
  }

  /** Filtering out one more name is filtering out the larger set of names
      (`existingVariables.filter(...)`, line 177). */
  lemma {:induction false} UnclaimedFilter(vs: seq<Variable>, names: set<string>, name: string)
    ensures Unclaimed(Unclaimed(vs, names), {name}) == Unclaimed(vs, names + {name})
  {
    if vs != [] {
      UnclaimedFilter(vs[1..], names, name);
      var head := if vs[0].name in names then [] else [vs[0]];
      assert Unclaimed(head + Unclaimed(vs[1..], names), {name})
             == Unclaimed(head, {name}) + Unclaimed(Unclaimed(vs[1..], names), {name}) by {
        UnclaimedAppend(head, Unclaimed(vs[1..], names), {name});
      }
    }
  }

  lemma {:induction false} UnclaimedAppend(a: seq<Variable>, b: seq<Variable>, names: set<string>)
    ensures Unclaimed(a + b, names) == Unclaimed(a, names) + Unclaimed(b, names)
  {
    if a != [] {
      assert (a + b)[1..] == a[1..] + b;
      UnclaimedAppend(a[1..], b, names);
    } else {
      assert a + b == b;
    }
  }

  /** Filtering out no name keeps every variable. */
  lemma {:induction false} UnclaimedNothing(vs: seq<Variable>)
    ensures Unclaimed(vs, {}) == vs
  {
    if vs != [] {
      UnclaimedNothing(vs[1..]);
      assert vs == [vs[0]] + vs[1..];
    }
  }

  /** Claiming a name that no remaining variable has filters out nothing more. */
  lemma {:induction false} UnclaimedAbsent(vs: seq<Variable>, names: set<string>, name: string)
    requires name !in VariableNames(Unclaimed(vs, names))
    ensures Unclaimed(vs, names + {name}) == Unclaimed(vs, names)
  {
    if vs != [] {
      if vs[0].name !in names {
        assert vs[0] in Unclaimed(vs, names);
      }
      assert VariableNames(Unclaimed(vs[1..], names)) <= VariableNames(Unclaimed(vs, names));
      UnclaimedAbsent(vs[1..], names, name);
    }
  }

  /** The call, if any, for desired variable `v` once the names in `claimed` have been handled:
      a name handled earlier was removed from the existing list, so it is posted again;
      otherwise an existing variable of that name with a different value is patched, one with
      the same value is left alone, and a new name is posted. */
  function VariableUpsert(base: Params, existing: seq<Variable>, claimed: set<string>, v: Variable): seq<Request>
  {
    if v.name in claimed then [PostVariableRequest(base, v)]
    else
      match FindVariable(existing, v.name)
      case None => [PostVariableRequest(base, v)]
      case Some(x) => if x.value != v.value then [PatchVariableRequest(base, v)] else []
  }

  /** The PATCH and POST calls for the desired variables, in the desired order. */
  function VariableUpserts(base: Params, existing: seq<Variable>, desired: seq<Variable>): seq<Request>
  {
    if desired == [] then []
    else
      var k := |desired| - 1;
      VariableUpserts(base, existing, desired[..k]) + VariableUpsert(base, existing, VariableNames(desired[..k]), desired[k])
  }

  /** The upserts after one more desired variable, whose name joins the handled ones. */
  lemma VariableUpsertsSnoc(base: Params, existing: seq<Variable>, desired: seq<Variable>, i: int)
    requires 0 <= i < |desired|
    ensures VariableUpserts(base, existing, desired[..i + 1])
            == VariableUpserts(base, existing, desired[..i]) + VariableUpsert(base, existing, VariableNames(desired[..i]), desired[i])
    ensures VariableNames(desired[..i + 1]) == VariableNames(desired[..i]) + {desired[i].name}
  {
    assert desired[..i + 1][..i] == desired[..i];
    assert desired[..i + 1] == desired[..i] + [desired[i]];
  }

  /** A DELETE for each of `vs`, in order. */
  function VariableDeleteRequests(base: Params, vs: seq<Variable>): seq<Request>
  {
    Each(vs, DeleteVariableOf(base))
  }

  function DeleteVariableOf(base: Params): Variable -> Request
  {
    (x: Variable) => DeleteVariableRequest(base, x.name)
  }

  /** A DELETE for every existing variable whose name is not desired, in the existing order. */
  function VariableDeletes(base: Params, existing: seq<Variable>, desired: seq<Variable>): seq<Request>
  {
    VariableDeleteRequests(base, Unclaimed(existing, VariableNames(desired)))
  }

  function VariableRequests(base: Params, existing: seq<Variable>, desired: seq<Variable>): seq<Request>
  {
    VariableUpserts(base, existing, desired) + VariableDeletes(base, existing, desired)
  }

  /** Names are unique within the list. */
  predicate DistinctNames(vs: seq<Variable>)
  {
    forall i, j :: 0 <= i < |vs| && 0 <= j < |vs| && i != j ==> vs[i].name != vs[j].name
  }

  /** Every upsert request is a PATCH or a POST for one of the desired variables. */
  lemma {:induction false} UpsertsAreForDesired(base: Params, existing: seq<Variable>, desired: seq<Variable>)
    ensures forall r :: r in VariableUpserts(base, existing, desired) ==>
              exists v :: v in desired && (r == PatchVariableRequest(base, v) || r == PostVariableRequest(base, v))
    ensures |VariableUpserts(base, existing, desired)| <= |desired|
  {
    if desired != [] {
      var k := |desired| - 1;
      var prefix := desired[..k];
      UpsertsAreForDesired(base, existing, prefix);
      var last := VariableUpsert(base, existing, VariableNames(prefix), desired[k]);
      UpsertIsFor(base, existing, VariableNames(prefix), desired[k]);
      assert VariableUpserts(base, existing, desired) == VariableUpserts(base, existing, prefix) + last;
      forall r | r in VariableUpserts(base, existing, desired)
        ensures exists v :: v in desired && (r == PatchVariableRequest(base, v) || r == PostVariableRequest(base, v))
      {
        if r in VariableUpserts(base, existing, prefix) {
          var v :| v in prefix && (r == PatchVariableRequest(base, v) || r == PostVariableRequest(base, v));
          assert v in desired;
        } else {
          assert desired[k] in desired;
        }
      }
    }
  }

  /** The upsert of one desired variable is at most one request, a PATCH or a POST of it. */
  lemma UpsertIsFor(base: Params, existing: seq<Variable>, claimed: set<string>, v: Variable)
    ensures forall r :: r in VariableUpsert(base, existing, claimed, v) ==>
              r == PatchVariableRequest(base, v) || r == PostVariableRequest(base, v)
    ensures |VariableUpsert(base, existing, claimed, v)| <= 1
  {
  }

  /** The last desired variable's name is new to the ones before it. */
  lemma DistinctPrefix(desired: seq<Variable>, k: int)
    requires DistinctNames(desired) && 0 <= k < |desired|
    ensures DistinctNames(desired[..k])
    ensures desired[k].name !in VariableNames(desired[..k])
  {
  }

  /** The upsert of a variable whose name has not been handled yet. */
  lemma UpsertOfNewName(base: Params, existing: seq<Variable>, claimed: set<string>, v: Variable)
    requires v.name !in claimed
    ensures PatchVariableRequest(base, v) in VariableUpsert(base, existing, claimed, v)
            <==> FindVariable(existing, v.name).Some? && FindVariable(existing, v.name).value.value != v.value
    ensures PostVariableRequest(base, v) in VariableUpsert(base, existing, claimed, v) <==> v.name !in VariableNames(existing)
  {
    VariableRequestsDistinct(base, v, v, v.name);
  }

  /** The upsert of `w` issues nothing for a variable of another name. */
  lemma UpsertOfOther(base: Params, existing: seq<Variable>, claimed: set<string>, v: Variable, w: Variable)
    requires v.name != w.name
    ensures PatchVariableRequest(base, v) !in VariableUpsert(base, existing, claimed, w)
    ensures PostVariableRequest(base, v) !in VariableUpsert(base, existing, claimed, w)
  {
    VariableRequestsDistinct(base, v, w, v.name);
    VariableRequestsDistinct(base, w, v, v.name);
  }

  /** With distinct desired names, the upserts are exactly: one PATCH for each desired
      variable whose name exists with a different value, and one POST for each desired
      variable whose name does not exist. A variable that exists with the same value gets no call. */
  lemma {:induction false} UpsertsExact(base: Params, existing: seq<Variable>, desired: seq<Variable>, v: Variable)
    requires DistinctNames(desired) && v in desired
    ensures PatchVariableRequest(base, v) in VariableUpserts(base, existing, desired)
            <==> FindVariable(existing, v.name).Some? && FindVariable(existing, v.name).value.value != v.value
    ensures PostVariableRequest(base, v) in VariableUpserts(base, existing, desired) <==> v.name !in VariableNames(existing)
  {
    var k := |desired| - 1;
    var earlier := VariableUpserts(base, existing, desired[..k]);
    var last := VariableUpsert(base, existing, VariableNames(desired[..k]), desired[k]);
    assert VariableUpserts(base, existing, desired) == earlier + last;
    DistinctPrefix(desired, k);
    if v == desired[k] {
      NoRequestForAbsent(base, existing, desired[..k], v);
      UpsertOfNewName(base, existing, VariableNames(desired[..k]), v);
    } else {
      assert desired == desired[..k] + [desired[k]];
      assert v in desired[..k];
      UpsertsExact(base, existing, desired[..k], v);
      UpsertOfOther(base, existing, VariableNames(desired[..k]), v, desired[k]);
    }
  }

  /** No upsert request names a variable absent from the desired list's names. */
  lemma NoRequestForAbsent(base: Params, existing: seq<Variable>, desired: seq<Variable>, v: Variable)
    requires v.name !in VariableNames(desired)
    ensures PatchVariableRequest(base, v) !in VariableUpserts(base, existing, desired)
    ensures PostVariableRequest(base, v) !in VariableUpserts(base, existing, desired)
  {
    UpsertsAreForDesired(base, existing, desired);
    forall r | r in VariableUpserts(base, existing, desired)
      ensures r != PatchVariableRequest(base, v) && r != PostVariableRequest(base, v)
    {
      var w :| w in desired && (r == PatchVariableRequest(base, w) || r == PostVariableRequest(base, w));
      VariableRequestsDistinct(base, v, w, v.name);
      VariableRequestsDistinct(base, w, v, v.name);
    }
  }

  /** The deletes are exactly the existing variables whose name is not desired. */
  lemma DeletesExact(base: Params, existing: seq<Variable>, desired: seq<Variable>, name: string)
    ensures DeleteVariableRequest(base, name) in VariableDeletes(base, existing, desired)
            <==> name in VariableNames(existing) && name !in VariableNames(desired)
  {
    var left := Unclaimed(existing, VariableNames(desired));
    var dels := VariableDeletes(base, existing, desired);
    if DeleteVariableRequest(base, name) in dels {
      var k :| 0 <= k < |dels| && dels[k] == DeleteVariableRequest(base, name);
      assert dels[k] == DeleteVariableRequest(base, left[k].name);
      VariableRequestsDistinct(base, left[k], left[k], name);
      assert left[k] in left;
      assert left[k] in existing;
    }
    if name in VariableNames(existing) && name !in VariableNames(desired) {
      var x :| x in existing && x.name == name;
      assert x in left;
      var k :| 0 <= k < |left| && left[k] == x;
      assert dels[k] == DeleteVariableRequest(base, name);
    }
  }

  /** The upserts are PATCHes and POSTs, the deletes are DELETEs. */
  lemma {:induction false} VariableRoutes(base: Params, existing: seq<Variable>, desired: seq<Variable>)
    ensures forall r :: r in VariableUpserts(base, existing, desired) ==> r.route == PatchVariable || r.route == PostVariable
    ensures forall r :: r in VariableDeletes(base, existing, desired) ==> r.route == DeleteVariable
  {
    if desired != [] {
      VariableRoutes(base, existing, desired[..|desired| - 1]);
    }
  }

  /** With distinct names, an existing variable is found by its name. */
  lemma FoundByName(existing: seq<Variable>, x: Variable)
    requires DistinctNames(existing) && x in existing
    ensures FindVariable(existing, x.name) == Some(x)
  {
    var found := FindVariable(existing, x.name);
    var i :| 0 <= i < |existing| && existing[i] == x;
    var j :| 0 <= j < |existing| && existing[j] == found.value;
  }

  /** The PATCH and POST half of variable reconciliation. */
  lemma UpsertReconciliation(base: Params, existing: seq<Variable>, desired: seq<Variable>, v: Variable)
    requires DistinctNames(existing) && DistinctNames(desired) && v in desired
    ensures PatchVariableRequest(base, v) in VariableRequests(base, existing, desired)
            <==> exists x :: x in existing && x.name == v.name && x.value != v.value
    ensures PostVariableRequest(base, v) in VariableRequests(base, existing, desired)
            <==> forall x :: x in existing ==> x.name != v.name
  {
    VariableRoutes(base, existing, desired);
    UpsertsExact(base, existing, desired, v);
    if exists x :: x in existing && x.name == v.name {
      var x :| x in existing && x.name == v.name;
      FoundByName(existing, x);
    }
  }

  /** The DELETE half of variable reconciliation. */
  lemma DeleteReconciliation(base: Params, existing: seq<Variable>, desired: seq<Variable>, name: string)
    ensures DeleteVariableRequest(base, name) in VariableRequests(base, existing, desired)
            <==> (exists x :: x in existing && x.name == name) && forall w :: w in desired ==> w.name != name
  {
    VariableRoutes(base, existing, desired);
    DeletesExact(base, existing, desired, name);
  }

  /** Variable reconciliation as a set difference (both lists with distinct names): a PATCH
      for every changed value, a POST for every new name, a DELETE for every name no longer
      desired, and nothing for an unchanged variable. */
  lemma VariableReconciliation(base: Params, existing: seq<Variable>, desired: seq<Variable>, v: Variable, name: string)
    requires DistinctNames(existing) && DistinctNames(desired) && v in desired
    ensures PatchVariableRequest(base, v) in VariableRequests(base, existing, desired)
            <==> exists x :: x in existing && x.name == v.name && x.value != v.value
    ensures PostVariableRequest(base, v) in VariableRequests(base, existing, desired)
            <==> forall x :: x in existing ==> x.name != v.name
    ensures (forall x :: x in existing ==> x.name != v.name || x.value == v.value)
            ==> PatchVariableRequest(base, v) !in VariableRequests(base, existing, desired)
    ensures DeleteVariableRequest(base, name) in VariableRequests(base, existing, desired)
            <==> (exists x :: x in existing && x.name == name) && forall w :: w in desired ==> w.name != name
  {
    UpsertReconciliation(base, existing, desired, v);
    DeleteReconciliation(base, existing, desired, name);
  }

  /** No call occurs twice in `reqs`. */
  predicate NoDuplicates(reqs: seq<Request>)
  {
    forall i, j :: 0 <= i < j < |reqs| ==> reqs[i] != reqs[j]
  }

  /** A sequence without duplicates holds each call at most once, counted as a multiset. */
  lemma {:induction false} NoDuplicatesOnce(reqs: seq<Request>)
    requires NoDuplicates(reqs)
    ensures forall r :: multiset(reqs)[r] <= 1
  {
    if reqs != [] {
      var k := |reqs| - 1;
      NoDuplicatesOnce(reqs[..k]);
      assert reqs == reqs[..k] + [reqs[k]];
      assert reqs[k] !in reqs[..k];
    }
  }

  /** Two lists without duplicates and without a common call concatenate without duplicates. */
  lemma NoDuplicatesConcat(a: seq<Request>, b: seq<Request>)
    requires NoDuplicates(a) && NoDuplicates(b)
    requires forall r :: r in a ==> r !in b
    ensures NoDuplicates(a + b)
  {
    forall i, j | 0 <= i < j < |a + b|
      ensures (a + b)[i] != (a + b)[j]
    {
      if i < |a| && |a| <= j {
        assert (a + b)[i] in a && (a + b)[j] in b;
      }
    }
  }

  /** With distinct desired names, no PATCH or POST is issued twice. */
  lemma {:induction false} UpsertsOnce(base: Params, existing: seq<Variable>, desired: seq<Variable>)
    requires DistinctNames(desired)
    ensures NoDuplicates(VariableUpserts(base, existing, desired))
  {
    if desired != [] {
      var k := |desired| - 1;
      var prefix := desired[..k];
      DistinctPrefix(desired, k);
      UpsertsOnce(base, existing, prefix);
      UpsertsAreForDesired(base, existing, prefix);
      var last := VariableUpsert(base, existing, VariableNames(prefix), desired[k]);
      UpsertIsFor(base, existing, VariableNames(prefix), desired[k]);
      forall r | r in VariableUpserts(base, existing, prefix)
        ensures r !in last
      {
        var v :| v in prefix && (r == PatchVariableRequest(base, v) || r == PostVariableRequest(base, v));
        assert v.name != desired[k].name;
        VariableRequestsDistinct(base, v, desired[k], v.name);
        VariableRequestsDistinct(base, desired[k], v, v.name);
      }
      NoDuplicatesConcat(VariableUpserts(base, existing, prefix), last);
    }
  }

  /** The tail of a list with distinct names has distinct names, none of them the head's. */
  lemma DistinctTail(vs: seq<Variable>)
    requires vs != [] && DistinctNames(vs)
    ensures DistinctNames(vs[1..])
    ensures forall w :: w in vs[1..] ==> w.name != vs[0].name
  {
    forall i, j | 0 <= i < |vs[1..]| && 0 <= j < |vs[1..]| && i != j
      ensures vs[1..][i].name != vs[1..][j].name
    {
      assert vs[1..][i] == vs[i + 1] && vs[1..][j] == vs[j + 1];
    }
    forall w | w in vs[1..]
      ensures w.name != vs[0].name
    {
      var j :| 0 <= j < |vs[1..]| && vs[1..][j] == w;
      assert vs[j + 1] == w;
    }
  }

  /** Putting a variable of a new name in front keeps the names distinct. */
  lemma DistinctCons(v: Variable, rest: seq<Variable>)
    requires DistinctNames(rest)
    requires forall w :: w in rest ==> w.name != v.name
    ensures DistinctNames([v] + rest)
  {
    var r := [v] + rest;
    forall i, j | 0 <= i < |r| && 0 <= j < |r| && i != j
      ensures r[i].name != r[j].name
    {
      if i == 0 {
        assert r[j] in rest;
      } else if j == 0 {
        assert r[i] in rest;
      } else {
        assert r[i] == rest[i - 1] && r[j] == rest[j - 1];
      }
    }
  }

  /** Filtering keeps the names distinct. */
  lemma {:induction false} UnclaimedDistinct(vs: seq<Variable>, names: set<string>)
    requires DistinctNames(vs)
    ensures DistinctNames(Unclaimed(vs, names))
  {
    if vs != [] {
      var rest := Unclaimed(vs[1..], names);
      DistinctTail(vs);
      UnclaimedDistinct(vs[1..], names);
      if vs[0].name !in names {
        DistinctCons(vs[0], rest);
      }
    }
  }

  /** With distinct existing names, no DELETE is issued twice. */
  lemma DeletesOnce(base: Params, existing: seq<Variable>, desired: seq<Variable>)
    requires DistinctNames(existing)
    ensures NoDuplicates(VariableDeletes(base, existing, desired))
  {
    var left := Unclaimed(existing, VariableNames(desired));
    UnclaimedDistinct(existing, VariableNames(desired));
    var dels := VariableDeletes(base, existing, desired);
    forall i, j | 0 <= i < j < |dels|
      ensures dels[i] != dels[j]
    {
      assert dels[i] == DeleteVariableRequest(base, left[i].name);
      assert dels[j] == DeleteVariableRequest(base, left[j].name);
      VariableRequestsDistinct(base, left[i], left[i], left[j].name);
    }
  }

  /** Variable reconciliation issues each call at most once: no PATCH, POST or DELETE is
      repeated when both lists have distinct names. */
  lemma VariableRequestsOnce(base: Params, existing: seq<Variable>, desired: seq<Variable>)
    requires DistinctNames(existing) && DistinctNames(desired)
    ensures NoDuplicates(VariableRequests(base, existing, desired))
    ensures forall r :: multiset(VariableRequests(base, existing, desired))[r] <= 1
  {
    UpsertsOnce(base, existing, desired);
    DeletesOnce(base, existing, desired);
    VariableRoutes(base, existing, desired);
    NoDuplicatesConcat(VariableUpserts(base, existing, desired), VariableDeletes(base, existing, desired));
    NoDuplicatesOnce(VariableRequests(base, existing, desired));
  }

  /** Variable names are compared after lower-casing on both sides (lines 13-17 and 62): a
      desired variable whose name differs from an existing one's only by case is neither
      posted as new nor causes the existing one to be deleted. */
  lemma VariableCaseVariants(base: Params, existing: seq<Variable>, ds: seq<Variable>, i: int, x: Variable)
    requires forall y :: y in existing ==> NoUpper(y.name)
    requires DistinctNames(LowerVariables(ds))
    requires 0 <= i < |ds| && x in existing && EqualIgnoringCase(ds[i].name, x.name)
    ensures PostVariableRequest(base, LowerVariables(ds)[i]) !in VariableRequests(base, existing, LowerVariables(ds))
    ensures DeleteVariableRequest(base, x.name) !in VariableRequests(base, existing, LowerVariables(ds))
  {
    var desired := LowerVariables(ds);
    var v := desired[i];
    assert v.name == Lower(ds[i].name);
    LowerEqualIff(ds[i].name, x.name);
    LowerFixesLowerCase(x.name);
    assert v.name == x.name;
    assert v in desired;
    UpsertsExact(base, existing, desired, v);
    VariableRoutes(base, existing, desired);
    assert x.name in VariableNames(existing);
    DeleteReconciliation(base, existing, desired, x.name);
  }

  // ---------------------------------------------------------------------------------------
  // Protection rules (lines 209-233)

  /** `existingRules.find(_rule => _rule.id === rule.id)` finds a rule. */
  predicate HasRuleId(rules: seq<ProtectionRule>, id: Option<int>)
  {
    rules != [] && (rules[0].id == id || HasRuleId(rules[1..], id))
  }

  lemma {:induction false} HasRuleIdIff(rules: seq<ProtectionRule>, id: Option<int>)
    ensures HasRuleId(rules, id) <==> exists r :: r in rules && r.id == id
  {
    if rules != [] {
      HasRuleIdIff(rules[1..], id);
      assert rules == [rules[0]] + rules[1..];
    }
  }

  /** A POST for each desired rule whose `id` matches no existing rule, in the desired order. */
  function RulePosts(base: Params, existing: seq<ProtectionRule>, desired: seq<ProtectionRule>): seq<Request>
  {
    if desired == [] then []
    else
      var k := |desired| - 1;
      RulePosts(base, existing, desired[..k])
      + (if HasRuleId(existing, desired[k].id) then [] else [PostRuleRequest(base, desired[k].appId)])
  }

  /** A DELETE for every existing rule: the list is never filtered. */
  function RuleDeletes(base: Params, existing: seq<ProtectionRule>): seq<Request>
  {
    Each(existing, DeleteRuleOf(base))
  }

  function DeleteRuleOf(base: Params): ProtectionRule -> Request
  {
    (r: ProtectionRule) => DeleteRuleRequest(base, r.id)
  }

  function RuleRequests(base: Params, existing: seq<ProtectionRule>, desired: seq<ProtectionRule>): seq<Request>
  {
    RulePosts(base, existing, desired) + RuleDeletes(base, existing)
  }

  /** A rule is posted exactly when some desired rule with that app id has an `id` matching no
      existing rule. */
  lemma {:induction false} RulePostsExact(base: Params, existing: seq<ProtectionRule>, desired: seq<ProtectionRule>, appId: int)
    ensures PostRuleRequest(base, appId) in RulePosts(base, existing, desired)
            <==> exists d :: d in desired && d.appId == appId && !HasRuleId(existing, d.id)
  {
    if desired != [] {
      var k := |desired| - 1;
      RulePostsExact(base, existing, desired[..k], appId);
      PostRuleDistinct(base, appId, desired[k].appId);
      assert desired == desired[..k] + [desired[k]];
      if exists d :: d in desired && d.appId == appId && !HasRuleId(existing, d.id) {
        var d :| d in desired && d.appId == appId && !HasRuleId(existing, d.id);
        if d != desired[k] {
          assert d in desired[..k];
        }
      }
    }
  }

  /** Rule reconciliation: the POSTs of rules with an unknown `id`, at most one per desired
      rule, then a DELETE for every existing rule, in the existing order, whether or not a
      desired rule matches it. */
  lemma RuleReconciliation(base: Params, existing: seq<ProtectionRule>, desired: seq<ProtectionRule>)
    ensures var posts := RulePosts(base, existing, desired);
            var r := RuleRequests(base, existing, desired);
            && |posts| <= |desired|
            && |r| == |posts| + |existing|
            && (forall k :: 0 <= k < |posts| ==> r[k].route == PostRule)
            && (forall k :: 0 <= k < |existing| ==> r[|posts| + k] == DeleteRuleRequest(base, existing[k].id))
  {
    var posts := RulePosts(base, existing, desired);
    var dels := RuleDeletes(base, existing);
    assert RuleRequests(base, existing, desired) == posts + dels;
    RulePostsAreRulePosts(base, existing, desired);
    ConcatIndex(posts, dels);
  }

  /** A desired rule without an `id` is posted whenever every existing rule has one, as every
      rule `find` reports does. */
  lemma RuleWithoutIdPosted(base: Params, existing: seq<ProtectionRule>, desired: seq<ProtectionRule>, d: ProtectionRule)
    requires d in desired && d.id.None?
    requires forall e :: e in existing ==> e.id.Some?
    ensures PostRuleRequest(base, d.appId) in RuleRequests(base, existing, desired)
  {
    RulePostsExact(base, existing, desired, d.appId);
    HasRuleIdIff(existing, d.id);
  }

  // ---------------------------------------------------------------------------------------
  // Plans

  /** The requests an operation issues, and whether it ran to its end. It stops early only when
      a truthy but non-iterable `custom_branch_policies` (the boolean `true`) is iterated with
      `for ... of`, which throws a TypeError. */
  datatype Plan = Plan(requests: seq<Request>, completed: bool)

  /** `update(existing, attrs)` (lines 128-234), with the branch policies the GET of line 153
      returns passed in as `fetched`. */
  function UpdatePlan(repo: Repo, existing: Settings, attrs: Entry, fetched: seq<PolicyRecord>): Plan
  {
    UpdateSteps(repo, existing, Fill(attrs), GetChanged(existing, attrs), fetched)
  }

  /** Whether `update` runs the branch-policy replacement (line 151): the branch policy
      changed and the desired `custom_branch_policies` is truthy. */
  predicate ReplacesPolicies(c: ChangeSet, desired: Settings)
  {
    c.branchPolicy && desired.branchPolicy.Some? && desired.branchPolicy.value.custom.Truthy()
  }

  /** The branch-policy replacement of `update` (lines 151-170): delete every fetched policy,
      then post every desired one. Iterating the flag `true` throws after the deletes. */
  function ReplacePolicies(base: Params, fetched: seq<PolicyRecord>, custom: CustomPolicies): Plan
  {
    match custom
    case Flag(_) => Plan(PolicyDeletes(base, fetched), false)
    case Patterns(items) => Plan(PolicyDeletes(base, fetched) + UpdatePolicyPosts(base, items), true)
  }

  /** The branch-policy step of `update`: the replacement when it runs, nothing otherwise. */
  function UpdatePolicySteps(base: Params, fetched: seq<PolicyRecord>, c: ChangeSet, desired: Settings): Plan
  {
    if ReplacesPolicies(c, desired) then ReplacePolicies(base, fetched, desired.branchPolicy.value.custom) else Plan([], true)
  }

  /** The body of `update` once `getChanged` has produced the flags `c` and filled `attrs` into
      `desired`: the PUT, the branch-policy replacement, then, unless that threw, the variable
      and rule reconciliations. */
  function UpdateSteps(repo: Repo, existing: Settings, desired: Settings, c: ChangeSet, fetched: seq<PolicyRecord>): Plan
  {
    var base := BaseParams(repo, desired.name);
    var settings := if c.Settings() then [UpdateSettingsRequest(base, desired)] else [];
    var policies := UpdatePolicySteps(base, fetched, c, desired);
    var variables := if c.variables then VariableRequests(base, existing.variables, desired.variables) else [];
    var rules := if c.protectionRules then RuleRequests(base, existing.protectionRules, desired.protectionRules) else [];
    Plan(settings + policies.requests + (if policies.completed then variables + rules else []), policies.completed)
  }

  function AddVariablePosts(base: Params, vs: seq<Variable>): seq<Request>
  {
    Each(vs, PostVariableOf(base))
  }

  function PostVariableOf(base: Params): Variable -> Request
  {
    (v: Variable) => PostVariableRequest(base, v)
  }

  function AddRulePosts(base: Params, rules: seq<ProtectionRule>): seq<Request>
  {
    Each(rules, PostRuleOf(base))
  }

  function PostRuleOf(base: Params): ProtectionRule -> Request
  {
    (r: ProtectionRule) => PostRuleRequest(base, r.appId)
  }

  /** The branch-policy POSTs of `add` (lines 257-268), run when `custom_branch_policies` is
      truthy; iterating the flag `true` throws before any POST. */
  function AddPolicies(base: Params, custom: CustomPolicies): Plan
  {
    match custom
    case Flag(_) => Plan([], false)
    case Patterns(items) => Plan(AddPolicyPosts(base, items), true)
  }

  /** `add(attrs)` (lines 236-296): the PUT, then one POST per desired branch policy, variable
      and protection rule. */
  function AddPlan(repo: Repo, attrs: Entry): Plan
  {
    var base := BaseParams(repo, attrs.name);
    var policies := if attrs.branchPolicy.Some? && attrs.branchPolicy.value.custom.Truthy()
                    then AddPolicies(base, attrs.branchPolicy.value.custom) else Plan([], true);
    var variables := match attrs.variables case Some(vs) => AddVariablePosts(base, vs) case None => [];
    var rules := match attrs.protectionRules case Some(rs) => AddRulePosts(base, rs) case None => [];
    Plan([AddSettingsRequest(base, attrs)] + policies.requests + (if policies.completed then variables + rules else []),
         policies.completed)
  }

  /** `remove(existing)` (lines 298-311): one DELETE of the environment. */
  function RemovePlan(repo: Repo, existing: Settings): (p: Plan)
    ensures p.completed && |p.requests| == 1
    ensures p.requests[0].route == DeleteEnvironment
    ensures p.requests[0].params == BaseParams(repo, existing.name)
  {
    Plan([DeleteEnvironmentRequest(BaseParams(repo, existing.name))], true)
  }

  // ---------------------------------------------------------------------------------------
  // The fixed order of the steps

  /** The step a request belongs to, in the order `update` and `add` issue them. */
  function Phase(route: Route): nat
  {
    match route
    case PutEnvironment => 0
    case DeletePolicy => 1
    case PostPolicy => 2
    case PatchVariable | PostVariable => 3
    case DeleteVariable => 4
    case PostRule => 5
    case DeleteRule => 6
    case DeleteEnvironment => 7
  }

  predicate PhasesOrdered(reqs: seq<Request>)
  {
    forall i, j :: 0 <= i < j < |reqs| ==> Phase(reqs[i].route) <= Phase(reqs[j].route)
  }

  predicate InPhases(reqs: seq<Request>, lo: nat, hi: nat)
  {
    forall i :: 0 <= i < |reqs| ==> lo <= Phase(reqs[i].route) <= hi
  }

  lemma OrderedConcat(a: seq<Request>, b: seq<Request>, lo: nat, mid: nat, hi: nat)
    requires lo <= mid <= hi
    requires PhasesOrdered(a) && InPhases(a, lo, mid)
    requires PhasesOrdered(b) && InPhases(b, mid, hi)
    ensures PhasesOrdered(a + b) && InPhases(a + b, lo, hi)
  {
    var ab := a + b;
    forall i | 0 <= i < |ab| ensures lo <= Phase(ab[i].route) <= hi {
      if i >= |a| { assert ab[i] == b[i - |a|]; } else { assert ab[i] == a[i]; }
    }
    forall i, j | 0 <= i < j < |ab| ensures Phase(ab[i].route) <= Phase(ab[j].route) {
      if j < |a| {
        assert ab[i] == a[i] && ab[j] == a[j];
      } else if i >= |a| {
        assert ab[i] == b[i - |a|] && ab[j] == b[j - |a|];
      } else {
        assert ab[i] == a[i] && ab[j] == b[j - |a|];
      }
    }
  }

  /** A list whose requests all share one phase is in order. */
  lemma SinglePhase(reqs: seq<Request>, p: nat)
    requires forall i :: 0 <= i < |reqs| ==> Phase(reqs[i].route) == p
    ensures PhasesOrdered(reqs) && InPhases(reqs, p, p)
  {
  }

  /** The same, for requests known by membership to lie in phase `p`. */
  lemma MembersInPhase(reqs: seq<Request>, p: nat)
    requires forall r :: r in reqs ==> Phase(r.route) == p
    ensures PhasesOrdered(reqs) && InPhases(reqs, p, p)
  {
    forall i | 0 <= i < |reqs| ensures Phase(reqs[i].route) == p {
      assert reqs[i] in reqs;
    }
    SinglePhase(reqs, p);
  }

  lemma UpdatePolicyStepsInPhase(base: Params, fetched: seq<PolicyRecord>, c: ChangeSet, desired: Settings)
    ensures PhasesOrdered(UpdatePolicySteps(base, fetched, c, desired).requests)
    ensures InPhases(UpdatePolicySteps(base, fetched, c, desired).requests, 1, 2)
    ensures UpdatePolicySteps(base, fetched, c, desired).requests != [] ==> c.branchPolicy
  {
    if ReplacesPolicies(c, desired) {
      PolicyStepsInPhase(base, fetched, desired.branchPolicy.value.custom);
    }
  }

  lemma PolicyStepsInPhase(base: Params, fetched: seq<PolicyRecord>, custom: CustomPolicies)
    ensures PhasesOrdered(ReplacePolicies(base, fetched, custom).requests)
    ensures InPhases(ReplacePolicies(base, fetched, custom).requests, 1, 2)
    ensures PhasesOrdered(AddPolicies(base, custom).requests)
    ensures InPhases(AddPolicies(base, custom).requests, 2, 2)
  {
    SinglePhase(PolicyDeletes(base, fetched), 1);
    if custom.Patterns? {
      SinglePhase(UpdatePolicyPosts(base, custom.items), 2);
      SinglePhase(AddPolicyPosts(base, custom.items), 2);
      OrderedConcat(PolicyDeletes(base, fetched), UpdatePolicyPosts(base, custom.items), 1, 1, 2);
    }
  }

  lemma {:induction false} RulePostsAreRulePosts(base: Params, existing: seq<ProtectionRule>, desired: seq<ProtectionRule>)
    ensures forall k :: 0 <= k < |RulePosts(base, existing, desired)| ==> RulePosts(base, existing, desired)[k].route == PostRule
    ensures |RulePosts(base, existing, desired)| <= |desired|
  {
    if desired != [] {
      RulePostsAreRulePosts(base, existing, desired[..|desired| - 1]);
    }
  }

  lemma RulePostsInPhase(base: Params, existing: seq<ProtectionRule>, desired: seq<ProtectionRule>)
    ensures InPhases(RulePosts(base, existing, desired), 5, 5)
    ensures |RulePosts(base, existing, desired)| <= |desired|
  {
    RulePostsAreRulePosts(base, existing, desired);
  }

  lemma VariableRequestsOrdered(base: Params, existing: seq<Variable>, desired: seq<Variable>)
    ensures PhasesOrdered(VariableRequests(base, existing, desired))
    ensures InPhases(VariableRequests(base, existing, desired), 3, 4)
  {
    var ups := VariableUpserts(base, existing, desired);
    var dels := VariableDeletes(base, existing, desired);
    VariableRoutes(base, existing, desired);
    MembersInPhase(ups, 3);
    MembersInPhase(dels, 4);
    OrderedConcat(ups, dels, 3, 3, 4);
  }

  lemma RuleRequestsOrdered(base: Params, existing: seq<ProtectionRule>, desired: seq<ProtectionRule>)
    ensures PhasesOrdered(RuleRequests(base, existing, desired))
    ensures InPhases(RuleRequests(base, existing, desired), 5, 6)
  {
    RulePostsInPhase(base, existing, desired);
    OrderedConcat(RulePosts(base, existing, desired), RuleDeletes(base, existing), 5, 5, 6);
  }

  /** The PUT, a list in phases 1 and 2, and a list in phases 3 to 6, in that order, are in order. */
  lemma ThreePartsOrdered(a: seq<Request>, b: seq<Request>, t: seq<Request>)
    requires |a| <= 1 && InPhases(a, 0, 0)
    requires PhasesOrdered(b) && InPhases(b, 1, 2)
    requires PhasesOrdered(t) && InPhases(t, 3, 6)
    ensures PhasesOrdered(a + b + t) && InPhases(a + b + t, 0, 6)
  {
    OrderedConcat(a, b, 0, 1, 2);
    OrderedConcat(a + b, t, 0, 3, 6);
  }

  lemma StepsInOrder(repo: Repo, existing: Settings, desired: Settings, c: ChangeSet, fetched: seq<PolicyRecord>)
    ensures PhasesOrdered(UpdateSteps(repo, existing, desired, c, fetched).requests)
    ensures InPhases(UpdateSteps(repo, existing, desired, c, fetched).requests, 0, 6)
  {
    var base := BaseParams(repo, desired.name);
    var policies := UpdatePolicySteps(base, fetched, c, desired);
    var variables := if c.variables then VariableRequests(base, existing.variables, desired.variables) else [];
    var rules := if c.protectionRules then RuleRequests(base, existing.protectionRules, desired.protectionRules) else [];
    var tail := if policies.completed then variables + rules else [];
    var settings := if c.Settings() then [UpdateSettingsRequest(base, desired)] else [];
    assert UpdateSteps(repo, existing, desired, c, fetched).requests == settings + policies.requests + tail;
    UpdatePolicyStepsInPhase(base, fetched, c, desired);
    TailInOrder(base, existing, desired, c, policies.completed);
    ThreePartsOrdered(settings, policies.requests, tail);
  }

  /** The variable and rule requests of `update`, when they run, are in order. */
  lemma TailInOrder(base: Params, existing: Settings, desired: Settings, c: ChangeSet, completed: bool)
    ensures var variables := if c.variables then VariableRequests(base, existing.variables, desired.variables) else [];
            var rules := if c.protectionRules then RuleRequests(base, existing.protectionRules, desired.protectionRules) else [];
            var tail := if completed then variables + rules else [];
            PhasesOrdered(tail) && InPhases(tail, 3, 6)
  {
    var variables := if c.variables then VariableRequests(base, existing.variables, desired.variables) else [];
    var rules := if c.protectionRules then RuleRequests(base, existing.protectionRules, desired.protectionRules) else [];
    VariableRequestsOrdered(base, existing.variables, desired.variables);
    RuleRequestsOrdered(base, existing.protectionRules, desired.protectionRules);
    OrderedConcat(variables, rules, 3, 4, 6);
  }

  /** The fixed order of `update`: the settings PUT, then every branch-policy DELETE, then
      every branch-policy POST, then variable PATCH/POSTs, then variable DELETEs, then rule
      POSTs, then rule DELETEs. */
  lemma UpdateStepsInOrder(repo: Repo, existing: Settings, attrs: Entry, fetched: seq<PolicyRecord>)
    ensures PhasesOrdered(UpdatePlan(repo, existing, attrs, fetched).requests)
    ensures InPhases(UpdatePlan(repo, existing, attrs, fetched).requests, 0, 6)
  {
    StepsInOrder(repo, existing, Fill(attrs), GetChanged(existing, attrs), fetched);
  }

  /** The requests `r` follow the change set `c`: the settings PUT `put` is issued, once and
      first, exactly when a settings field changed, and the branch-policy, variable and rule
      requests are issued only when their field changed. */
  predicate FollowsChanges(r: seq<Request>, c: ChangeSet, put: Request)
  {
    && ((exists i :: 0 <= i < |r| && Phase(r[i].route) == 0) <==> c.Settings())
    && (c.Settings() ==> r[0] == put)
    && (forall i :: 0 <= i < |r| && Phase(r[i].route) == 0 ==> i == 0)
    && (forall i :: 0 <= i < |r| && 1 <= Phase(r[i].route) <= 2 ==> c.branchPolicy)
    && (forall i :: 0 <= i < |r| && 3 <= Phase(r[i].route) <= 4 ==> c.variables)
    && (forall i :: 0 <= i < |r| && 5 <= Phase(r[i].route) <= 6 ==> c.protectionRules)
  }

  /** Where each request of `a + b + (v + d)` comes from. */
  lemma PartsIndex(a: seq<Request>, b: seq<Request>, v: seq<Request>, d: seq<Request>, i: int)
    requires 0 <= i < |a + b + (v + d)|
    ensures var r := a + b + (v + d);
            && (i < |a| ==> r[i] == a[i])
            && (|a| <= i < |a| + |b| ==> r[i] == b[i - |a|])
            && (|a| + |b| <= i < |a| + |b| + |v| ==> r[i] == v[i - |a| - |b|])
            && (|a| + |b| + |v| <= i ==> r[i] == d[i - |a| - |b| - |v|])
  {
  }

  /** The PUT half of `FollowsChanges` for a four-part list. */
  lemma PartsPut(a: seq<Request>, b: seq<Request>, v: seq<Request>, d: seq<Request>, c: ChangeSet, put: Request)
    requires Phase(put.route) == 0 && a == (if c.Settings() then [put] else [])
    requires InPhases(b, 1, 2) && InPhases(v, 3, 4) && InPhases(d, 5, 6)
    ensures var r := a + b + (v + d);
            && ((exists i :: 0 <= i < |r| && Phase(r[i].route) == 0) <==> c.Settings())
            && (c.Settings() ==> r[0] == put)
            && (forall i :: 0 <= i < |r| && Phase(r[i].route) == 0 ==> i == 0)
  {
    var r := a + b + (v + d);
    forall i | 0 <= i < |r| && Phase(r[i].route) == 0 ensures i == 0 && a != [] {
      PartsIndex(a, b, v, d, i);
    }
    if a != [] {
      assert r[0] == put;
    }
  }

  /** The step half of `FollowsChanges` for a four-part list. */
  lemma PartsSteps(a: seq<Request>, b: seq<Request>, v: seq<Request>, d: seq<Request>, c: ChangeSet)
    requires InPhases(a, 0, 0)
    requires InPhases(b, 1, 2) && (b != [] ==> c.branchPolicy)
    requires InPhases(v, 3, 4) && (v != [] ==> c.variables)
    requires InPhases(d, 5, 6) && (d != [] ==> c.protectionRules)
    ensures var r := a + b + (v + d);
            && (forall i :: 0 <= i < |r| && 1 <= Phase(r[i].route) <= 2 ==> c.branchPolicy)
            && (forall i :: 0 <= i < |r| && 3 <= Phase(r[i].route) <= 4 ==> c.variables)
            && (forall i :: 0 <= i < |r| && 5 <= Phase(r[i].route) <= 6 ==> c.protectionRules)
  {
    var r := a + b + (v + d);
    forall i | 0 <= i < |r| && 1 <= Phase(r[i].route) ensures
      && (Phase(r[i].route) <= 2 ==> b != [])
      && (3 <= Phase(r[i].route) <= 4 ==> v != [])
      && (5 <= Phase(r[i].route) ==> d != [])
    {
      PartsIndex(a, b, v, d, i);
    }
  }

  lemma PartsFollowChanges(a: seq<Request>, b: seq<Request>, t: seq<Request>, v: seq<Request>, d: seq<Request>, c: ChangeSet, put: Request)
    requires Phase(put.route) == 0 && a == (if c.Settings() then [put] else [])
    requires InPhases(b, 1, 2) && (b != [] ==> c.branchPolicy)
    requires InPhases(v, 3, 4) && (v != [] ==> c.variables)
    requires InPhases(d, 5, 6) && (d != [] ==> c.protectionRules)
    requires t == v + d
    ensures FollowsChanges(a + b + t, c, put)
  {
    PartsPut(a, b, v, d, c, put);
    PartsSteps(a, b, v, d, c);
  }

  lemma StepsFollowChanges(repo: Repo, existing: Settings, desired: Settings, c: ChangeSet, fetched: seq<PolicyRecord>)
    ensures FollowsChanges(UpdateSteps(repo, existing, desired, c, fetched).requests, c,
                           UpdateSettingsRequest(BaseParams(repo, desired.name), desired))
  {
    var base := BaseParams(repo, desired.name);
    var put := UpdateSettingsRequest(base, desired);
    var settings := if c.Settings() then [put] else [];
    var policies := UpdatePolicySteps(base, fetched, c, desired);
    var variables := if c.variables then VariableRequests(base, existing.variables, desired.variables) else [];
    var rules := if c.protectionRules then RuleRequests(base, existing.protectionRules, desired.protectionRules) else [];
    var tail := if policies.completed then variables + rules else [];
    assert UpdateSteps(repo, existing, desired, c, fetched).requests == settings + policies.requests + tail;
    UpdatePolicyStepsInPhase(base, fetched, c, desired);
    if policies.completed {
      TailPhases(base, existing, desired, c);
      PartsFollowChanges(settings, policies.requests, tail, variables, rules, c, put);
    } else {
      PartsFollowChanges(settings, policies.requests, tail, [], [], c, put);
    }
  }

  /** The variable requests of `update` lie in phases 3-4 and exist only when the variables
      changed; the rule requests lie in phases 5-6 and exist only when the rules changed. */
  lemma TailPhases(base: Params, existing: Settings, desired: Settings, c: ChangeSet)
    ensures var v := if c.variables then VariableRequests(base, existing.variables, desired.variables) else [];
            InPhases(v, 3, 4) && (v != [] ==> c.variables)
    ensures var d := if c.protectionRules then RuleRequests(base, existing.protectionRules, desired.protectionRules) else [];
            InPhases(d, 5, 6) && (d != [] ==> c.protectionRules)
  {
    VariableRequestsOrdered(base, existing.variables, desired.variables);
    RuleRequestsOrdered(base, existing.protectionRules, desired.protectionRules);
  }

  /** Each step of `update` is issued only when its flag says the field changed: one PUT, first,
      exactly when a settings field changed; branch-policy calls only when the branch policy
      changed; variable calls only when the variables changed; rule calls only when the rules changed. */
  lemma UpdateFollowsChanges(repo: Repo, existing: Settings, attrs: Entry, fetched: seq<PolicyRecord>)
    ensures FollowsChanges(UpdatePlan(repo, existing, attrs, fetched).requests, GetChanged(existing, attrs),
                           UpdateSettingsRequest(BaseParams(repo, attrs.name), Fill(attrs)))
  {
    StepsFollowChanges(repo, existing, Fill(attrs), GetChanged(existing, attrs), fetched);
  }

  /** Only the PUT and POST routes. */
  predicate CreatesOnly(reqs: seq<Request>)
  {
    forall i :: 0 <= i < |reqs| ==> reqs[i].route in {PutEnvironment, PostPolicy, PostVariable, PostRule}
  }

  lemma CreatesOnlyConcat(a: seq<Request>, b: seq<Request>)
    requires CreatesOnly(a) && CreatesOnly(b)
    ensures CreatesOnly(a + b)
  {
    forall i | 0 <= i < |a + b| ensures (a + b)[i].route in {PutEnvironment, PostPolicy, PostVariable, PostRule} {
      if i < |a| { assert (a + b)[i] == a[i]; } else { assert (a + b)[i] == b[i - |a|]; }
    }
  }

  lemma AddListsCreate(base: Params, custom: CustomPolicies, vs: seq<Variable>, rs: seq<ProtectionRule>)
    ensures CreatesOnly(AddPolicies(base, custom).requests)
    ensures CreatesOnly(AddVariablePosts(base, vs))
    ensures CreatesOnly(AddRulePosts(base, rs))
  {
  }

  /** The parts of `add`'s requests: the PUT, the policy POSTs, and, unless those threw, the
      variable and rule POSTs. */
  lemma AddParts(repo: Repo, attrs: Entry)
    ensures var base := BaseParams(repo, attrs.name);
            var policies := if attrs.branchPolicy.Some? && attrs.branchPolicy.value.custom.Truthy()
                            then AddPolicies(base, attrs.branchPolicy.value.custom) else Plan([], true);
            var vs := if attrs.variables.Some? then attrs.variables.value else [];
            var rs := if attrs.protectionRules.Some? then attrs.protectionRules.value else [];
            AddPlan(repo, attrs)
            == Plan([AddSettingsRequest(base, attrs)] + policies.requests
                    + (if policies.completed then AddVariablePosts(base, vs) + AddRulePosts(base, rs) else []),
                    policies.completed)
  {
  }

  lemma AddPostsInPhase(base: Params, vs: seq<Variable>, rs: seq<ProtectionRule>)
    ensures PhasesOrdered(AddVariablePosts(base, vs) + AddRulePosts(base, rs))
    ensures InPhases(AddVariablePosts(base, vs) + AddRulePosts(base, rs), 3, 6)
  {
    SinglePhase(AddVariablePosts(base, vs), 3);
    SinglePhase(AddRulePosts(base, rs), 5);
    OrderedConcat(AddVariablePosts(base, vs), AddRulePosts(base, rs), 3, 3, 6);
  }

  lemma AddPlanOrdered(repo: Repo, attrs: Entry)
    ensures PhasesOrdered(AddPlan(repo, attrs).requests)
  {
    var base := BaseParams(repo, attrs.name);
    var policies := if attrs.branchPolicy.Some? && attrs.branchPolicy.value.custom.Truthy()
                    then AddPolicies(base, attrs.branchPolicy.value.custom) else Plan([], true);
    var vs := if attrs.variables.Some? then attrs.variables.value else [];
    var rs := if attrs.protectionRules.Some? then attrs.protectionRules.value else [];
    var tail := if policies.completed then AddVariablePosts(base, vs) + AddRulePosts(base, rs) else [];
    AddParts(repo, attrs);
    if attrs.branchPolicy.Some? && attrs.branchPolicy.value.custom.Truthy() {
      PolicyStepsInPhase(base, [], attrs.branchPolicy.value.custom);
    }
    assert PhasesOrdered(policies.requests) && InPhases(policies.requests, 1, 2);
    AddPostsInPhase(base, vs, rs);
    assert PhasesOrdered(tail) && InPhases(tail, 3, 6);
    ThreePartsOrdered([AddSettingsRequest(base, attrs)], policies.requests, tail);
  }

  lemma AddPlanCreatesOnly(repo: Repo, attrs: Entry)
    ensures CreatesOnly(AddPlan(repo, attrs).requests)
  {
    var base := BaseParams(repo, attrs.name);
    var policies := if attrs.branchPolicy.Some? && attrs.branchPolicy.value.custom.Truthy()
                    then AddPolicies(base, attrs.branchPolicy.value.custom) else Plan([], true);
    var vs := if attrs.variables.Some? then attrs.variables.value else [];
    var rs := if attrs.protectionRules.Some? then attrs.protectionRules.value else [];
    AddParts(repo, attrs);
    AddListsCreate(base, if attrs.branchPolicy.Some? then attrs.branchPolicy.value.custom else Flag(false), vs, rs);
    CreatesOnlyConcat([AddSettingsRequest(base, attrs)], policies.requests);
    CreatesOnlyConcat(AddVariablePosts(base, vs), AddRulePosts(base, rs));
    CreatesOnlyConcat([AddSettingsRequest(base, attrs)] + policies.requests,
                      if policies.completed then AddVariablePosts(base, vs) + AddRulePosts(base, rs) else []);
  }

  /** `add` issues the PUT first, then policies, variables and rules in that order, and it
      never patches or deletes anything. */
  lemma AddStepsInOrder(repo: Repo, attrs: Entry)
    ensures var p := AddPlan(repo, attrs);
            && PhasesOrdered(p.requests)
            && |p.requests| >= 1 && p.requests[0] == AddSettingsRequest(BaseParams(repo, attrs.name), attrs)
            && CreatesOnly(p.requests)
  {
    AddPlanOrdered(repo, attrs);
    AddPlanCreatesOnly(repo, attrs);
    AddParts(repo, attrs);
  }

  /** A completed `add` issues one request per desired element plus the PUT; it stops early
      exactly when `custom_branch_policies` is the flag `true`. */
  lemma AddPlanSize(repo: Repo, attrs: Entry)
    ensures var p := AddPlan(repo, attrs);
            p.completed ==>
              |p.requests| == 1
                + (if attrs.branchPolicy.Some? && attrs.branchPolicy.value.custom.Patterns? then |attrs.branchPolicy.value.custom.items| else 0)
                + (if attrs.variables.Some? then |attrs.variables.value| else 0)
                + (if attrs.protectionRules.Some? then |attrs.protectionRules.value| else 0)
    ensures !AddPlan(repo, attrs).completed <==> attrs.branchPolicy.Some? && attrs.branchPolicy.value.custom == Flag(true)
  {
  }

  /** The two code paths post a branch policy's name differently: `update` sends the policy
      object as the name, `add` sends its `name` string. */
  lemma PolicyNameDiffers(base: Params, p: PolicyPattern)
    ensures UpdatePolicyPost(base, p).route == AddPolicyPost(base, p).route
    ensures UpdatePolicyPost(base, p) != AddPolicyPost(base, p)
  {
    assert UpdatePolicyPost(base, p).params[|base|] != AddPolicyPost(base, p).params[|base|];
  }
}
