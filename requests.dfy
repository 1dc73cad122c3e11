/** Mutating requests against the remote API and the dry-run command that stands for one
    (lib/plugins/environments.js:22-31). The NopCommand class itself (lib/nopcommand) is not
    part of this model; only the fields the adapter passes to it are kept. */
module Requests {
  import opened Seqs

  /** A JSON value, as carried in request parameters. */
  datatype Json =
    | JNull
    | JBool(b: bool)
    | JNum(n: int)
    | JStr(s: string)
    | JArr(items: seq<Json>)
    | JObj(fields: seq<(string, Json)>)

  /** Request parameters: path placeholders and body fields, in the order the source writes them.
      A field whose value is `undefined` in the source is simply absent. */
  type Params = seq<(string, Json)>

  /** The repository the plugin works on (`this.repo`). */
  datatype Repo = Repo(owner: string, repo: string)

  /** The method-and-path templates of the mutating calls the adapter makes. */
  datatype Route =
    | PutEnvironment
    | DeleteEnvironment
    | DeletePolicy
    | PostPolicy
    | PatchVariable
    | PostVariable
    | DeleteVariable
    | PostRule
    | DeleteRule
  {
    /** The template string passed to the request call and shown as the dry-run url. */
    function Path(): string
    {
      match this
      case PutEnvironment => "PUT /repos/:org/:repo/environments/:environment_name"
      case DeleteEnvironment => "DELETE /repos/:org/:repo/environments/:environment_name"
      case DeletePolicy => "DELETE /repos/:org/:repo/environments/:environment_name/deployment-branch-policies/:branch_policy_id"
      case PostPolicy => "POST /repos/:org/:repo/environments/:environment_name/deployment-branch-policies"
      case PatchVariable => "PATCH /repos/:org/:repo/environments/:environment_name/variables/:variable_name"
      case PostVariable => "POST /repos/:org/:repo/environments/:environment_name/variables"
      case DeleteVariable => "DELETE /repos/:org/:repo/environments/:environment_name/variables/:variable_name"
      case PostRule => "POST /repos/:org/:repo/environments/:environment_name/deployment_protection_rules"
      case DeleteRule => "DELETE /repos/:org/:repo/environments/:environment_name/deployment_protection_rules/:rule_id"
    }
  }

  /** One mutating call: its route, its parameters, and the human description passed alongside. */
  datatype Request = Request(route: Route, params: Params, description: string)

  /** `{url, body: options}` as built in `nopifyRequest`; the url is `route.Path()`. */
  datatype Endpoint = Endpoint(route: Route, body: Params)

  /** `Normal` is the default type of a NopCommand; `Error` is the `'ERROR'` type. */
  datatype Severity = Normal | Error

  datatype NopCommand = NopCommand(
    plugin: string,
    repo: Repo,
    endpoint: Option<Endpoint>,
    description: string,
    severity: Severity)

  /** `this.constructor.name` for this plugin. */
  const PluginName: string := "Environments"

  /** The one NopCommand that `nopifyRequest` returns in dry-run mode for `req`. */
  function DryRunCommand(repo: Repo, req: Request): (c: NopCommand)
    ensures c.plugin == PluginName && c.repo == repo && c.severity == Normal
    ensures RequestOf(c) == Some(req)
  {
    NopCommand(PluginName, repo, Some(Endpoint(req.route, req.params)), req.description, Normal)
  }

  /** Recovers the call a dry-run command describes; an error command describes none. */
  function RequestOf(c: NopCommand): Option<Request>
  {
    match c.endpoint
    case None => None
    case Some(e) => Some(Request(e.route, e.body, c.description))
  }

  /** The dry-run commands for a sequence of calls, one per call, in order. */
  function DryRunCommands(repo: Repo, reqs: seq<Request>): seq<NopCommand>
  {
    if reqs == [] then []
    else DryRunCommands(repo, reqs[..|reqs| - 1]) + [DryRunCommand(repo, reqs[|reqs| - 1])]
  }

  /** The commands for two batches of calls are the commands of each batch, in order. */
  lemma {:induction false} DryRunCommandsAppend(repo: Repo, a: seq<Request>, b: seq<Request>)
    ensures DryRunCommands(repo, a + b) == DryRunCommands(repo, a) + DryRunCommands(repo, b)
  {
    if b == [] {
      assert a + b == a;
    } else {
      var k := |b| - 1;
      assert (a + b)[..|a + b| - 1] == a + b[..k];
      DryRunCommandsAppend(repo, a, b[..k]);
    }
  }

  /** Every command for a batch of calls is a normal command of this plugin and repository. */
  lemma {:induction false} DryRunCommandsNormal(repo: Repo, reqs: seq<Request>)
    ensures |DryRunCommands(repo, reqs)| == |reqs|
    ensures forall c :: c in DryRunCommands(repo, reqs) ==> c.severity == Normal && c.repo == repo && c.plugin == PluginName
  {
    if reqs != [] {
      DryRunCommandsNormal(repo, reqs[..|reqs| - 1]);
    }
  }

  /** The requests recovered from a sequence of commands (error commands are skipped). */
  function Described(cs: seq<NopCommand>): seq<Request>
  {
    if cs == [] then []
    else
      var last := cs[|cs| - 1];
      Described(cs[..|cs| - 1]) + (match RequestOf(last) case None => [] case Some(r) => [r])
  }

  /** Dry-run fidelity: the commands emitted in dry-run mode describe exactly the calls the
      live path makes, in the same order, with nothing added or dropped. */
  lemma {:induction false} DryRunFaithful(repo: Repo, reqs: seq<Request>)
    ensures Described(DryRunCommands(repo, reqs)) == reqs
  {
    if reqs != [] {
      var k := |reqs| - 1;
      var cs := DryRunCommands(repo, reqs);
      assert cs[..|cs| - 1] == DryRunCommands(repo, reqs[..k]);
      DryRunFaithful(repo, reqs[..k]);
      assert RequestOf(cs[|cs| - 1]) == Some(reqs[k]);
    }
  }

  /** The `'ERROR'` command `sync` appends when a dry run fails for a reason other than 404
      (line 377). The source's description also embeds `JSON.stringify` of the repository
      and of the entries; that rendering is not modelled. */
  function ErrorCommand(repo: Repo, message: string): (c: NopCommand)
    ensures c.severity == Error && c.endpoint.None? && RequestOf(c).None?
    ensures c.plugin == PluginName && c.repo == repo
  {
    NopCommand(PluginName, repo, None, "error " + message + " in " + PluginName, Error)
  }
}
