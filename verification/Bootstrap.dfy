/** Reconciliation of the registry with a catalog: what one run does, request by request. */
module Bootstrap {
  import opened Prelude
  import opened Catalog
  import opened Manifests
  import opened AgentStore

  datatype BootstrapError =
    | TokenRequired
    | RequestFailed
    | ContractDrift(code: string)
    | NoActiveVersion(code: string)
    | ManifestDrift(code: string)

  /** What a run is configured with. `digest` is the store's digest of a manifest. */
  datatype Settings = Settings(accessToken: string, demoAgentUrl: string, digest: Manifest -> string)

  datatype Outcome = Outcome(world: World, error: Option<BootstrapError>)

  predicate SameContract(existing: FunctionContract, expected: FunctionContract) {
    && existing.contractVersion == expected.contractVersion
    && existing.name == expected.name && existing.description == expected.description
    && existing.responseFormat == expected.responseFormat
    && existing.inputSchema == expected.inputSchema && existing.outputSchema == expected.outputSchema
  }

  /** The first active version with the wanted semantic version; zero if there is none. */
  function ActiveVersionId(s: Store, ids: seq<VersionId>, semver: string): VersionId {
    if ids == [] then 0
    else if ids[0] in s.versions && s.versions[ids[0]].status == "ACTIVE" && s.versions[ids[0]].semver == semver then
      ids[0]
    else ActiveVersionId(s, ids[1..], semver)
  }

  /** The contract loop, against the contracts listed at the start. */
  function ReconcileContracts(w: World, listed: map<ContractKey, FunctionContract>, cs: seq<FunctionContract>,
        network: Network): Outcome
    decreases |cs|
  {
    if cs == [] then Outcome(w, None)
    else
      var c := cs[0];
      if KeyOf(c) in listed then
        if SameContract(listed[KeyOf(c)], c) then ReconcileContracts(w, listed, cs[1..], network)
        else Outcome(w, Some(ContractDrift(c.code)))
      else
        var w' := Deliver(w, CreateContract(c), network);
        if Answered(w, CreateContract(c), network) then ReconcileContracts(w', listed, cs[1..], network)
        else Outcome(w', Some(RequestFailed))
  }

  /** Import and publish of an agent that was not found. */
  function Publish(w: World, m: Manifest, network: Network): Outcome {
    var id := w.store.nextId;
    var w1 := Deliver(w, ImportManifest(m), network);
    if !Answered(w, ImportManifest(m), network) then Outcome(w1, Some(RequestFailed))
    else
      var w2 := Deliver(w1, PublishVersion(id), network);
      if !Answered(w1, PublishVersion(id), network) then Outcome(w2, Some(RequestFailed)) else Outcome(w2, None)
  }

  /** Comparison of an agent that was found. */
  function Compare(w: World, source: Catalog, a: Definition, m: Manifest, settings: Settings,
        network: Network): Outcome
  {
    var id := ActiveVersionId(w.store, VersionsOf(w.store, a.code), source.agentVersion);
    if id == 0 then Outcome(w, Some(NoActiveVersion(a.code)))
    else
      var w' := Deliver(w, ExportManifest(id), network);
      if !Answered(w, ExportManifest(id), network) then Outcome(w', Some(RequestFailed))
      else if settings.digest(w.store.versions[id].manifest) != settings.digest(m) then
        Outcome(w', Some(ManifestDrift(a.code)))
      else Outcome(w', None)
  }

  function ReconcileAgent(w: World, source: Catalog, a: Definition, settings: Settings, network: Network): Outcome {
    var m := Render(source, a, settings.demoAgentUrl);
    var w1 := Deliver(w, ValidateManifest(m), network);
    if !Answered(w, ValidateManifest(m), network) then Outcome(w1, Some(RequestFailed))
    else
      var w2 := Deliver(w1, GetAgent(a.code), network);
      if !Answered(w1, GetAgent(a.code), network) then Outcome(w2, Some(RequestFailed))
      else if a.code !in w2.store.agents then Publish(w2, m, network)
      else Compare(w2, source, a, m, settings, network)
  }

  function ReconcileAgents(w: World, source: Catalog, agents: seq<Definition>, settings: Settings,
        network: Network): Outcome
    decreases |agents|
  {
    if agents == [] then Outcome(w, None)
    else
      var first := ReconcileAgent(w, source, agents[0], settings, network);
      if first.error.Some? then first else ReconcileAgents(first.world, source, agents[1..], settings, network)
  }

  /** The two loops of a run, after the contracts have been listed. */
  function Reconcile(w: World, listed: map<ContractKey, FunctionContract>, source: Catalog, settings: Settings,
        network: Network): Outcome
  {
    var contracts := ReconcileContracts(w, listed, source.functionContracts, network);
    if contracts.error.Some? then contracts
    else ReconcileAgents(contracts.world, source, source.agents, settings, network)
  }

  /** One run. It stops at the first error. */
  function Run(w: World, source: Catalog, settings: Settings, network: Network): Outcome {
    if settings.accessToken == "" then Outcome(w, Some(TokenRequired))
    else
      var w1 := Deliver(w, ListContracts, network);
      if !Answered(w, ListContracts, network) then Outcome(w1, Some(RequestFailed))
      else Reconcile(w1, w.store.contracts, source, settings, network)
  }
}
