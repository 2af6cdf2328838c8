/** Which requests a run sends, and in which order. */
module BootstrapRequests {
  import opened Prelude
  import opened Catalog
  import opened Manifests
  import opened AgentStore
  import opened Bootstrap
  import opened BootstrapProperties

  /** A request for each contract of the catalog that was not listed under its code and version. */
  function ContractRequests(listed: map<ContractKey, FunctionContract>, cs: seq<FunctionContract>): seq<Request> {
    if cs == [] then []
    else
      (if ContractKey(cs[0].code, cs[0].contractVersion) in listed then [] else [CreateContract(cs[0])])
        + ContractRequests(listed, cs[1..])
  }

  /** For an agent found in `s`: validate, look up, export the first active version. For one that is not:
      validate, look up, import, publish the new version. */
  function AgentRequests(s: Store, source: Catalog, a: Definition, settings: Settings, newId: VersionId): seq<Request> {
    var m := Render(source, a, settings.demoAgentUrl);
    [ValidateManifest(m), GetAgent(a.code)]
      + if a.code in s.agents then [ExportManifest(ActiveVersionId(s, s.agents[a.code], source.agentVersion))]
        else [ImportManifest(m), PublishVersion(newId)]
  }

  /** For all agents in order; each agent that is not found takes one identifier. */
  function AgentsRequests(s: Store, source: Catalog, agents: seq<Definition>, settings: Settings, newId: VersionId):
    seq<Request>
  {
    if agents == [] then []
    else
      AgentRequests(s, source, agents[0], settings, newId)
        + AgentsRequests(s, source, agents[1..], settings, if agents[0].code in s.agents then newId else newId + 1)
  }

  /** The log was extended by a beginning of `requests`, and by all of them on success. */
  ghost predicate Sends(w: World, out: Outcome, requests: seq<Request>) {
    && w.log <= out.world.log <= w.log + requests
    && (out.error.None? ==> out.world.log == w.log + requests)
  }

  lemma SendsMore(w: World, first: Outcome, out: Outcome, requests: seq<Request>, more: seq<Request>)
    requires Sends(w, first, requests)
    requires if first.error.Some? then out == first else Sends(first.world, out, more)
    ensures Sends(w, out, requests + more)
  {
    if first.error.Some? {
      assert w.log + requests <= w.log + (requests + more);
    } else {
      assert (w.log + requests) + more == w.log + (requests + more);
    }
  }

  /** The outcome of a single request. */
  function Asked(w: World, r: Request, network: Network): Outcome {
    Outcome(Deliver(w, r, network), if Answered(w, r, network) then None else Some(RequestFailed))
  }

  lemma AskedSends(w: World, r: Request, network: Network)
    ensures Sends(w, Asked(w, r, network), [r])
  {
  }

  lemma {:induction false} ContractsSend(w: World, listed: map<ContractKey, FunctionContract>,
        cs: seq<FunctionContract>, network: Network)
    ensures Sends(w, ReconcileContracts(w, listed, cs, network), ContractRequests(listed, cs))
    decreases |cs|
  {
    if cs == [] {
    } else if KeyOf(cs[0]) in listed {
      ContractsSend(w, listed, cs[1..], network);
      assert ContractRequests(listed, cs) == [] + ContractRequests(listed, cs[1..]);
    } else {
      var first := Asked(w, CreateContract(cs[0]), network);
      AskedSends(w, CreateContract(cs[0]), network);
      ContractsSend(first.world, listed, cs[1..], network);
      SendsMore(w, first, ReconcileContracts(w, listed, cs, network), [CreateContract(cs[0])],
        ContractRequests(listed, cs[1..]));
    }
  }

  lemma PublishSends(w: World, m: Manifest, network: Network)
    requires ValidStore(w.store)
    ensures Sends(w, Publish(w, m, network), [ImportManifest(m), PublishVersion(w.store.nextId)])
    ensures Publish(w, m, network).error.None? ==> Publish(w, m, network).world.store.nextId == w.store.nextId + 1
  {
  }

  lemma AgentSends(w: World, source: Catalog, a: Definition, settings: Settings, network: Network)
    requires ValidStore(w.store)
    ensures var out := ReconcileAgent(w, source, a, settings, network);
      && Sends(w, out, AgentRequests(w.store, source, a, settings, w.store.nextId))
      && (out.error.None? ==>
            out.world.store.nextId == if a.code in w.store.agents then w.store.nextId else w.store.nextId + 1)
  {
    var m := Render(source, a, settings.demoAgentUrl);
    var w2 := Deliver(Deliver(w, ValidateManifest(m), network), GetAgent(a.code), network);
    assert w2.log == w.log + [ValidateManifest(m), GetAgent(a.code)];
    if a.code !in w.store.agents {
      PublishSends(w2, m, network);
    }
  }

  /** What an agent is asked is settled by the registry as the run found it. */
  lemma RequestsSettled(s: Store, s': Store, source: Catalog, a: Definition, settings: Settings, newId: VersionId)
    requires ValidStore(s) && Preserves(s, s') && (a.code in s'.agents ==> a.code in s.agents)
    ensures AgentRequests(s', source, a, settings, newId) == AgentRequests(s, source, a, settings, newId)
  {
    if a.code in s.agents {
      ActiveVersionPreserved(s, s', s.agents[a.code], source.agentVersion);
    }
  }

  lemma {:induction false} AgentsSend(s: Store, w: World, source: Catalog, agents: seq<Definition>,
        settings: Settings, network: Network)
    requires ValidStore(s) && ValidStore(w.store) && Preserves(s, w.store) && DistinctAgents(agents)
    requires forall i | 0 <= i < |agents| && agents[i].code in w.store.agents :: agents[i].code in s.agents
    ensures Sends(w, ReconcileAgents(w, source, agents, settings, network),
              AgentsRequests(s, source, agents, settings, w.store.nextId))
    decreases |agents|
  {
    if agents == [] {
    } else {
      var first := ReconcileAgent(w, source, agents[0], settings, network);
      AgentSends(w, source, agents[0], settings, network);
      AgentPreserves(w, source, agents[0], settings, network);
      RequestsSettled(s, w.store, source, agents[0], settings, w.store.nextId);
      PreservesTwice(s, w.store, first.world.store);
      if first.error.None? {
        AgentsSend(s, first.world, source, agents[1..], settings, network);
      }
      var newId := if agents[0].code in s.agents then w.store.nextId else w.store.nextId + 1;
      SendsMore(w, first, ReconcileAgents(w, source, agents, settings, network),
        AgentRequests(s, source, agents[0], settings, w.store.nextId),
        AgentsRequests(s, source, agents[1..], settings, newId));
    }
  }

  /** All requests of a run that is never stopped, from the registry it finds. */
  function RunRequests(s: Store, source: Catalog, settings: Settings): seq<Request> {
    [ListContracts] + ContractRequests(s.contracts, source.functionContracts)
      + AgentsRequests(s, source, source.agents, settings, s.nextId)
  }

  lemma ContractsTakeNoId(w: World, listed: map<ContractKey, FunctionContract>, cs: seq<FunctionContract>,
        network: Network)
    ensures ReconcileContracts(w, listed, cs, network).world.store.nextId == w.store.nextId
    decreases |cs|
  {
    if cs == [] {
    } else {
      var w' := if KeyOf(cs[0]) in listed then w else Deliver(w, CreateContract(cs[0]), network);
      ContractsTakeNoId(w', listed, cs[1..], network);
    }
  }

  /** The registry that a run finds settles what it sends: the listing, the missing contracts in the
      catalog's order, then each agent's requests in the catalog's order. Faults and differences only cut
      the list short; a success sends all of it. */
  lemma RunSends(w: World, source: Catalog, settings: Settings, network: Network)
    requires ValidStore(w.store) && DistinctAgents(source.agents)
    ensures Sends(w, Run(w, source, settings, network), RunRequests(w.store, source, settings))
  {
    if settings.accessToken != "" {
      var listed := Deliver(w, ListContracts, network);
      var answered := Asked(w, ListContracts, network);
      AskedSends(w, ListContracts, network);
      var contracts := ReconcileContracts(listed, w.store.contracts, source.functionContracts, network);
      var run := Reconcile(listed, w.store.contracts, source, settings, network);
      ContractsSend(listed, w.store.contracts, source.functionContracts, network);
      ContractsPreserve(w.store, listed, source.functionContracts, network);
      ContractsTakeNoId(listed, w.store.contracts, source.functionContracts, network);
      AgentsSend(w.store, contracts.world, source, source.agents, settings, network);
      var creates := ContractRequests(w.store.contracts, source.functionContracts);
      var asks := AgentsRequests(w.store, source, source.agents, settings, w.store.nextId);
      SendsMore(listed, contracts, run, creates, asks);
      SendsMore(w, answered, Run(w, source, settings, network), [ListContracts], creates + asks);
      assert [ListContracts] + (creates + asks) == [ListContracts] + creates + asks;
    } else {
      assert w.log <= w.log + RunRequests(w.store, source, settings);
    }
  }
}
