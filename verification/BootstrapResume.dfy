/** From any registry: which interrupted runs can be resumed. A registry is compatible when a run without
    faults would succeed on it; these lemmas say exactly which runs destroy that. */
module BootstrapResume {
  import opened Catalog
  import opened Manifests
  import opened AgentStore
  import opened Bootstrap
  import opened BootstrapProperties
  import opened BootstrapPlan

  // ---------- contracts ----------

  /** Every contract after the loop was there before, or is one of the catalog's. */
  lemma {:induction false} ContractsComeFrom(w: World, listed: map<ContractKey, FunctionContract>,
        cs: seq<FunctionContract>, network: Network, key: ContractKey)
    ensures var s' := ReconcileContracts(w, listed, cs, network).world.store;
      key in s'.contracts ==>
        || (key in w.store.contracts && s'.contracts[key] == w.store.contracts[key])
        || exists i | 0 <= i < |cs| :: KeyOf(cs[i]) == key && s'.contracts[key] == cs[i]
    decreases |cs|
  {
    if cs == [] {
    } else {
      var w' := if KeyOf(cs[0]) in listed then w else Deliver(w, CreateContract(cs[0]), network);
      ContractsComeFrom(w', listed, cs[1..], network, key);
      assert forall i | 0 <= i < |cs| - 1 :: cs[1..][i] == cs[i + 1];
    }
  }

  /** The contract loop neither finds nor makes a difference that was not there. */
  lemma ContractsStayCompatible(w: World, cs: seq<FunctionContract>, network: Network)
    requires ValidStore(w.store) && DistinctKeys(cs)
    ensures ContractsCompatible(ReconcileContracts(w, w.store.contracts, cs, network).world.store, cs)
       <==> ContractsCompatible(w.store, cs)
  {
    var s' := ReconcileContracts(w, w.store.contracts, cs, network).world.store;
    ContractsPreserve(w.store, w, cs, network);
    forall i | 0 <= i < |cs| && KeyOf(cs[i]) in s'.contracts
      ensures s'.contracts[KeyOf(cs[i])] == cs[i]
           || (KeyOf(cs[i]) in w.store.contracts && s'.contracts[KeyOf(cs[i])] == w.store.contracts[KeyOf(cs[i])])
    {
      ContractsComeFrom(w, w.store.contracts, cs, network, KeyOf(cs[i]));
    }
  }

  // ---------- agents ----------

  lemma PublishedIsCompatible(w: World, source: Catalog, a: Definition, settings: Settings, network: Network)
    requires ValidStore(w.store) && a.code !in w.store.agents
    ensures var out := Publish(w, Render(source, a, settings.demoAgentUrl), network);
      && (AgentCompatible(out.world.store, source, a, settings) <==> !LeavesDraft(out.world, network))
      && (out.error.None? ==> a.code in out.world.store.agents && !LeavesDraft(out.world, network))
  {
    var s' := Publish(w, Render(source, a, settings.demoAgentUrl), network).world.store;
    PublishOutcomes(w, source, a, settings, network);
    if Has(s', a, "DRAFT", source, settings) {
      DraftIsNotActive(s', a, source, settings);
    } else if Has(s', a, "ACTIVE", source, settings) {
      ActiveIsCurrent(s', a, source, settings);
    }
  }

  /** Handling an agent keeps it compatible unless it leaves a draft, and never repairs it. */
  lemma HandledAgentIsCompatible(w: World, source: Catalog, a: Definition, settings: Settings, network: Network)
    requires ValidStore(w.store)
    ensures var out := ReconcileAgent(w, source, a, settings, network);
      && (AgentCompatible(out.world.store, source, a, settings) <==>
            AgentCompatible(w.store, source, a, settings) && !LeavesDraft(out.world, network))
      && (out.error.None? ==> a.code in out.world.store.agents && !LeavesDraft(out.world, network))
  {
    if a.code in w.store.agents {
      AgentOutcomes(w, source, a, settings, network);
      FoundAgentIsOnlyRead(w, source, settings, network, a);
    } else {
      var m := Render(source, a, settings.demoAgentUrl);
      AbsentAgentCases(w, source, a, settings, network);
      PublishedIsCompatible(Deliver(Deliver(w, ValidateManifest(m), network), GetAgent(a.code), network),
        source, a, settings, network);
    }
  }

  /** The agent loop destroys compatibility exactly when it leaves a draft. */
  lemma {:induction false} AgentsStayCompatible(w: World, source: Catalog, agents: seq<Definition>,
        settings: Settings, network: Network)
    requires ValidStore(w.store) && DistinctAgents(agents) && !LeavesDraft(w, network)
    ensures var out := ReconcileAgents(w, source, agents, settings, network);
      AgentsCompatible(out.world.store, source, agents, settings) <==>
        AgentsCompatible(w.store, source, agents, settings) && !LeavesDraft(out.world, network)
    decreases |agents|
  {
    if agents == [] {
    } else {
      var first := ReconcileAgent(w, source, agents[0], settings, network);
      var out := ReconcileAgents(w, source, agents, settings, network);
      HandledAgentIsCompatible(w, source, agents[0], settings, network);
      OthersJudgedAlike(w, source, agents, settings, network);
      AgentsCompatibleStep(w.store, source, agents, settings);
      AgentsCompatibleStep(out.world.store, source, agents, settings);
      if first.error.None? {
        AgentPreserves(w, source, agents[0], settings, network);
        AgentsStayCompatible(first.world, source, agents[1..], settings, network);
        AgentsPreserve(first.world, source, agents[1..], settings, network);
        JudgedAlike(first.world.store, out.world.store, source, agents[0], settings);
      }
    }
  }

  // ---------- runs ----------

  lemma ReconcileStaysCompatible(w: World, source: Catalog, settings: Settings, network: Network)
    requires ValidStore(w.store) && !LeavesDraft(w, network)
    requires DistinctKeys(source.functionContracts) && DistinctAgents(source.agents)
    ensures var out := Reconcile(w, w.store.contracts, source, settings, network);
      Compatible(out.world.store, source, settings) <==>
        Compatible(w.store, source, settings) && !LeavesDraft(out.world, network)
  {
    var contracts := ReconcileContracts(w, w.store.contracts, source.functionContracts, network);
    var out := Reconcile(w, w.store.contracts, source, settings, network);
    ContractsPreserve(w.store, w, source.functionContracts, network);
    ContractsStayCompatible(w, source.functionContracts, network);
    ContractsLeaveNoDraft(w, w.store.contracts, source.functionContracts, network);
    AgentsJudgedByVersions(w.store, contracts.world.store, source, source.agents, settings);
    AgentsStayCompatible(contracts.world, source, source.agents, settings, network);
    AgentsPreserve(contracts.world, source, source.agents, settings, network);
  }

  /** From any registry and under any faults, a run keeps the registry compatible exactly when it was
      and the run's last request was not an import whose answer was lost or a publish that was lost. */
  lemma RunStaysCompatibleIff(w: World, source: Catalog, settings: Settings, network: Network)
    requires ValidStore(w.store) && w.log == []
    requires DistinctKeys(source.functionContracts) && DistinctAgents(source.agents)
    ensures var out := Run(w, source, settings, network);
      Compatible(out.world.store, source, settings) <==>
        Compatible(w.store, source, settings) && !LeavesDraft(out.world, network)
  {
    if settings.accessToken != "" && Answered(w, ListContracts, network) {
      ReconcileStaysCompatible(Deliver(w, ListContracts, network), source, settings, network);
    }
  }

  lemma {:induction false} RunsStayCompatibleIff(s: Store, source: Catalog, settings: Settings, networks: seq<Network>)
    requires ValidStore(s) && DistinctKeys(source.functionContracts) && DistinctAgents(source.agents)
    ensures Compatible(StoreAfter(s, source, settings, networks), source, settings) <==>
              && Compatible(s, source, settings)
              && !exists i: nat | i < |networks| :: RunLeavesDraft(s, source, settings, networks, i)
  {
    if networks == [] {
    } else {
      var n := |networks| - 1;
      var before := StoreAfter(s, source, settings, networks[..n]);
      RunsStayCompatibleIff(s, source, settings, networks[..n]);
      RunsPreserve(s, source, settings, networks[..n]);
      RunStaysCompatibleIff(World(before, []), source, settings, networks[n]);
      DraftLeftByPrefixOrLast(s, source, settings, networks);
    }
  }

  /** From any registry, after any runs under any faults, a run without faults succeeds exactly when
      nothing found at the start differed and none of those runs left a draft. */
  lemma ResumeSucceedsIff(s: Store, source: Catalog, settings: Settings, networks: seq<Network>, network: Network)
    requires ValidStore(s) && DistinctKeys(source.functionContracts) && DistinctAgents(source.agents)
    requires FaultFree(network) && settings.accessToken != ""
    ensures Run(World(StoreAfter(s, source, settings, networks), []), source, settings, network).error.None? <==>
              && Compatible(s, source, settings)
              && !exists i: nat | i < |networks| :: RunLeavesDraft(s, source, settings, networks, i)
  {
    RunsPreserve(s, source, settings, networks);
    RunsStayCompatibleIff(s, source, settings, networks);
    RunSucceedsIff(World(StoreAfter(s, source, settings, networks), []), source, settings, network);
  }
}
