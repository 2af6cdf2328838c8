/** What runs of the bootstrap guarantee about the registry, alone and in sequence. */
module BootstrapProperties {
  import opened Prelude
  import opened Catalog
  import opened Manifests
  import opened AgentStore
  import opened Bootstrap

  // ---------- nothing found is ever changed ----------

  /** Every contract, agent and version of `s` is in `s'` unchanged. */
  ghost predicate Preserves(s: Store, s': Store) {
    && (forall key | key in s.contracts :: key in s'.contracts && s'.contracts[key] == s.contracts[key])
    && (forall code | code in s.agents :: code in s'.agents && s'.agents[code] == s.agents[code])
    && (forall id | id in s.versions :: id in s'.versions && s'.versions[id] == s.versions[id])
    && s.nextId <= s'.nextId
  }

  lemma {:induction false} ContractsPreserve(s: Store, w: World, cs: seq<FunctionContract>, network: Network)
    requires ValidStore(s) && ValidStore(w.store) && Preserves(s, w.store)
    ensures var w' := ReconcileContracts(w, s.contracts, cs, network).world;
      && ValidStore(w'.store) && Preserves(s, w'.store)
      && w'.store.agents == w.store.agents && w'.store.versions == w.store.versions
    decreases |cs|
  {
    if cs == [] {
    } else {
      if KeyOf(cs[0]) !in s.contracts {
        EffectKeepsValid(w.store, CreateContract(cs[0]));
        ContractsPreserve(s, Deliver(w, CreateContract(cs[0]), network), cs[1..], network);
      } else {
        ContractsPreserve(s, w, cs[1..], network);
      }
    }
  }

  lemma ImportPreserves(s: Store, m: Manifest)
    requires ValidStore(s) && m.code !in s.agents
    ensures var s' := Effect(s, ImportManifest(m));
      && ValidStore(s') && Preserves(s, s') && s'.contracts == s.contracts
      && s'.agents.Keys == s.agents.Keys + {m.code} && s'.versions.Keys == s.versions.Keys + {s.nextId}
  {
    EffectKeepsValid(s, ImportManifest(m));
    assert s.nextId !in s.versions;
  }

  lemma PublishingPreserves(s: Store, s': Store, id: VersionId)
    requires ValidStore(s') && Preserves(s, s') && id !in s.versions
    ensures var s'' := Effect(s', PublishVersion(id));
      && ValidStore(s'') && Preserves(s, s'') && s''.contracts == s'.contracts
      && s''.agents == s'.agents && s''.versions.Keys == s'.versions.Keys
  {
    EffectKeepsValid(s', PublishVersion(id));
  }

  lemma PublishPreserves(w: World, m: Manifest, network: Network)
    requires ValidStore(w.store) && m.code !in w.store.agents
    ensures var s', id := Publish(w, m, network).world.store, w.store.nextId;
      && ValidStore(s') && Preserves(w.store, s') && s'.contracts == w.store.contracts
      && s'.agents.Keys <= w.store.agents.Keys + {m.code}
      && s'.versions.Keys <= w.store.versions.Keys + {id}
  {
    var id := w.store.nextId;
    assert id !in w.store.versions;
    ImportPreserves(w.store, m);
    PublishingPreserves(w.store, Effect(w.store, ImportManifest(m)), id);
  }

  /** Handling an agent either leaves the store alone or publishes an agent that was absent. */
  lemma AgentReadsOrPublishes(w: World, source: Catalog, a: Definition, settings: Settings, network: Network)
    ensures var m := Render(source, a, settings.demoAgentUrl);
      var w2 := Deliver(Deliver(w, ValidateManifest(m), network), GetAgent(a.code), network);
      var s' := ReconcileAgent(w, source, a, settings, network).world.store;
      && w2.store == w.store
      && (s' == w.store || (a.code !in w.store.agents && s' == Publish(w2, m, network).world.store))
  {
  }

  /** Handling one agent adds at most that agent, and at most one version, under the next identifier. */
  lemma AgentPreserves(w: World, source: Catalog, a: Definition, settings: Settings, network: Network)
    requires ValidStore(w.store)
    ensures var s' := ReconcileAgent(w, source, a, settings, network).world.store;
      && ValidStore(s') && Preserves(w.store, s') && s'.contracts == w.store.contracts
      && s'.agents.Keys <= w.store.agents.Keys + {a.code}
      && s'.versions.Keys <= w.store.versions.Keys + {w.store.nextId}
  {
    AgentReadsOrPublishes(w, source, a, settings, network);
    if a.code !in w.store.agents {
      var m := Render(source, a, settings.demoAgentUrl);
      PublishPreserves(Deliver(Deliver(w, ValidateManifest(m), network), GetAgent(a.code), network), m, network);
    }
  }

  lemma {:induction false} AgentsPreserve(w: World, source: Catalog, agents: seq<Definition>, settings: Settings,
        network: Network)
    requires ValidStore(w.store)
    ensures var s' := ReconcileAgents(w, source, agents, settings, network).world.store;
      ValidStore(s') && Preserves(w.store, s') && s'.contracts == w.store.contracts
    decreases |agents|
  {
    if agents == [] {
    } else {
      AgentPreserves(w, source, agents[0], settings, network);
      AgentsPreserve(ReconcileAgent(w, source, agents[0], settings, network).world, source, agents[1..], settings,
        network);
    }
  }

  lemma PreservesTwice(s: Store, s': Store, s'': Store)
    requires Preserves(s, s') && Preserves(s', s'')
    ensures Preserves(s, s'')
  {
  }

  lemma ReconcilePreserves(w: World, source: Catalog, settings: Settings, network: Network)
    requires ValidStore(w.store)
    ensures var s' := Reconcile(w, w.store.contracts, source, settings, network).world.store;
      ValidStore(s') && Preserves(w.store, s')
  {
    var contracts := ReconcileContracts(w, w.store.contracts, source.functionContracts, network);
    ContractsPreserve(w.store, w, source.functionContracts, network);
    if contracts.error.None? {
      AgentsPreserve(contracts.world, source, source.agents, settings, network);
      var agents := ReconcileAgents(contracts.world, source, source.agents, settings, network);
      PreservesTwice(w.store, contracts.world.store, agents.world.store);
    }
  }

  /** No run, successful or not, under any faults, changes a contract, an agent or a version it found. */
  lemma RunPreserves(w: World, source: Catalog, settings: Settings, network: Network)
    requires ValidStore(w.store)
    ensures var s' := Run(w, source, settings, network).world.store; ValidStore(s') && Preserves(w.store, s')
  {
    if settings.accessToken != "" && Answered(w, ListContracts, network) {
      ReconcilePreserves(Deliver(w, ListContracts, network), source, settings, network);
    }
  }

  // ---------- success means convergence ----------

  /** The search returns the first listed version that is active at the wanted semantic version, and
      zero when there is none. */
  lemma {:induction false} ActiveVersionIsFirst(s: Store, ids: seq<VersionId>, semver: string)
    requires ValidStore(s) && forall i | 0 <= i < |ids| :: ids[i] in s.versions
    ensures var found := ActiveVersionId(s, ids, semver);
      if found == 0 then forall i | 0 <= i < |ids| :: !ActiveAt(s.versions[ids[i]], semver)
      else exists i :: 0 <= i < |ids| && ids[i] == found && ActiveAt(s.versions[found], semver)
             && forall j | 0 <= j < i :: !ActiveAt(s.versions[ids[j]], semver)
  {
    if ids == [] {
    } else {
      assert ids[0] in s.versions;
      ActiveVersionIsFirst(s, ids[1..], semver);
      var found := ActiveVersionId(s, ids, semver);
      if !ActiveAt(s.versions[ids[0]], semver) && found != 0 {
        var k :| 0 <= k < |ids| - 1 && ids[1..][k] == found
          && (forall j | 0 <= j < k :: !ActiveAt(s.versions[ids[1..][j]], semver));
        assert ids[k + 1] == found;
        assert forall j | 1 <= j < k + 1 :: ids[j] == ids[1..][j - 1];
      } else if found == 0 {
        assert forall j | 1 <= j < |ids| :: ids[j] == ids[1..][j - 1];
      }
    }
  }

  predicate ActiveAt(v: Version, semver: string) {
    v.status == "ACTIVE" && v.semver == semver
  }

  /** The agent is present and its first active version at the catalog's semantic version has the
      digest of the catalog's manifest. */
  ghost predicate AgentCurrent(s: Store, source: Catalog, a: Definition, settings: Settings) {
    && a.code in s.agents
    && var id := ActiveVersionId(s, s.agents[a.code], source.agentVersion);
    && id in s.versions && id != 0
    && settings.digest(s.versions[id].manifest) == settings.digest(Render(source, a, settings.demoAgentUrl))
  }

  ghost predicate ContractCurrent(s: Store, c: FunctionContract) {
    KeyOf(c) in s.contracts && s.contracts[KeyOf(c)] == c
  }

  ghost predicate Converged(s: Store, source: Catalog, settings: Settings) {
    && (forall i | 0 <= i < |source.functionContracts| :: ContractCurrent(s, source.functionContracts[i]))
    && forall i | 0 <= i < |source.agents| :: AgentCurrent(s, source, source.agents[i], settings)
  }

  lemma {:induction false} ActiveVersionPreserved(s: Store, s': Store, ids: seq<VersionId>, semver: string)
    requires Preserves(s, s') && forall i | 0 <= i < |ids| :: ids[i] in s.versions
    ensures ActiveVersionId(s', ids, semver) == ActiveVersionId(s, ids, semver)
    ensures ActiveVersionId(s, ids, semver) != 0 ==> ActiveVersionId(s, ids, semver) in s.versions
  {
    if ids == [] {
    } else {
      assert ids[0] in s.versions;
      ActiveVersionPreserved(s, s', ids[1..], semver);
    }
  }

  /** An agent that is found is judged the same way for ever after. */
  lemma AgentJudgedAlike(s: Store, s': Store, source: Catalog, a: Definition, settings: Settings)
    requires ValidStore(s) && Preserves(s, s') && a.code in s.agents
    ensures AgentCurrent(s, source, a, settings) <==> AgentCurrent(s', source, a, settings)
  {
    ActiveVersionPreserved(s, s', s.agents[a.code], source.agentVersion);
  }

  predicate DistinctKeys(cs: seq<FunctionContract>) {
    forall i, j | 0 <= i < j < |cs| :: KeyOf(cs[i]) != KeyOf(cs[j])
  }

  predicate HasKey(cs: seq<FunctionContract>, key: ContractKey) {
    exists i | 0 <= i < |cs| :: KeyOf(cs[i]) == key
  }

  lemma {:induction false} ContractsConverge(listed: map<ContractKey, FunctionContract>, w: World,
        cs: seq<FunctionContract>, network: Network)
    requires forall key | key in listed ::
               KeyOf(listed[key]) == key && key in w.store.contracts && w.store.contracts[key] == listed[key]
    requires DistinctKeys(cs)
    ensures var out := ReconcileContracts(w, listed, cs, network);
      && (forall key | key in w.store.contracts && !HasKey(cs, key) ::
            key in out.world.store.contracts && out.world.store.contracts[key] == w.store.contracts[key])
      && (forall key | key in listed ::
         key in out.world.store.contracts && out.world.store.contracts[key] == listed[key])
      && (out.error.None? ==> forall i | 0 <= i < |cs| :: ContractCurrent(out.world.store, cs[i]))
    decreases |cs|
  {
    if cs == [] {
    } else {
      var c := cs[0];
      var out := ReconcileContracts(w, listed, cs, network);
      var w' := if KeyOf(c) in listed then w else Deliver(w, CreateContract(c), network);
      ContractsConverge(listed, w', cs[1..], network);
      assert forall i | 0 <= i < |cs| - 1 :: cs[1..][i] == cs[i + 1];
      assert forall key | !HasKey(cs, key) :: key != KeyOf(cs[0]) && !HasKey(cs[1..], key);
      if out.error.None? {
        forall i | 0 <= i < |cs|
          ensures ContractCurrent(out.world.store, cs[i])
        {
          if i > 0 {
            assert cs[i] == cs[1..][i - 1];
          }
        }
      }
    }
  }

  /** The only errors of the contract loop without faults are drifts, and they are all found. */
  lemma {:induction false} ContractsSucceedIff(listed: map<ContractKey, FunctionContract>, w: World,
        cs: seq<FunctionContract>, network: Network)
    requires FaultFree(network)
    ensures ReconcileContracts(w, listed, cs, network).error.None? <==>
              forall i | 0 <= i < |cs| && KeyOf(cs[i]) in listed :: SameContract(listed[KeyOf(cs[i])], cs[i])
    decreases |cs|
  {
    if cs == [] {
    } else {
      var c := cs[0];
      var w' := if KeyOf(c) in listed then w else Deliver(w, CreateContract(c), network);
      ContractsSucceedIff(listed, w', cs[1..], network);
      assert forall i | 0 <= i < |cs| - 1 :: cs[1..][i] == cs[i + 1];
      if forall i | 0 <= i < |cs| - 1 && KeyOf(cs[1..][i]) in listed ::
           SameContract(listed[KeyOf(cs[1..][i])], cs[1..][i])
      {
        forall i | 0 < i < |cs| && KeyOf(cs[i]) in listed
          ensures SameContract(listed[KeyOf(cs[i])], cs[i])
        {
          assert cs[i] == cs[1..][i - 1];
        }
      }
    }
  }

  /** The store after an agent was imported, as a draft or as an active version. */
  ghost predicate Has(s: Store, a: Definition, status: string, source: Catalog, settings: Settings) {
    && a.code in s.agents && |s.agents[a.code]| == 1
    && var id := s.agents[a.code][0];
    && id in s.versions && id != 0
    && s.versions[id] == Version(source.agentVersion, status, Render(source, a, settings.demoAgentUrl))
  }

  lemma ActiveIsCurrent(s: Store, a: Definition, source: Catalog, settings: Settings)
    requires Has(s, a, "ACTIVE", source, settings)
    ensures AgentCurrent(s, source, a, settings)
  {
  }

  lemma DraftIsNotActive(s: Store, a: Definition, source: Catalog, settings: Settings)
    requires Has(s, a, "DRAFT", source, settings)
    ensures ActiveVersionId(s, s.agents[a.code], source.agentVersion) == 0
  {
    assert s.agents[a.code][1..] == [];
  }

  /** The last request sent was an import whose answer was lost, or a publish that never arrived. */
  predicate LeavesDraft(w: World, network: Network) {
    && w.log != []
    && var n := |w.log| - 1;
    || (w.log[n].ImportManifest? && network(n) == ReplyLost)
    || (w.log[n].PublishVersion? && network(n) == RequestLost)
  }

  /** What the faults of its two requests make of an agent that was absent. It stays absent exactly when
      the import is lost; it ends as a draft exactly when the import's answer is lost, or the import is
      answered and the publish is lost; it ends active exactly when the import is answered and the publish
      arrives; and only when both are answered does the caller hear of it. */
  lemma PublishOutcomes(w: World, source: Catalog, a: Definition, settings: Settings, network: Network)
    requires ValidStore(w.store) && a.code !in w.store.agents
    ensures var m := Render(source, a, settings.demoAgentUrl);
      var out, n := Publish(w, m, network), |w.log|;
      var s' := out.world.store;
      && (s' == w.store <==> network(n) == RequestLost)
      && (Has(s', a, "DRAFT", source, settings) <==>
            network(n) == ReplyLost || (network(n) == Delivered && network(n + 1) == RequestLost))
      && (Has(s', a, "ACTIVE", source, settings) <==> network(n) == Delivered && network(n + 1) != RequestLost)
      && (Has(s', a, "DRAFT", source, settings) <==> LeavesDraft(out.world, network))
      && (out.error.None? <==> network(n) == Delivered && network(n + 1) == Delivered)
      && (out.error.Some? ==> out.error.value == RequestFailed)
      && (s' != w.store ==> s'.agents.Keys == w.store.agents.Keys + {a.code})
  {
    var m := Render(source, a, settings.demoAgentUrl);
    var drafted := Effect(w.store, ImportManifest(m));
    assert VersionsOf(w.store, m.code) == [];
    assert Has(drafted, a, "DRAFT", source, settings);
    assert Has(Effect(drafted, PublishVersion(w.store.nextId)), a, "ACTIVE", source, settings);
  }

  lemma AgentOutcomes(w: World, source: Catalog, a: Definition, settings: Settings, network: Network)
    requires ValidStore(w.store)
    ensures var out := ReconcileAgent(w, source, a, settings, network);
      && (out.error.None? ==> AgentCurrent(out.world.store, source, a, settings))
      && (a.code in w.store.agents ==> out.world.store == w.store)
      && (FaultFree(network) ==>
         (out.error.None? <==> a.code !in w.store.agents || AgentCurrent(w.store, source, a, settings)))
      && (AgentCurrent(w.store, source, a, settings) ==> out.error.None? || out.error.value == RequestFailed)
  {
    var m := Render(source, a, settings.demoAgentUrl);
    var w2 := Deliver(Deliver(w, ValidateManifest(m), network), GetAgent(a.code), network);
    var out := ReconcileAgent(w, source, a, settings, network);
    if a.code in w.store.agents {
      ActiveVersionPreserved(w.store, w.store, w.store.agents[a.code], source.agentVersion);
    } else {
      PublishOutcomes(w2, source, a, settings, network);
      if out.error.None? {
        ActiveIsCurrent(out.world.store, a, source, settings);
      }
    }
  }

  lemma FirstAgentConverges(w: World, source: Catalog, agents: seq<Definition>, settings: Settings, network: Network)
    requires ValidStore(w.store) && agents != []
    requires ReconcileAgent(w, source, agents[0], settings, network).error.None?
    ensures var first := ReconcileAgent(w, source, agents[0], settings, network).world;
      AgentCurrent(ReconcileAgents(first, source, agents[1..], settings, network).world.store, source, agents[0],
        settings)
  {
    var first := ReconcileAgent(w, source, agents[0], settings, network).world;
    AgentPreserves(w, source, agents[0], settings, network);
    AgentOutcomes(w, source, agents[0], settings, network);
    AgentsPreserve(first, source, agents[1..], settings, network);
    var s' := ReconcileAgents(first, source, agents[1..], settings, network).world.store;
    AgentJudgedAlike(first.store, s', source, agents[0], settings);
  }

  lemma {:induction false} AgentsConverge(w: World, source: Catalog, agents: seq<Definition>, settings: Settings,
        network: Network, i: nat)
    requires ValidStore(w.store) && i < |agents|
    requires ReconcileAgents(w, source, agents, settings, network).error.None?
    ensures AgentCurrent(ReconcileAgents(w, source, agents, settings, network).world.store, source, agents[i], settings)
    decreases |agents|
  {
    if i == 0 {
      FirstAgentConverges(w, source, agents, settings, network);
    } else {
      AgentPreserves(w, source, agents[0], settings, network);
      AgentsConverge(ReconcileAgent(w, source, agents[0], settings, network).world, source, agents[1..], settings,
        network, i - 1);
    }
  }

  /** A run that reports success leaves every contract and every agent present and as the catalog
      wants it, whatever it found and whatever was lost on the way. */
  lemma SuccessConverges(w: World, source: Catalog, settings: Settings, network: Network)
    requires ValidStore(w.store) && DistinctKeys(source.functionContracts)
    requires Run(w, source, settings, network).error.None?
    ensures Converged(Run(w, source, settings, network).world.store, source, settings)
  {
    var w1 := Deliver(w, ListContracts, network);
    var contracts := ReconcileContracts(w1, w.store.contracts, source.functionContracts, network);
    ContractsConverge(w.store.contracts, w1, source.functionContracts, network);
    ContractsPreserve(w.store, w1, source.functionContracts, network);
    forall i | 0 <= i < |source.agents| {
      AgentsConverge(contracts.world, source, source.agents, settings, network, i);
    }
    AgentsPreserve(contracts.world, source, source.agents, settings, network);
  }

  // ---------- without faults, success is decided by what was found ----------

  /** No contract that was found differs from the catalog. */
  ghost predicate ContractsCompatible(s: Store, cs: seq<FunctionContract>) {
    forall i | 0 <= i < |cs| && KeyOf(cs[i]) in s.contracts :: SameContract(s.contracts[KeyOf(cs[i])], cs[i])
  }

  /** The agent is absent, or as the catalog wants it. */
  ghost predicate AgentCompatible(s: Store, source: Catalog, a: Definition, settings: Settings) {
    a.code in s.agents ==> AgentCurrent(s, source, a, settings)
  }

  ghost predicate AgentsCompatible(s: Store, source: Catalog, agents: seq<Definition>, settings: Settings) {
    forall i | 0 <= i < |agents| :: AgentCompatible(s, source, agents[i], settings)
  }

  /** Nothing that was found differs from the catalog. */
  ghost predicate Compatible(s: Store, source: Catalog, settings: Settings) {
    ContractsCompatible(s, source.functionContracts) && AgentsCompatible(s, source, source.agents, settings)
  }

  lemma JudgedAlike(s: Store, s': Store, source: Catalog, b: Definition, settings: Settings)
    requires ValidStore(s) && Preserves(s, s') && (b.code in s'.agents ==> b.code in s.agents)
    ensures AgentCompatible(s', source, b, settings) <==> AgentCompatible(s, source, b, settings)
  {
    if b.code in s.agents {
      AgentJudgedAlike(s, s', source, b, settings);
    }
  }

  lemma OthersJudgedAlike(w: World, source: Catalog, agents: seq<Definition>, settings: Settings, network: Network)
    requires ValidStore(w.store) && DistinctAgents(agents) && agents != []
    ensures AgentsCompatible(ReconcileAgent(w, source, agents[0], settings, network).world.store, source, agents[1..],
              settings)
       <==> AgentsCompatible(w.store, source, agents[1..], settings)
  {
    var s' := ReconcileAgent(w, source, agents[0], settings, network).world.store;
    AgentPreserves(w, source, agents[0], settings, network);
    forall i | 0 <= i < |agents| - 1
      ensures AgentCompatible(s', source, agents[1..][i], settings)
         <==> AgentCompatible(w.store, source, agents[1..][i], settings)
    {
      assert agents[1..][i] == agents[i + 1];
      JudgedAlike(w.store, s', source, agents[i + 1], settings);
    }
  }

  lemma AgentsCompatibleStep(s: Store, source: Catalog, agents: seq<Definition>, settings: Settings)
    requires agents != []
    ensures AgentsCompatible(s, source, agents, settings) <==>
              AgentCompatible(s, source, agents[0], settings) && AgentsCompatible(s, source, agents[1..], settings)
  {
    assert forall i | 1 <= i < |agents| :: agents[i] == agents[1..][i - 1];
  }

  /** Agents and versions are all that an agent is judged by. */
  lemma AgentsJudgedByVersions(s: Store, s': Store, source: Catalog, agents: seq<Definition>, settings: Settings)
    requires ValidStore(s) && Preserves(s, s') && s'.agents == s.agents
    ensures AgentsCompatible(s', source, agents, settings) <==> AgentsCompatible(s, source, agents, settings)
  {
    forall i | 0 <= i < |agents|
      ensures AgentCompatible(s', source, agents[i], settings) <==> AgentCompatible(s, source, agents[i], settings)
    {
      JudgedAlike(s, s', source, agents[i], settings);
    }
  }

  lemma {:induction false} AgentsSucceedIff(w: World, source: Catalog, agents: seq<Definition>, settings: Settings,
        network: Network)
    requires ValidStore(w.store) && FaultFree(network) && DistinctAgents(agents)
    ensures ReconcileAgents(w, source, agents, settings, network).error.None? <==>
              AgentsCompatible(w.store, source, agents, settings)
    decreases |agents|
  {
    if agents == [] {
    } else {
      AgentPreserves(w, source, agents[0], settings, network);
      AgentOutcomes(w, source, agents[0], settings, network);
      AgentsCompatibleStep(w.store, source, agents, settings);
      OthersJudgedAlike(w, source, agents, settings, network);
      AgentsSucceedIff(ReconcileAgent(w, source, agents[0], settings, network).world, source, agents[1..], settings,
        network);
    }
  }

  /** Without faults, a run succeeds exactly when there is a token and nothing it finds differs. */
  lemma RunSucceedsIff(w: World, source: Catalog, settings: Settings, network: Network)
    requires ValidStore(w.store) && FaultFree(network)
    requires DistinctAgents(source.agents)
    ensures Run(w, source, settings, network).error.None? <==>
              settings.accessToken != "" && Compatible(w.store, source, settings)
  {
    var w1 := Deliver(w, ListContracts, network);
    var contracts := ReconcileContracts(w1, w.store.contracts, source.functionContracts, network);
    ContractsSucceedIff(w.store.contracts, w1, source.functionContracts, network);
    ContractsPreserve(w.store, w1, source.functionContracts, network);
    AgentsSucceedIff(contracts.world, source, source.agents, settings, network);
    AgentsJudgedByVersions(w.store, contracts.world.store, source, source.agents, settings);
  }

  // ---------- an error says what is wrong ----------

  /** What an error means, in the registry as the run left it. */
  ghost predicate Explained(out: Outcome, source: Catalog, settings: Settings, network: Network) {
    var s := out.world.store;
    match out.error
    case None => true
    case Some(TokenRequired) => settings.accessToken == ""
    case Some(RequestFailed) => out.world.log != [] && network(|out.world.log| - 1) != Delivered
    case Some(ContractDrift(code)) =>
      exists i :: 0 <= i < |source.functionContracts| && source.functionContracts[i].code == code
        && KeyOf(source.functionContracts[i]) in s.contracts
           && s.contracts[KeyOf(source.functionContracts[i])] != source.functionContracts[i]
    case Some(NoActiveVersion(code)) =>
      code in s.agents && ActiveVersionId(s, s.agents[code], source.agentVersion) == 0
        && exists i :: 0 <= i < |source.agents| && source.agents[i].code == code
    case Some(ManifestDrift(code)) =>
      code in s.agents && ActiveVersionId(s, s.agents[code], source.agentVersion) != 0
        && (exists i :: 0 <= i < |source.agents| && source.agents[i].code == code
                          && !AgentCurrent(s, source, source.agents[i], settings))
  }

  lemma {:induction false} ContractErrorsExplained(listed: map<ContractKey, FunctionContract>, w: World,
        source: Catalog, i: nat, settings: Settings, network: Network)
    requires i <= |source.functionContracts|
    requires forall key | key in listed ::
               KeyOf(listed[key]) == key && key in w.store.contracts && w.store.contracts[key] == listed[key]
    ensures Explained(ReconcileContracts(w, listed, source.functionContracts[i..], network), source, settings, network)
    decreases |source.functionContracts| - i
  {
    if i == |source.functionContracts| {
    } else {
      var cs := source.functionContracts;
      assert cs[i..][0] == cs[i] && cs[i..][1..] == cs[i + 1..];
      if KeyOf(cs[i]) !in listed {
        ContractErrorsExplained(listed, Deliver(w, CreateContract(cs[i]), network), source, i + 1, settings, network);
      } else if SameContract(listed[KeyOf(cs[i])], cs[i]) {
        ContractErrorsExplained(listed, w, source, i + 1, settings, network);
      }
    }
  }

  lemma AgentErrorExplained(w: World, source: Catalog, i: nat, settings: Settings, network: Network)
    requires ValidStore(w.store) && i < |source.agents|
    ensures Explained(ReconcileAgent(w, source, source.agents[i], settings, network), source, settings, network)
  {
    var a := source.agents[i];
    if a.code in w.store.agents {
      ActiveVersionPreserved(w.store, w.store, w.store.agents[a.code], source.agentVersion);
    }
  }

  lemma {:induction false} AgentErrorsExplained(w: World, source: Catalog, i: nat, settings: Settings, network: Network)
    requires ValidStore(w.store) && i <= |source.agents|
    ensures Explained(ReconcileAgents(w, source, source.agents[i..], settings, network), source, settings, network)
    decreases |source.agents| - i
  {
    if i == |source.agents| {
    } else {
      assert source.agents[i..][0] == source.agents[i] && source.agents[i..][1..] == source.agents[i + 1..];
      AgentErrorExplained(w, source, i, settings, network);
      AgentPreserves(w, source, source.agents[i], settings, network);
      var first := ReconcileAgent(w, source, source.agents[i], settings, network);
      AgentErrorsExplained(first.world, source, i + 1, settings, network);
    }
  }

  /** Every error is true of the registry the run leaves: a drift names a contract or agent that does
      differ there, and a failed request means the last request was not answered. */
  lemma RunErrorsExplained(w: World, source: Catalog, settings: Settings, network: Network)
    requires ValidStore(w.store)
    ensures Explained(Run(w, source, settings, network), source, settings, network)
  {
    var w1 := Deliver(w, ListContracts, network);
    assert source.functionContracts[0..] == source.functionContracts && source.agents[0..] == source.agents;
    ContractErrorsExplained(w.store.contracts, w1, source, 0, settings, network);
    ContractsPreserve(w.store, w1, source.functionContracts, network);
    var contracts := ReconcileContracts(w1, w.store.contracts, source.functionContracts, network);
    AgentErrorsExplained(contracts.world, source, 0, settings, network);
  }

  // ---------- a converged registry is only read ----------

  /** The run sent requests that change nothing, and changed nothing. */
  ghost predicate OnlyRead(w: World, out: Outcome) {
    && out.world.store == w.store
    && w.log <= out.world.log
    && (forall n | |w.log| <= n < |out.world.log| ::
          out.world.log[n].ListContracts? || out.world.log[n].ValidateManifest? || out.world.log[n].GetAgent?
          || out.world.log[n].ExportManifest?)
    && (out.error.Some? ==> out.error.value == RequestFailed)
  }

  lemma {:induction false} ConvergedContractsOnlyRead(w: World, cs: seq<FunctionContract>, network: Network)
    requires forall i | 0 <= i < |cs| :: ContractCurrent(w.store, cs[i])
    ensures ReconcileContracts(w, w.store.contracts, cs, network) == Outcome(w, None)
    decreases |cs|
  {
    if cs == [] {
    } else {
      assert ContractCurrent(w.store, cs[0]);
      ConvergedContractsOnlyRead(w, cs[1..], network);
    }
  }

  lemma CurrentAgentOnlyRead(w: World, source: Catalog, a: Definition, settings: Settings, network: Network)
    requires ValidStore(w.store) && AgentCurrent(w.store, source, a, settings)
    ensures OnlyRead(w, ReconcileAgent(w, source, a, settings, network))
  {
    AgentOutcomes(w, source, a, settings, network);
  }

  lemma {:induction false} ConvergedAgentsOnlyRead(w: World, source: Catalog, agents: seq<Definition>,
        settings: Settings, network: Network)
    requires ValidStore(w.store) && forall i | 0 <= i < |agents| :: AgentCurrent(w.store, source, agents[i], settings)
    ensures OnlyRead(w, ReconcileAgents(w, source, agents, settings, network))
    decreases |agents|
  {
    if agents == [] {
    } else {
      assert AgentCurrent(w.store, source, agents[0], settings);
      CurrentAgentOnlyRead(w, source, agents[0], settings, network);
      var first := ReconcileAgent(w, source, agents[0], settings, network);
      if first.error.None? {
        ConvergedAgentsOnlyRead(first.world, source, agents[1..], settings, network);
      }
    }
  }

  lemma ConvergedIsCompatible(s: Store, source: Catalog, settings: Settings)
    requires Converged(s, source, settings)
    ensures Compatible(s, source, settings)
  {
    forall i | 0 <= i < |source.functionContracts|
      ensures ContractCurrent(s, source.functionContracts[i])
    {
    }
    forall i | 0 <= i < |source.agents|
      ensures AgentCurrent(s, source, source.agents[i], settings)
    {
    }
  }

  /** On a converged registry every run sends only reading requests, whatever is lost; without faults
      it succeeds. */
  lemma ConvergedRunOnlyReads(w: World, source: Catalog, settings: Settings, network: Network)
    requires ValidStore(w.store) && Converged(w.store, source, settings) && settings.accessToken != ""
    ensures OnlyRead(w, Run(w, source, settings, network))
    ensures FaultFree(network) && DistinctAgents(source.agents) ==> Run(w, source, settings, network).error.None?
  {
    var w1 := Deliver(w, ListContracts, network);
    ConvergedContractsOnlyRead(w1, source.functionContracts, network);
    ConvergedAgentsOnlyRead(w1, source, source.agents, settings, network);
    if FaultFree(network) && DistinctAgents(source.agents) {
      RunSucceedsIff(w, source, settings, network);
      ConvergedIsCompatible(w.store, source, settings);
    }
  }

  /** Running again after a success changes nothing, sends no mutating request, and without faults
      succeeds again. */
  lemma SecondRunOnlyReads(w: World, source: Catalog, settings: Settings, network: Network, network': Network)
    requires ValidStore(w.store) && DistinctKeys(source.functionContracts)
    requires Run(w, source, settings, network).error.None?
    ensures var w' := Run(w, source, settings, network).world;
      && OnlyRead(w', Run(w', source, settings, network'))
      && (FaultFree(network') && DistinctAgents(source.agents) ==> Run(w', source, settings, network').error.None?)
  {
    RunPreserves(w, source, settings, network);
    SuccessConverges(w, source, settings, network);
    ConvergedRunOnlyReads(Run(w, source, settings, network).world, source, settings, network');
  }

  // ---------- sequences of interrupted runs ----------

  /** The stores after runs under each network in turn. */
  function StoreAfter(s: Store, source: Catalog, settings: Settings, networks: seq<Network>): Store {
    if networks == [] then s
    else Run(World(StoreAfter(s, source, settings, networks[..|networks| - 1]), []), source, settings,
      networks[|networks| - 1]).world.store
  }

  lemma {:induction false} RunsPreserve(s: Store, source: Catalog, settings: Settings, networks: seq<Network>)
    requires ValidStore(s)
    ensures ValidStore(StoreAfter(s, source, settings, networks))
              && Preserves(s, StoreAfter(s, source, settings, networks))
  {
    if networks == [] {
    } else {
      var n := |networks| - 1;
      RunsPreserve(s, source, settings, networks[..n]);
      RunPreserves(World(StoreAfter(s, source, settings, networks[..n]), []), source, settings, networks[n]);
    }
  }

  lemma SuccessMakesCurrent(w: World, source: Catalog, settings: Settings, a: Definition, network: Network)
    requires ValidStore(w.store) && DistinctKeys(source.functionContracts) && a in source.agents
    requires Run(w, source, settings, network).error.None?
    ensures AgentCurrent(Run(w, source, settings, network).world.store, source, a, settings)
  {
    SuccessConverges(w, source, settings, network);
    var i :| 0 <= i < |source.agents| && source.agents[i] == a;
  }

  /** Once an agent of the catalog is found without a matching active version, no later run succeeds,
      with or without faults. */
  lemma StuckForever(s: Store, source: Catalog, settings: Settings, a: Definition, networks: seq<Network>,
        network: Network)
    requires ValidStore(s) && DistinctKeys(source.functionContracts)
    requires a in source.agents && a.code in s.agents && ActiveVersionId(s, s.agents[a.code], source.agentVersion) == 0
    ensures var s' := StoreAfter(s, source, settings, networks);
      && a.code in s'.agents && s'.agents[a.code] == s.agents[a.code]
      && Run(World(s', []), source, settings, network).error.Some?
  {
    var w := World(StoreAfter(s, source, settings, networks), []);
    var out := Run(w, source, settings, network);
    RunsPreserve(s, source, settings, networks);
    RunPreserves(w, source, settings, network);
    ActiveVersionPreserved(s, w.store, s.agents[a.code], source.agentVersion);
    ActiveVersionPreserved(w.store, out.world.store, w.store.agents[a.code], source.agentVersion);
    if out.error.None? {
      SuccessMakesCurrent(w, source, settings, a, network);
    }
  }

  /** The contract loop on an empty listing sends one request per contract. */
  lemma {:induction false} ContractsAreSent(w: World, cs: seq<FunctionContract>, network: Network)
    requires forall n | |w.log| <= n < |w.log| + |cs| :: network(n) == Delivered
    ensures var out := ReconcileContracts(w, map[], cs, network);
      out.error.None? && |out.world.log| == |w.log| + |cs|
    decreases |cs|
  {
    if cs == [] {
    } else {
      ContractsAreSent(Deliver(w, CreateContract(cs[0]), network), cs[1..], network);
    }
  }

  /** On an empty registry, everything is answered up to the import of the first agent; then the answer
      to the import is lost, or the publish. */
  ghost predicate FirstPublishInterrupted(source: Catalog, network: Network) {
    var n := |source.functionContracts| + 3;
    && (forall i | 0 <= i < n :: network(i) == Delivered)
    && (network(n) == ReplyLost || (network(n) == Delivered && network(n + 1) == RequestLost))
  }

  /** The world in which the first agent turns out to be absent, all contracts sent. */
  function FirstAgentAbsent(source: Catalog, settings: Settings, network: Network): World
    requires source.agents != []
  {
    var a := source.agents[0];
    var m := Render(source, a, settings.demoAgentUrl);
    var listed := Deliver(World(EMPTY_STORE, []), ListContracts, network);
    var sent := ReconcileContracts(listed, map[], source.functionContracts, network).world;
    Deliver(Deliver(sent, ValidateManifest(m), network), GetAgent(a.code), network)
  }

  lemma RunReachesFirstPublish(source: Catalog, settings: Settings, network: Network)
    requires source.agents != [] && settings.accessToken != "" && FirstPublishInterrupted(source, network)
    ensures var w := FirstAgentAbsent(source, settings, network);
      && ValidStore(w.store) && w.store.agents == map[] && |w.log| == |source.functionContracts| + 3
      && (Publish(w, Render(source, source.agents[0], settings.demoAgentUrl), network).error.Some? ==>
            Run(World(EMPTY_STORE, []), source, settings, network)
              == Publish(w, Render(source, source.agents[0], settings.demoAgentUrl), network))
  {
    var listed := Deliver(World(EMPTY_STORE, []), ListContracts, network);
    ContractsAreSent(listed, source.functionContracts, network);
    ContractsPreserve(EMPTY_STORE, listed, source.functionContracts, network);
  }

  /** One loss is enough: with any catalog that has agents, on an empty registry, a first run interrupted
      while its first agent is published leaves a draft, and no later run ever succeeds. */
  lemma OneLossIsForever(source: Catalog, settings: Settings, interrupted: Network,
                         networks: seq<Network>, network: Network)
    requires DistinctKeys(source.functionContracts) && source.agents != [] && settings.accessToken != ""
    requires FirstPublishInterrupted(source, interrupted)
    ensures var s := Run(World(EMPTY_STORE, []), source, settings, interrupted).world.store;
      && Has(s, source.agents[0], "DRAFT", source, settings)
      && Run(World(StoreAfter(s, source, settings, networks), []), source, settings, network).error.Some?
  {
    var a := source.agents[0];
    var s := Run(World(EMPTY_STORE, []), source, settings, interrupted).world.store;
    RunReachesFirstPublish(source, settings, interrupted);
    PublishOutcomes(FirstAgentAbsent(source, settings, interrupted), source, a, settings, interrupted);
    RunPreserves(World(EMPTY_STORE, []), source, settings, interrupted);
    DraftIsNotActive(s, a, source, settings);
    StuckForever(s, source, settings, a, networks, network);
  }

  // ---------- drift is detected ----------

  ghost predicate Injective(digest: Manifest -> string) {
    forall m, m' :: digest(m) == digest(m') ==> m == m'
  }

  /** If digests tell manifests apart, a run succeeds over a published agent only when every published
      field is unchanged: price, wallet, endpoint, dependencies and the rest. */
  lemma DriftIsDetected(w: World, source: Catalog, settings: Settings, a: Definition,
                        source': Catalog, settings': Settings, a': Definition, network: Network)
    requires ValidStore(w.store) && DistinctKeys(source'.functionContracts)
    requires Injective(settings.digest) && settings'.digest == settings.digest
    requires AgentCurrent(w.store, source, a, settings) && source'.agentVersion == source.agentVersion
    requires a' in source'.agents && a'.code == a.code
    requires Run(w, source', settings', network).error.None?
    ensures SamePublished(source, a, settings.demoAgentUrl, source', a', settings'.demoAgentUrl)
  {
    RunPreserves(w, source', settings', network);
    SuccessMakesCurrent(w, source', settings', a', network);
    AgentJudgedAlike(w.store, Run(w, source', settings', network).world.store, source', a', settings');
    ManifestsAgreeIff(source, a, settings.demoAgentUrl, source', a', settings'.demoAgentUrl);
  }
}
