/** The bootstrap as it runs: a registry changed in place by requests, and a client that sends them. */
module BootstrapClient {
  import opened Prelude
  import opened Catalog
  import opened Manifests
  import opened AgentStore
  import opened Bootstrap
  import opened BootstrapProperties
  import opened BootstrapFields
  import opened BootstrapRequests

  /** The remote registry. */
  class Registry {
    var contracts: map<ContractKey, FunctionContract>
    var agents: map<string, seq<VersionId>>
    var versions: map<VersionId, Version>
    var nextId: VersionId

    function State(): Store
      reads this
    {
      Store(contracts, agents, versions, nextId)
    }

    constructor ()
      ensures State() == EMPTY_STORE
    {
      contracts, agents, versions, nextId := map[], map[], map[], 1;
    }

    /** Serves a request that has arrived. */
    method Handle(r: Request)
      modifies this
      ensures State() == Effect(old(State()), r)
    {
      match r
      case CreateContract(c) =>
        contracts := contracts[KeyOf(c) := c];
      case ImportManifest(m) =>
        agents := agents[m.code := (if m.code in agents then agents[m.code] else []) + [nextId]];
        versions := versions[nextId := Version(m.version, "DRAFT", m)];
        nextId := nextId + 1;
      case PublishVersion(id) =>
        if id in versions {
          versions := versions[id := versions[id].(status := "ACTIVE")];
        }
      case _ =>
    }

    /** The contracts, listed in an arbitrary order. */
    method List() returns (response: seq<FunctionContract>)
      ensures forall c | c in response :: exists key | key in contracts :: contracts[key] == c
      ensures forall key | key in contracts :: contracts[key] in response
    {
      response := [];
      var keys := contracts.Keys;
      while keys != {}
        invariant keys <= contracts.Keys
        invariant forall c | c in response :: exists key | key in contracts :: contracts[key] == c
        invariant forall key | key in contracts && key !in keys :: contracts[key] in response
      {
        var key :| key in keys;
        response := response + [contracts[key]];
        keys := keys - {key};
      }
    }
  }

  /** No contract between `i` and `n` has the key of contract `i`. */
  predicate LastWithKey(cs: seq<FunctionContract>, i: nat, n: nat)
    requires i < n <= |cs|
  {
    forall j | i < j < n :: KeyOf(cs[j]) != KeyOf(cs[i])
  }

  /** The contracts of a response by key. */
  function IndexByKey(cs: seq<FunctionContract>): map<ContractKey, FunctionContract> {
    if cs == [] then map[] else IndexByKey(cs[..|cs| - 1])[KeyOf(cs[|cs| - 1]) := cs[|cs| - 1]]
  }

  lemma HasKeyAppend(cs: seq<FunctionContract>, c: FunctionContract, key: ContractKey)
    ensures HasKey(cs + [c], key) <==> HasKey(cs, key) || key == KeyOf(c)
  {
    var more := cs + [c];
    assert more[|cs|] == c;
    assert forall i | 0 <= i < |cs| :: more[i] == cs[i];
    if HasKey(cs, key) {
      var i :| 0 <= i < |cs| && KeyOf(cs[i]) == key;
      assert KeyOf(more[i]) == key;
    }
  }

  /** Each key of the response has the last contract with that key. */
  lemma {:induction false} IndexKeepsLast(cs: seq<FunctionContract>, key: ContractKey)
    ensures key in IndexByKey(cs) <==> HasKey(cs, key)
    ensures key in IndexByKey(cs) ==>
              exists i: nat | i < |cs| ::
                cs[i] == IndexByKey(cs)[key] && KeyOf(cs[i]) == key && LastWithKey(cs, i, |cs|)
  {
    if cs == [] {
    } else {
      var n := |cs| - 1;
      var before := cs[..n];
      IndexKeepsLast(before, key);
      HasKeyAppend(before, cs[n], key);
      assert cs == before + [cs[n]];
      if key == KeyOf(cs[n]) {
        assert LastWithKey(cs, n, |cs|);
      } else if key in IndexByKey(before) {
        var i: nat :|
          i < n && before[i] == IndexByKey(before)[key] && KeyOf(before[i]) == key && LastWithKey(before, i, n);
        assert forall j | i < j < n :: before[j] == cs[j];
        assert cs[i] == IndexByKey(cs)[key] && LastWithKey(cs, i, |cs|);
      }
    }
  }

  /** No later contract has the code and version of contract `i`. */
  predicate LastWithFields(cs: seq<FunctionContract>, i: nat)
    requires i < |cs|
  {
    forall j | i < j < |cs| :: !(cs[j].code == cs[i].code && cs[j].contractVersion == cs[i].contractVersion)
  }

  /** By fields: each code and version in the response is a key, and keeps the last contract that has it. */
  lemma IndexByFields(cs: seq<FunctionContract>)
    ensures forall i: nat | i < |cs| && LastWithFields(cs, i) ::
              var key := ContractKey(cs[i].code, cs[i].contractVersion);
              key in IndexByKey(cs) && IndexByKey(cs)[key] == cs[i]
    ensures forall key | key in IndexByKey(cs) ::
              var c := IndexByKey(cs)[key];
              c in cs && c.code == key.code && c.contractVersion == key.contractVersion
  {
    forall i: nat | i < |cs| && LastWithFields(cs, i)
      ensures ContractKey(cs[i].code, cs[i].contractVersion) in IndexByKey(cs)
      ensures IndexByKey(cs)[ContractKey(cs[i].code, cs[i].contractVersion)] == cs[i]
    {
      var key := ContractKey(cs[i].code, cs[i].contractVersion);
      assert KeyOf(cs[i]) == key;
      IndexKeepsLast(cs, key);
      var k: nat :| k < |cs| && cs[k] == IndexByKey(cs)[key] && KeyOf(cs[k]) == key && LastWithKey(cs, k, |cs|);
      assert k <= i && i <= k;
    }
    forall key | key in IndexByKey(cs)
      ensures IndexByKey(cs)[key] in cs && KeyOf(IndexByKey(cs)[key]) == key
    {
      IndexKeepsLast(cs, key);
    }
  }

  /** The loop that fills the map. */
  method ContractsByKey(response: seq<FunctionContract>) returns (result: map<ContractKey, FunctionContract>)
    ensures result == IndexByKey(response)
    ensures forall i: nat | i < |response| && LastWithFields(response, i) ::
              var key := ContractKey(response[i].code, response[i].contractVersion);
              key in result && result[key] == response[i]
    ensures forall key | key in result ::
              && result[key] in response
              && result[key].code == key.code && result[key].contractVersion == key.contractVersion
  {
    IndexByFields(response);
    result := map[];
    for n := 0 to |response|
      invariant result == IndexByKey(response[..n])
    {
      assert response[..n + 1][..n] == response[..n];
      result := result[KeyOf(response[n]) := response[n]];
    }
    assert response[..|response|] == response;
  }

  /** Whatever the order of the response, indexing it gives back the registry's map. */
  lemma ResponseIsIndexed(contracts: map<ContractKey, FunctionContract>, response: seq<FunctionContract>)
    requires forall key | key in contracts :: KeyOf(contracts[key]) == key && contracts[key] in response
    requires forall c | c in response :: exists key | key in contracts :: contracts[key] == c
    ensures IndexByKey(response) == contracts
  {
    var listed := IndexByKey(response);
    forall key
      ensures key in listed <==> key in contracts
      ensures key in listed ==> listed[key] == contracts[key]
    {
      IndexKeepsLast(response, key);
      if key in contracts {
        var i :| 0 <= i < |response| && response[i] == contracts[key];
        assert HasKey(response, key);
      }
      if key in listed {
        var i: nat :| i < |response| && response[i] == listed[key] && KeyOf(response[i]) == key;
        assert response[i] in response;
        var k :| k in contracts && contracts[k] == response[i];
      }
    }
  }

  /** What a run does, by fields and by requests. */
  lemma RunByFields(w: World, source: Catalog, settings: Settings, network: Network)
    requires ValidStore(w.store)
    ensures var out := Run(w, source, settings, network);
      && (FaultFree(network) && DistinctAgents(source.agents) ==>
            (out.error.None? <==>
              && settings.accessToken != ""
              && StoredContractsAgree(w.store, source.functionContracts)
              && StoredAgentsAgree(w.store, source, settings)))
      && (DistinctIdentities(source.functionContracts) ==>
            && w.store.contracts.Values <= out.world.store.contracts.Values
            && (out.error.None? ==> forall c | c in source.functionContracts :: c in out.world.store.contracts.Values))
      && (DistinctAgents(source.agents) ==> Sends(w, out, RunRequests(w.store, source, settings)))
  {
    if DistinctAgents(source.agents) {
      RunSends(w, source, settings, network);
      if FaultFree(network) {
        RunSucceedsByFields(w, source, settings, network);
      }
    }
    if DistinctIdentities(source.functionContracts) {
      StoredContractsStay(w, source, settings, network);
    }
  }

  /** A client with its settings and its connection to the registry. */
  class Client {
    const registry: Registry
    const settings: Settings
    const network: Network
    var log: seq<Request>

    constructor (registry: Registry, settings: Settings, network: Network)
      ensures this.registry == registry && this.settings == settings && this.network == network && log == []
    {
      this.registry, this.settings, this.network, log := registry, settings, network, [];
    }

    function Now(): World
      reads this, registry
    {
      World(registry.State(), log)
    }

    /** One request: it may be lost, or its answer may be. */
    method Send(r: Request) returns (answered: bool)
      modifies this, registry
      ensures Now() == Deliver(old(Now()), r, network)
      ensures answered == Answered(old(Now()), r, network)
    {
      var fault := network(|log|);
      answered := fault == Delivered && Accepts(registry.State(), r);
      if fault != RequestLost {
        registry.Handle(r);
      }
      log := log + [r];
    }

    method FunctionContracts() returns (answered: bool, listed: map<ContractKey, FunctionContract>)
      requires ValidStore(registry.State())
      modifies this, registry
      ensures Now() == Deliver(old(Now()), ListContracts, network)
      ensures answered == Answered(old(Now()), ListContracts, network)
      ensures answered ==> listed == old(registry.contracts)
    {
      listed := map[];
      answered := Send(ListContracts);
      if answered {
        assert registry.State() == old(registry.State());
        var response := registry.List();
        listed := ContractsByKey(response);
        ResponseIsIndexed(registry.contracts, response);
      }
    }

    /** The first loop. */
    method BootstrapContracts(source: Catalog, listed: map<ContractKey, FunctionContract>)
      returns (error: Option<BootstrapError>)
      modifies this, registry
      ensures Outcome(Now(), error) == ReconcileContracts(old(Now()), listed, source.functionContracts, network)
      ensures FaultFree(network) && ListedByFields(listed) ==>
                (error.None? <==> ListedContractsAgree(listed.Values, source.functionContracts))
      ensures Sends(old(Now()), Outcome(Now(), error), ContractRequests(listed, source.functionContracts))
    {
      ContractsSend(Now(), listed, source.functionContracts, network);
      if FaultFree(network) && ListedByFields(listed) {
        ContractsSucceedByFields(listed, Now(), source.functionContracts, network);
      }
      var cs := source.functionContracts;
      assert cs[0..] == cs;
      for i := 0 to |cs|
        invariant ReconcileContracts(Now(), listed, cs[i..], network)
                    == ReconcileContracts(old(Now()), listed, cs, network)
      {
        assert cs[i..][0] == cs[i] && cs[i..][1..] == cs[i + 1..];
        var contract := cs[i];
        if KeyOf(contract) in listed {
          if !SameContract(listed[KeyOf(contract)], contract) {
            return Some(ContractDrift(contract.code));
          }
          continue;
        }
        var answered := Send(CreateContract(contract));
        if !answered {
          return Some(RequestFailed);
        }
      }
      return None;
    }

    /** The body of the second loop. */
    method BootstrapAgent(source: Catalog, agent: Definition) returns (error: Option<BootstrapError>)
      modifies this, registry
      ensures Outcome(Now(), error) == ReconcileAgent(old(Now()), source, agent, settings, network)
    {
      var manifest := RenderManifest(source, agent, settings.demoAgentUrl);
      var answered := Send(ValidateManifest(manifest));
      if !answered {
        return Some(RequestFailed);
      }
      answered := Send(GetAgent(agent.code));
      if !answered {
        return Some(RequestFailed);
      }
      if agent.code !in registry.agents {
        error := ImportAndPublish(manifest);
      } else {
        error := CompareActive(source, agent, manifest);
      }
    }

    /** Imports a manifest; the answer carries the identifier the registry gave the new version. */
    method Import(manifest: Manifest) returns (answered: bool, id: VersionId)
      modifies this, registry
      ensures Now() == Deliver(old(Now()), ImportManifest(manifest), network)
      ensures answered == Answered(old(Now()), ImportManifest(manifest), network)
      ensures answered ==> id == old(registry.nextId)
    {
      id := 0;
      answered := Send(ImportManifest(manifest));
      if answered {
        id := registry.nextId - 1;
      }
    }

    method ImportAndPublish(manifest: Manifest) returns (error: Option<BootstrapError>)
      modifies this, registry
      ensures Outcome(Now(), error) == Publish(old(Now()), manifest, network)
    {
      var answered, id := Import(manifest);
      if !answered {
        return Some(RequestFailed);
      }
      answered := Send(PublishVersion(id));
      return if answered then None else Some(RequestFailed);
    }

    method CompareActive(source: Catalog, agent: Definition, manifest: Manifest) returns (error: Option<BootstrapError>)
      modifies this, registry
      ensures Outcome(Now(), error) == Compare(old(Now()), source, agent, manifest, settings, network)
    {
      var id := ActiveVersionId(registry.State(), VersionsOf(registry.State(), agent.code), source.agentVersion);
      if id == 0 {
        return Some(NoActiveVersion(agent.code));
      }
      var answered := Send(ExportManifest(id));
      if !answered {
        return Some(RequestFailed);
      }
      if settings.digest(registry.versions[id].manifest) != settings.digest(manifest) {
        return Some(ManifestDrift(agent.code));
      }
      return None;
    }

    /** The second loop. */
    method BootstrapAgents(source: Catalog) returns (error: Option<BootstrapError>)
      modifies this, registry
      ensures Outcome(Now(), error) == ReconcileAgents(old(Now()), source, source.agents, settings, network)
    {
      var agents := source.agents;
      assert agents[0..] == agents;
      for i := 0 to |agents|
        invariant ReconcileAgents(Now(), source, agents[i..], settings, network)
               == ReconcileAgents(old(Now()), source, agents, settings, network)
      {
        assert agents[i..][0] == agents[i] && agents[i..][1..] == agents[i + 1..];
        error := BootstrapAgent(source, agents[i]);
        if error.Some? {
          return;
        }
      }
      return None;
    }

    /** Brings the registry to the catalog, or stops at the first error. Nothing found is changed, and
        success leaves every contract and agent as the catalog wants it. */
    method Bootstrap(source: Catalog) returns (error: Option<BootstrapError>)
      requires ValidStore(registry.State())
      modifies this, registry
      ensures Outcome(Now(), error) == Run(old(Now()), source, settings, network)
      ensures ValidStore(registry.State()) && Preserves(old(registry.State()), registry.State())
      ensures error.None? && DistinctKeys(source.functionContracts) ==> Converged(registry.State(), source, settings)
      ensures FaultFree(network) && DistinctAgents(source.agents) ==>
                (error.None? <==>
                  && settings.accessToken != ""
                  && StoredContractsAgree(old(registry.State()), source.functionContracts)
                  && StoredAgentsAgree(old(registry.State()), source, settings))
      ensures DistinctIdentities(source.functionContracts) ==>
                && old(registry.contracts).Values <= registry.contracts.Values
                && (error.None? ==> forall c | c in source.functionContracts :: c in registry.contracts.Values)
      ensures DistinctAgents(source.agents) ==>
                Sends(old(Now()), Outcome(Now(), error), RunRequests(old(registry.State()), source, settings))
    {
      RunByFields(Now(), source, settings, network);
      ghost var w := Now();
      RunPreserves(w, source, settings, network);
      if Run(w, source, settings, network).error.None? && DistinctKeys(source.functionContracts) {
        SuccessConverges(w, source, settings, network);
      }
      if settings.accessToken == "" {
        return Some(TokenRequired);
      }
      var answered, listed := FunctionContracts();
      if !answered {
        return Some(RequestFailed);
      }
      error := BootstrapContracts(source, listed);
      if error.Some? {
        return;
      }
      error := BootstrapAgents(source);
    }
  }
}
