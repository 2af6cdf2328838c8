/** The outcome of a run in terms of the fields of what is stored: no key, no search, no helper. */
module BootstrapFields {
  import opened Prelude
  import opened Catalog
  import opened Manifests
  import opened AgentStore
  import opened Bootstrap
  import opened BootstrapProperties

  /** Contracts with the same code and the same version. */
  predicate SameIdentity(c: FunctionContract, d: FunctionContract) {
    c.code == d.code && c.contractVersion == d.contractVersion
  }

  /** No contract of `stored` with the code and version of a catalog contract differs from it. */
  ghost predicate ListedContractsAgree(stored: set<FunctionContract>, cs: seq<FunctionContract>) {
    forall c, d | c in cs && d in stored :: SameIdentity(c, d) ==> c == d
  }

  ghost predicate StoredContractsAgree(s: Store, cs: seq<FunctionContract>) {
    ListedContractsAgree(s.contracts.Values, cs)
  }

  /** No two contracts share code and version. */
  predicate DistinctIdentities(cs: seq<FunctionContract>) {
    forall i, j | 0 <= i < j < |cs| :: !SameIdentity(cs[i], cs[j])
  }

  /** Version `i` of the agent is active at the catalog's semantic version, no earlier one is, and its
      manifest has the digest of the catalog's. */
  ghost predicate FirstActiveMatches(s: Store, source: Catalog, a: Definition, settings: Settings, i: nat)
    requires a.code in s.agents && i < |s.agents[a.code]|
    requires forall j | 0 <= j < |s.agents[a.code]| :: s.agents[a.code][j] in s.versions
  {
    var ids := s.agents[a.code];
    && s.versions[ids[i]].status == "ACTIVE" && s.versions[ids[i]].semver == source.agentVersion
    && (forall j | 0 <= j < i ::
          !(s.versions[ids[j]].status == "ACTIVE" && s.versions[ids[j]].semver == source.agentVersion))
    && settings.digest(s.versions[ids[i]].manifest) == settings.digest(Render(source, a, settings.demoAgentUrl))
  }

  /** Every stored agent of the catalog has a first active version, and it matches. */
  ghost predicate StoredAgentsAgree(s: Store, source: Catalog, settings: Settings)
    requires ValidStore(s)
  {
    forall a | a in source.agents && a.code in s.agents ::
      exists i: nat | i < |s.agents[a.code]| :: FirstActiveMatches(s, source, a, settings, i)
  }

  ghost predicate FoundAt(s: Store, ids: seq<VersionId>, semver: string, i: int)
    requires forall j | 0 <= j < |ids| :: ids[j] in s.versions
  {
    && 0 <= i < |ids| && ids[i] == ActiveVersionId(s, ids, semver) && ActiveAt(s.versions[ids[i]], semver)
    && forall j | 0 <= j < i :: !ActiveAt(s.versions[ids[j]], semver)
  }

  lemma SearchFinds(s: Store, ids: seq<VersionId>, semver: string)
    requires ValidStore(s) && forall j | 0 <= j < |ids| :: ids[j] in s.versions
    ensures ActiveVersionId(s, ids, semver) != 0 ==> exists i :: FoundAt(s, ids, semver, i)
    ensures ActiveVersionId(s, ids, semver) == 0 ==> forall j | 0 <= j < |ids| :: !ActiveAt(s.versions[ids[j]], semver)
  {
    ActiveVersionIsFirst(s, ids, semver);
    if ActiveVersionId(s, ids, semver) != 0 {
      var i :| 0 <= i < |ids| && ids[i] == ActiveVersionId(s, ids, semver)
        && ActiveAt(s.versions[ActiveVersionId(s, ids, semver)], semver)
        && forall j | 0 <= j < i :: !ActiveAt(s.versions[ids[j]], semver);
      assert FoundAt(s, ids, semver, i);
    }
  }

  lemma AgentMatchesIff(s: Store, source: Catalog, a: Definition, settings: Settings)
    requires ValidStore(s) && a.code in s.agents
    ensures AgentCurrent(s, source, a, settings) <==>
              exists i: nat | i < |s.agents[a.code]| :: FirstActiveMatches(s, source, a, settings, i)
  {
    var ids := s.agents[a.code];
    SearchFinds(s, ids, source.agentVersion);
    if i: nat :| i < |ids| && FirstActiveMatches(s, source, a, settings, i) {
      assert ActiveAt(s.versions[ids[i]], source.agentVersion);
      var k :| FoundAt(s, ids, source.agentVersion, k);
      assert k == i;
    }
    if AgentCurrent(s, source, a, settings) {
      var k :| FoundAt(s, ids, source.agentVersion, k);
      assert FirstActiveMatches(s, source, a, settings, k);
    }
  }

  /** Each contract is listed under its own code and version. */
  ghost predicate ListedByFields(listed: map<ContractKey, FunctionContract>) {
    forall key | key in listed :: key == ContractKey(listed[key].code, listed[key].contractVersion)
  }

  lemma ListedAgreeIff(listed: map<ContractKey, FunctionContract>, cs: seq<FunctionContract>)
    requires ListedByFields(listed)
    ensures (forall i | 0 <= i < |cs| && KeyOf(cs[i]) in listed :: SameContract(listed[KeyOf(cs[i])], cs[i]))
       <==> ListedContractsAgree(listed.Values, cs)
  {
    if forall i | 0 <= i < |cs| && KeyOf(cs[i]) in listed :: SameContract(listed[KeyOf(cs[i])], cs[i]) {
      forall c, d | c in cs && d in listed.Values && SameIdentity(c, d)
        ensures c == d
      {
        var i :| 0 <= i < |cs| && cs[i] == c;
        var key :| key in listed && listed[key] == d;
        assert KeyOf(cs[i]) in listed;
      }
    }
    if ListedContractsAgree(listed.Values, cs) {
      forall i | 0 <= i < |cs| && KeyOf(cs[i]) in listed
        ensures SameContract(listed[KeyOf(cs[i])], cs[i])
      {
        var d := listed[KeyOf(cs[i])];
        assert cs[i] in cs && d in listed.Values && SameIdentity(cs[i], d);
      }
    }
  }

  /** Without faults the contract loop succeeds exactly when no listed contract with the code and version
      of a catalog contract differs from it. */
  lemma ContractsSucceedByFields(listed: map<ContractKey, FunctionContract>, w: World, cs: seq<FunctionContract>,
        network: Network)
    requires FaultFree(network) && ListedByFields(listed)
    ensures ReconcileContracts(w, listed, cs, network).error.None? <==> ListedContractsAgree(listed.Values, cs)
  {
    ContractsSucceedIff(listed, w, cs, network);
    ListedAgreeIff(listed, cs);
  }

  lemma AgentsAgreeIff(s: Store, source: Catalog, settings: Settings)
    requires ValidStore(s)
    ensures AgentsCompatible(s, source, source.agents, settings) <==> StoredAgentsAgree(s, source, settings)
  {
    forall i | 0 <= i < |source.agents| && source.agents[i].code in s.agents {
      AgentMatchesIff(s, source, source.agents[i], settings);
    }
    if StoredAgentsAgree(s, source, settings) {
      forall i | 0 <= i < |source.agents|
        ensures AgentCompatible(s, source, source.agents[i], settings)
      {
        assert source.agents[i] in source.agents;
      }
    }
    if AgentsCompatible(s, source, source.agents, settings) {
      forall a | a in source.agents && a.code in s.agents
        ensures exists i: nat | i < |s.agents[a.code]| :: FirstActiveMatches(s, source, a, settings, i)
      {
        var i :| 0 <= i < |source.agents| && source.agents[i] == a;
        assert AgentCompatible(s, source, source.agents[i], settings);
      }
    }
  }

  /** Without faults a run succeeds exactly when there is a token, no stored contract with the code and
      version of a catalog contract differs from it, and the first active version of every stored agent
      matches the catalog. A contract stored under another version is never in the way. */
  lemma RunSucceedsByFields(w: World, source: Catalog, settings: Settings, network: Network)
    requires ValidStore(w.store) && FaultFree(network) && DistinctAgents(source.agents)
    ensures Run(w, source, settings, network).error.None? <==>
              && settings.accessToken != ""
              && StoredContractsAgree(w.store, source.functionContracts)
              && StoredAgentsAgree(w.store, source, settings)
  {
    RunSucceedsIff(w, source, settings, network);
    ListedAgreeIff(w.store.contracts, source.functionContracts);
    AgentsAgreeIff(w.store, source, settings);
  }

  /** Under any faults every contract stored before, whatever its version, is stored afterwards; and after
      a success so is every contract of the catalog. */
  lemma StoredContractsStay(w: World, source: Catalog, settings: Settings, network: Network)
    requires ValidStore(w.store) && DistinctIdentities(source.functionContracts)
    ensures var out := Run(w, source, settings, network);
      && w.store.contracts.Values <= out.world.store.contracts.Values
      && (out.error.None? ==> forall c | c in source.functionContracts :: c in out.world.store.contracts.Values)
  {
    var out := Run(w, source, settings, network);
    RunPreserves(w, source, settings, network);
    forall d | d in w.store.contracts.Values
      ensures d in out.world.store.contracts.Values
    {
      var key :| key in w.store.contracts && w.store.contracts[key] == d;
      assert key in out.world.store.contracts && out.world.store.contracts[key] == d;
    }
    if out.error.None? {
      assert DistinctKeys(source.functionContracts);
      SuccessConverges(w, source, settings, network);
      forall c | c in source.functionContracts
        ensures c in out.world.store.contracts.Values
      {
        var i :| 0 <= i < |source.functionContracts| && source.functionContracts[i] == c;
        assert ContractCurrent(out.world.store, source.functionContracts[i]);
      }
    }
  }

  /** A registry that holds one contract. */
  function StoreWith(c: FunctionContract): Store {
    EMPTY_STORE.(contracts := map[ContractKey(c.code, c.contractVersion) := c])
  }

  /** A new version of a stored contract is created beside the old one; both remain. */
  lemma TwoVersionsCoexist(old_: FunctionContract, new_: FunctionContract, source: Catalog, settings: Settings,
        network: Network)
    requires old_.code == new_.code && old_.contractVersion != new_.contractVersion
    requires source.functionContracts == [new_] && source.agents == []
    requires settings.accessToken != "" && FaultFree(network)
    ensures var out := Run(World(StoreWith(old_), []), source, settings, network);
      && out.error.None? && out.world.log == [ListContracts, CreateContract(new_)]
      && out.world.store.contracts.Values == {old_, new_}
  {
    var w := World(StoreWith(old_), []);
    var listed := Deliver(w, ListContracts, network);
    var out := Run(w, source, settings, network);
    var created := Deliver(listed, CreateContract(new_), network);
    assert source.functionContracts[1..] == [];
    assert ReconcileContracts(created, w.store.contracts, [], network) == Outcome(created, None);
    assert out == Outcome(created, None);
    var contracts := created.store.contracts;
    assert contracts == map[KeyOf(old_) := old_, KeyOf(new_) := new_];
    forall c
      ensures c in contracts.Values <==> c in {old_, new_}
    {
      assert contracts[KeyOf(old_)] == old_ && contracts[KeyOf(new_)] == new_;
    }
  }
}
