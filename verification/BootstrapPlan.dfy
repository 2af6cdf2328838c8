/** From an empty registry, runs of one catalog only ever move along a plan: contracts in order, then
    agents in order, each imported and then published. */
module BootstrapPlan {
  import opened Prelude
  import opened Catalog
  import opened Manifests
  import opened AgentStore
  import opened Bootstrap
  import opened BootstrapProperties
  import CatalogParse

  /** What the plan needs of a catalog. */
  predicate Plannable(source: Catalog) {
    DistinctKeys(source.functionContracts) && DistinctAgents(source.agents)
  }

  /** Every catalog that `Parse` accepts can be planned. */
  lemma ParsedCatalogIsPlannable(doc: Document, source: Catalog, size: Size)
    requires DocumentAccepted(doc, size) && CatalogParse.IsCatalogOf(doc, source)
    ensures Plannable(source)
  {
    CatalogParse.AcceptedCatalogIsClosed(doc, source, size);
    forall i, j | 0 <= i < j < |source.functionContracts|
      ensures KeyOf(source.functionContracts[i]) != KeyOf(source.functionContracts[j])
    {
      assert source.functionContracts[i].code != source.functionContracts[j].code;
    }
  }

  /** The keys of the first `k` contracts. */
  function KeysOfFirst(cs: seq<FunctionContract>, k: nat): set<ContractKey>
    requires k <= |cs|
  {
    if k == 0 then {} else KeysOfFirst(cs, k - 1) + {KeyOf(cs[k - 1])}
  }

  lemma {:induction false} KeysOfFirstMeaning(cs: seq<FunctionContract>, k: nat, key: ContractKey)
    requires k <= |cs|
    ensures key in KeysOfFirst(cs, k) <==> exists i | 0 <= i < k :: KeyOf(cs[i]) == key
  {
    if k == 0 {
    } else {
      KeysOfFirstMeaning(cs, k - 1, key);
    }
  }

  /** The codes of the first `j` agents. */
  function CodesOfFirst(agents: seq<Definition>, j: nat): set<string>
    requires j <= |agents|
  {
    if j == 0 then {} else CodesOfFirst(agents, j - 1) + {agents[j - 1].code}
  }

  lemma {:induction false} CodesOfFirstMeaning(agents: seq<Definition>, j: nat, code: string)
    requires j <= |agents|
    ensures code in CodesOfFirst(agents, j) <==> exists i | 0 <= i < j :: agents[i].code == code
  {
    if j == 0 {
    } else {
      CodesOfFirstMeaning(agents, j - 1, code);
    }
  }

  /** The contracts present are exactly the first `k` of the catalog. */
  ghost predicate HoldsContracts(s: Store, source: Catalog, k: nat) {
    && k <= |source.functionContracts|
    && (forall i | 0 <= i < k :: ContractCurrent(s, source.functionContracts[i]))
    && s.contracts.Keys == KeysOfFirst(source.functionContracts, k)
  }

  /** The agents present are exactly the first `j`, as active versions, and, if `drafted`, agent `j`,
      as a draft. */
  ghost predicate HoldsAgents(s: Store, source: Catalog, settings: Settings, j: nat, drafted: bool) {
    && j <= |source.agents| && (drafted ==> j < |source.agents|)
    && (forall i | 0 <= i < j :: Has(s, source.agents[i], "ACTIVE", source, settings))
    && (drafted ==> Has(s, source.agents[j], "DRAFT", source, settings))
    && s.agents.Keys == CodesOfFirst(source.agents, if drafted then j + 1 else j)
  }

  /** A point of the plan: agents exist only when all contracts do, and every version belongs to its
      agent, as its only version. */
  ghost predicate Planned(s: Store, source: Catalog, settings: Settings, k: nat, j: nat, drafted: bool) {
    && ValidStore(s)
    && HoldsContracts(s, source, k)
    && HoldsAgents(s, source, settings, j, drafted)
    && (k < |source.functionContracts| ==> j == 0 && !drafted)
    && OneVersionEach(s)
  }

  ghost predicate OneVersionEach(s: Store) {
    forall id | id in s.versions ::
      s.versions[id].manifest.code in s.agents && s.agents[s.versions[id].manifest.code] == [id]
  }

  lemma EmptyIsPlanned(source: Catalog, settings: Settings)
    ensures Planned(EMPTY_STORE, source, settings, 0, 0, false)
  {
  }

  lemma ContractAdded(s: Store, source: Catalog, k: nat)
    requires DistinctKeys(source.functionContracts) && HoldsContracts(s, source, k) && k < |source.functionContracts|
    ensures HoldsContracts(Effect(s, CreateContract(source.functionContracts[k])), source, k + 1)
  {
    var s' := Effect(s, CreateContract(source.functionContracts[k]));
    forall i | 0 <= i < k
      ensures ContractCurrent(s', source.functionContracts[i])
    {
      assert ContractCurrent(s, source.functionContracts[i]);
    }
  }

  /** `listed` holds exactly the first `k` contracts of the catalog. */
  ghost predicate ListsFirst(listed: map<ContractKey, FunctionContract>, source: Catalog, k: nat) {
    && k <= |source.functionContracts|
    && (forall i | 0 <= i < k :: KeyOf(source.functionContracts[i]) in listed
          && listed[KeyOf(source.functionContracts[i])] == source.functionContracts[i])
    && listed.Keys == KeysOfFirst(source.functionContracts, k)
  }

  lemma ContractLoopStep(w: World, listed: map<ContractKey, FunctionContract>, cs: seq<FunctionContract>, i: nat,
        network: Network)
    requires i < |cs|
    ensures ReconcileContracts(w, listed, cs[i..], network) ==
              if KeyOf(cs[i]) in listed then
                if SameContract(listed[KeyOf(cs[i])], cs[i]) then ReconcileContracts(w, listed, cs[i + 1..], network)
                else Outcome(w, Some(ContractDrift(cs[i].code)))
              else
                var w' := Deliver(w, CreateContract(cs[i]), network);
                if Answered(w, CreateContract(cs[i]), network) then ReconcileContracts(w', listed, cs[i + 1..], network)
                else Outcome(w', Some(RequestFailed))
  {
    assert cs[i..][0] == cs[i] && cs[i..][1..] == cs[i + 1..];
  }

  /** The contracts listed at the start are passed over. */
  lemma {:induction false} ListedArePassed(w: World, source: Catalog, network: Network,
      listed: map<ContractKey, FunctionContract>, k: nat, i: nat)
    requires ListsFirst(listed, source, k) && i <= k
    ensures ReconcileContracts(w, listed, source.functionContracts[i..], network)
         == ReconcileContracts(w, listed, source.functionContracts[k..], network)
    decreases k - i
  {
    if i == k {
    } else {
      ContractLoopStep(w, listed, source.functionContracts, i, network);
      ListedArePassed(w, source, network, listed, k, i + 1);
    }
  }

  lemma NotListed(source: Catalog, listed: map<ContractKey, FunctionContract>, k: nat, i: nat)
    requires DistinctKeys(source.functionContracts) && ListsFirst(listed, source, k)
    requires k <= i < |source.functionContracts|
    ensures KeyOf(source.functionContracts[i]) !in listed
  {
    KeysOfFirstMeaning(source.functionContracts, k, KeyOf(source.functionContracts[i]));
  }

  /** Under any faults the contract loop moves from one prefix of the catalog's contracts to a longer
      one, and to all of them when it succeeds. */
  lemma {:induction false} ContractsFollowPlan(w: World, source: Catalog, network: Network,
      listed: map<ContractKey, FunctionContract>, k: nat, i: nat) returns (k': nat)
    requires DistinctKeys(source.functionContracts) && ListsFirst(listed, source, k)
    requires k <= i && HoldsContracts(w.store, source, i)
    ensures var out := ReconcileContracts(w, listed, source.functionContracts[i..], network);
      && i <= k' && HoldsContracts(out.world.store, source, k')
      && (out.error.None? ==> k' == |source.functionContracts|)
      && (FaultFree(network) ==> out.error.None?)
    decreases |source.functionContracts| - i
  {
    if i == |source.functionContracts| {
      k' := i;
    } else {
      var r := CreateContract(source.functionContracts[i]);
      NotListed(source, listed, k, i);
      ContractLoopStep(w, listed, source.functionContracts, i, network);
      ContractAdded(w.store, source, i);
      if Answered(w, r, network) {
        k' := ContractsFollowPlan(Deliver(w, r, network), source, network, listed, k, i + 1);
      } else {
        k' := if network(|w.log|) == RequestLost then i else i + 1;
      }
    }
  }

  /** The contract loop sends nothing but contracts. */
  lemma {:induction false} ContractsLeaveNoDraft(w: World, listed: map<ContractKey, FunctionContract>,
      cs: seq<FunctionContract>, network: Network)
    requires !LeavesDraft(w, network)
    ensures !LeavesDraft(ReconcileContracts(w, listed, cs, network).world, network)
    decreases |cs|
  {
    if cs == [] {
    } else {
      var w' := if KeyOf(cs[0]) in listed then w else Deliver(w, CreateContract(cs[0]), network);
      ContractsLeaveNoDraft(w', listed, cs[1..], network);
    }
  }

  lemma PlannedListsFirst(s: Store, source: Catalog, k: nat)
    requires HoldsContracts(s, source, k)
    ensures ListsFirst(s.contracts, source, k)
  {
    assert forall i | 0 <= i < k :: ContractCurrent(s, source.functionContracts[i]);
  }

  lemma AgentsUntouched(s: Store, s': Store, source: Catalog, settings: Settings, j: nat, drafted: bool)
    requires HoldsAgents(s, source, settings, j, drafted) && s'.agents == s.agents && s'.versions == s.versions
    ensures HoldsAgents(s', source, settings, j, drafted)
  {
    assert forall i | 0 <= i < j :: Has(s, source.agents[i], "ACTIVE", source, settings) ==>
             Has(s', source.agents[i], "ACTIVE", source, settings);
  }

  /** The contract loop moves along the plan. */
  lemma ContractPhase(w: World, source: Catalog, settings: Settings, network: Network, k: nat, j: nat, drafted: bool)
    returns (k': nat)
    requires Plannable(source) && Planned(w.store, source, settings, k, j, drafted)
    ensures var out := ReconcileContracts(w, w.store.contracts, source.functionContracts, network);
      && k <= k' && Planned(out.world.store, source, settings, k', j, drafted)
      && (out.error.None? ==> k' == |source.functionContracts|)
      && (FaultFree(network) || k == |source.functionContracts| ==> out.error.None?)
      && (k == |source.functionContracts| ==> out.world == w)
  {
    PlannedListsFirst(w.store, source, k);
    assert source.functionContracts[0..] == source.functionContracts;
    ListedArePassed(w, source, network, w.store.contracts, k, 0);
    k' := ContractsFollowPlan(w, source, network, w.store.contracts, k, k);
    ContractsPreserve(w.store, w, source.functionContracts, network);
    var s' := ReconcileContracts(w, w.store.contracts, source.functionContracts, network).world.store;
    AgentsUntouched(w.store, s', source, settings, j, drafted);
    if k == |source.functionContracts| {
      ConvergedContractsOnlyRead(w, source.functionContracts, network);
    }
  }

  lemma PublishKeepsOneVersion(w: World, m: Manifest, network: Network)
    requires ValidStore(w.store) && m.code !in w.store.agents && OneVersionEach(w.store)
    ensures OneVersionEach(Publish(w, m, network).world.store)
  {
    var drafted := Effect(w.store, ImportManifest(m));
    assert VersionsOf(w.store, m.code) == [];
    assert drafted.agents[m.code] == [w.store.nextId];
    assert OneVersionEach(drafted);
    assert OneVersionEach(Effect(drafted, PublishVersion(w.store.nextId)));
  }

  lemma HasIsPreserved(s: Store, s': Store, a: Definition, status: string, source: Catalog, settings: Settings)
    requires Has(s, a, status, source, settings) && Preserves(s, s')
    ensures Has(s', a, status, source, settings)
  {
  }

  lemma AgentAdded(s: Store, s': Store, source: Catalog, settings: Settings, j: nat, draft: bool)
    requires HoldsAgents(s, source, settings, j, false) && j < |source.agents| && Preserves(s, s')
    requires s'.agents.Keys == s.agents.Keys + {source.agents[j].code}
    requires Has(s', source.agents[j], if draft then "DRAFT" else "ACTIVE", source, settings)
    ensures HoldsAgents(s', source, settings, if draft then j else j + 1, draft)
  {
    forall i | 0 <= i < j
      ensures Has(s', source.agents[i], "ACTIVE", source, settings)
    {
      HasIsPreserved(s, s', source.agents[i], "ACTIVE", source, settings);
    }
  }

  lemma ContractsUntouched(s: Store, s': Store, source: Catalog, k: nat)
    requires HoldsContracts(s, source, k) && s'.contracts == s.contracts
    ensures HoldsContracts(s', source, k)
  {
    assert forall i | 0 <= i < k ::
             ContractCurrent(s, source.functionContracts[i]) ==> ContractCurrent(s', source.functionContracts[i]);
  }

  lemma Extended(s: Store, s': Store, source: Catalog, settings: Settings, j: nat, draft: bool)
    requires Planned(s, source, settings, |source.functionContracts|, j, false) && j < |source.agents|
    requires ValidStore(s') && Preserves(s, s') && s'.contracts == s.contracts && OneVersionEach(s')
    requires s'.agents.Keys == s.agents.Keys + {source.agents[j].code}
    requires Has(s', source.agents[j], if draft then "DRAFT" else "ACTIVE", source, settings)
    ensures Planned(s', source, settings, |source.functionContracts|, if draft then j else j + 1, draft)
  {
    AgentAdded(s, s', source, settings, j, draft);
    ContractsUntouched(s, s', source, |source.functionContracts|);
  }

  /** What handling an absent agent may do: leave it absent, draft it, or publish it. It is drafted exactly
      when the last request was an import whose answer was lost or a publish that was lost. */
  ghost predicate AbsentOutcome(s: Store, out: Outcome, a: Definition, source: Catalog, settings: Settings,
                                network: Network) {
    var s' := out.world.store;
    && a.code !in s.agents
    && ValidStore(s') && Preserves(s, s') && s'.contracts == s.contracts && OneVersionEach(s')
    && (s' == s || Has(s', a, "DRAFT", source, settings) || Has(s', a, "ACTIVE", source, settings))
    && (Has(s', a, "DRAFT", source, settings) <==> LeavesDraft(out.world, network))
    && (s' != s ==> s'.agents.Keys == s.agents.Keys + {a.code})
    && (out.error.None? ==> Has(s', a, "ACTIVE", source, settings) && s' != s)
  }

  lemma PublishIsAbsentOutcome(w: World, source: Catalog, a: Definition, settings: Settings, network: Network)
    requires ValidStore(w.store) && OneVersionEach(w.store) && a.code !in w.store.agents
    ensures var out := Publish(w, Render(source, a, settings.demoAgentUrl), network);
      AbsentOutcome(w.store, out, a, source, settings, network) && (FaultFree(network) ==> out.error.None?)
  {
    var m := Render(source, a, settings.demoAgentUrl);
    PublishPreserves(w, m, network);
    PublishOutcomes(w, source, a, settings, network);
    PublishKeepsOneVersion(w, m, network);
  }

  /** Handling an absent agent either publishes it or stops at one of the two reading requests before. */
  lemma AbsentAgentCases(w: World, source: Catalog, a: Definition, settings: Settings, network: Network)
    requires a.code !in w.store.agents
    ensures var m := Render(source, a, settings.demoAgentUrl);
      var w2 := Deliver(Deliver(w, ValidateManifest(m), network), GetAgent(a.code), network);
      var out := ReconcileAgent(w, source, a, settings, network);
      && w2.store == w.store
      && (|| out == Publish(w2, m, network)
          || (out.world.store == w.store && out.error.Some? && !LeavesDraft(out.world, network) && !FaultFree(network)))
  {
  }

  lemma AbsentAgentOutcomes(w: World, source: Catalog, a: Definition, settings: Settings, network: Network)
    requires ValidStore(w.store) && OneVersionEach(w.store) && a.code !in w.store.agents
    ensures var out := ReconcileAgent(w, source, a, settings, network);
      AbsentOutcome(w.store, out, a, source, settings, network) && (FaultFree(network) ==> out.error.None?)
  {
    var m := Render(source, a, settings.demoAgentUrl);
    var w2 := Deliver(Deliver(w, ValidateManifest(m), network), GetAgent(a.code), network);
    AbsentAgentCases(w, source, a, settings, network);
    PublishIsAbsentOutcome(w2, source, a, settings, network);
  }

  lemma DraftOrActive(s: Store, a: Definition, source: Catalog, settings: Settings)
    ensures !(Has(s, a, "DRAFT", source, settings) && Has(s, a, "ACTIVE", source, settings))
  {
  }

  /** Handling the agent at the frontier moves the plan by at most one step. */
  lemma FrontierAgent(s: Store, out: Outcome, source: Catalog, settings: Settings, network: Network, j: nat)
    returns (j': nat, drafted': bool)
    requires Planned(s, source, settings, |source.functionContracts|, j, false) && j < |source.agents|
    requires AbsentOutcome(s, out, source.agents[j], source, settings, network)
    ensures j <= j' <= j + 1 && (drafted' <==> LeavesDraft(out.world, network))
    ensures Planned(out.world.store, source, settings, |source.functionContracts|, j', drafted')
    ensures out.error.None? ==> j' == j + 1 && !drafted'
  {
    var s' := out.world.store;
    DraftOrActive(s', source.agents[j], source, settings);
    if s' == s {
      j', drafted' := j, false;
    } else if Has(s', source.agents[j], "DRAFT", source, settings) {
      j', drafted' := j, true;
      Extended(s, s', source, settings, j, true);
    } else {
      j', drafted' := j + 1, false;
      Extended(s, s', source, settings, j, false);
    }
  }

  lemma AgentLoopStep(w: World, source: Catalog, i: nat, settings: Settings, network: Network)
    requires i < |source.agents|
    ensures var first := ReconcileAgent(w, source, source.agents[i], settings, network);
      ReconcileAgents(w, source, source.agents[i..], settings, network) ==
        if first.error.Some? then first
        else ReconcileAgents(first.world, source, source.agents[i + 1..], settings, network)
  {
    assert source.agents[i..][0] == source.agents[i] && source.agents[i..][1..] == source.agents[i + 1..];
  }

  /** The last request sent for an agent that is found is a reading one. */
  lemma FoundAgentIsOnlyRead(w: World, source: Catalog, settings: Settings, network: Network, a: Definition)
    requires a.code in w.store.agents
    ensures !LeavesDraft(ReconcileAgent(w, source, a, settings, network).world, network)
  {
  }

  lemma ActiveAgentIsPassed(w: World, source: Catalog, settings: Settings, network: Network, a: Definition)
    requires ValidStore(w.store) && Has(w.store, a, "ACTIVE", source, settings)
    ensures var first := ReconcileAgent(w, source, a, settings, network);
      && first.world.store == w.store && !LeavesDraft(first.world, network)
      && (FaultFree(network) ==> first.error.None?)
  {
    FoundAgentIsOnlyRead(w, source, settings, network, a);
    ActiveIsCurrent(w.store, a, source, settings);
    AgentOutcomes(w, source, a, settings, network);
  }

  /** Active agents are passed over: the loop reaches agent `j` with the same store, or a reading
      request fails before. */
  lemma {:induction false} ActiveArePassed(w: World, source: Catalog, settings: Settings, network: Network, i: nat,
        j: nat)
    returns (w': World)
    requires ValidStore(w.store) && i <= j <= |source.agents| && !LeavesDraft(w, network)
    requires forall k | i <= k < j :: Has(w.store, source.agents[k], "ACTIVE", source, settings)
    ensures var out := ReconcileAgents(w, source, source.agents[i..], settings, network);
      && w'.store == w.store && !LeavesDraft(w', network)
      && (|| out == ReconcileAgents(w', source, source.agents[j..], settings, network)
          || (out.error.Some? && out.world.store == w.store && !LeavesDraft(out.world, network) && !FaultFree(network)))
    decreases j - i
  {
    w' := w;
    if i == j {
    } else {
      var first := ReconcileAgent(w, source, source.agents[i], settings, network);
      AgentLoopStep(w, source, i, settings, network);
      ActiveAgentIsPassed(w, source, settings, network, source.agents[i]);
      if first.error.None? {
        w' := ActiveArePassed(first.world, source, settings, network, i + 1, j);
      }
    }
  }

  /** A draft at the frontier is found without an active version, and stops the run. */
  lemma DraftStopsRun(w: World, source: Catalog, settings: Settings, network: Network, j: nat)
    requires Planned(w.store, source, settings, |source.functionContracts|, j, true)
    ensures var out := ReconcileAgents(w, source, source.agents[j..], settings, network);
      out.world.store == w.store && out.error.Some? && !LeavesDraft(out.world, network)
  {
    AgentLoopStep(w, source, j, settings, network);
    FoundAgentIsOnlyRead(w, source, settings, network, source.agents[j]);
    DraftIsNotActive(w.store, source.agents[j], source, settings);
    AgentOutcomes(w, source, source.agents[j], settings, network);
  }

  /** A loop that takes one step per index and stops at the first error. */
  function Loop(step: (World, nat) -> Outcome, w: World, j: nat, n: nat): Outcome
    requires j <= n
    decreases n - j
  {
    if j == n then Outcome(w, None)
    else
      var first := step(w, j);
      if first.error.Some? then first else Loop(step, first.world, j + 1, n)
  }

  /** A step from index `j` keeps the stores that satisfy `at`, flagged exactly when it ends `bad`; on
      success it reaches the next index, unflagged. */
  ghost predicate StepKeeps(at: (Store, nat, bool) -> bool, bad: World -> bool, j: nat, out: Outcome) {
    exists j': nat, drafted' :: j <= j' && at(out.world.store, j', drafted')
      && (drafted' <==> bad(out.world)) && (out.error.None? ==> j' == j + 1 && !drafted')
  }

  lemma {:induction false} LoopKeeps(at: (Store, nat, bool) -> bool, bad: World -> bool,
      step: (World, nat) -> Outcome, w: World, j: nat, n: nat)
    returns (j': nat, drafted': bool)
    requires j <= n && at(w.store, j, false) && !bad(w)
    requires forall v: World, i: nat | i < n && at(v.store, i, false) :: StepKeeps(at, bad, i, step(v, i))
    ensures j <= j' && at(Loop(step, w, j, n).world.store, j', drafted')
    ensures drafted' <==> bad(Loop(step, w, j, n).world)
    ensures Loop(step, w, j, n).error.None? ==> j' == n && !drafted'
    decreases n - j
  {
    if j == n {
      j', drafted' := j, false;
    } else {
      var first := step(w, j);
      assert StepKeeps(at, bad, j, first);
      j', drafted' :| j <= j' && at(first.world.store, j', drafted')
        && (drafted' <==> bad(first.world)) && (first.error.None? ==> j' == j + 1 && !drafted');
      if first.error.None? {
        j', drafted' := LoopKeeps(at, bad, step, first.world, j + 1, n);
      }
    }
  }

  /** Without errors in its steps the loop reaches its end. */
  lemma {:induction false} LoopSucceeds(at: (Store, nat, bool) -> bool, bad: World -> bool,
      step: (World, nat) -> Outcome, w: World, j: nat, n: nat)
    requires j <= n && at(w.store, j, false)
    requires forall v: World, i: nat | i < n && at(v.store, i, false) ::
               StepKeeps(at, bad, i, step(v, i)) && step(v, i).error.None?
    ensures Loop(step, w, j, n).error.None?
    decreases n - j
  {
    if j == n {
    } else {
      var first := step(w, j);
      assert StepKeeps(at, bad, j, first);
      LoopSucceeds(at, bad, step, first.world, j + 1, n);
    }
  }

  /** The loop over agents, by index. */
  function AgentStep(source: Catalog, settings: Settings, network: Network): (World, nat) -> Outcome {
    (w: World, i: nat) =>
      if i < |source.agents| then ReconcileAgent(w, source, source.agents[i], settings, network) else Outcome(w, None)
  }

  lemma {:induction false} AgentsLoop(w: World, source: Catalog, settings: Settings, network: Network, j: nat)
    requires j <= |source.agents|
    ensures ReconcileAgents(w, source, source.agents[j..], settings, network)
         == Loop(AgentStep(source, settings, network), w, j, |source.agents|)
    decreases |source.agents| - j
  {
    if j == |source.agents| {
    } else {
      AgentLoopStep(w, source, j, settings, network);
      var first := ReconcileAgent(w, source, source.agents[j], settings, network);
      AgentsLoop(first.world, source, settings, network, j + 1);
    }
  }

  /** The points of the plan after all contracts. */
  ghost function PlanPoint(source: Catalog, settings: Settings): (Store, nat, bool) -> bool {
    (s: Store, j: nat, drafted: bool) => Planned(s, source, settings, |source.functionContracts|, j, drafted)
  }

  ghost function DraftLeft(network: Network): World -> bool {
    (w: World) => LeavesDraft(w, network)
  }

  lemma FrontierTurn(w: World, source: Catalog, settings: Settings, network: Network, j: nat)
    requires Plannable(source) && Planned(w.store, source, settings, |source.functionContracts|, j, false)
    requires j < |source.agents|
    ensures var first := ReconcileAgent(w, source, source.agents[j], settings, network);
      StepKeeps(PlanPoint(source, settings), DraftLeft(network), j, first) && (FaultFree(network) ==> first.error.None?)
  {
    CodesOfFirstMeaning(source.agents, j, source.agents[j].code);
    AbsentAgentOutcomes(w, source, source.agents[j], settings, network);
    var first := ReconcileAgent(w, source, source.agents[j], settings, network);
    var j', drafted' := FrontierAgent(w.store, first, source, settings, network, j);
    assert PlanPoint(source, settings)(first.world.store, j', drafted');
  }

  /** Without a draft, the loop publishes the remaining agents in order until something is lost. */
  lemma RestFollowsPlan(w: World, source: Catalog, settings: Settings, network: Network, j: nat)
    returns (j': nat, drafted': bool)
    requires Plannable(source) && Planned(w.store, source, settings, |source.functionContracts|, j, false)
    requires !LeavesDraft(w, network)
    ensures var out := ReconcileAgents(w, source, source.agents[j..], settings, network);
      && j <= j' && Planned(out.world.store, source, settings, |source.functionContracts|, j', drafted')
      && (drafted' <==> LeavesDraft(out.world, network))
      && (out.error.None? ==> j' == |source.agents| && !drafted')
      && (FaultFree(network) ==> out.error.None?)
  {
    var at, bad, step := PlanPoint(source, settings), DraftLeft(network), AgentStep(source, settings, network);
    var n := |source.agents|;
    forall v: World, i: nat | i < n && at(v.store, i, false)
      ensures StepKeeps(at, bad, i, step(v, i)) && (FaultFree(network) ==> step(v, i).error.None?)
    {
      FrontierTurn(v, source, settings, network, i);
    }
    AgentsLoop(w, source, settings, network, j);
    j', drafted' := LoopKeeps(at, bad, step, w, j, n);
    if FaultFree(network) {
      LoopSucceeds(at, bad, step, w, j, n);
    }
  }

  /** Under any faults the active agents stay a prefix of the catalog's, with at most one draft, right
      after it. */
  lemma AgentsFollowPlan(w: World, source: Catalog, settings: Settings, network: Network, j: nat, drafted: bool)
    returns (j': nat, drafted': bool)
    requires Plannable(source) && Planned(w.store, source, settings, |source.functionContracts|, j, drafted)
    requires !LeavesDraft(w, network)
    ensures var out := ReconcileAgents(w, source, source.agents, settings, network);
      && j <= j' && Planned(out.world.store, source, settings, |source.functionContracts|, j', drafted')
      && (drafted' <==> drafted || LeavesDraft(out.world, network))
      && (out.error.None? ==> j' == |source.agents| && !drafted')
      && (drafted ==> out.error.Some? && out.world.store == w.store && j' == j && drafted')
      && (FaultFree(network) && !drafted ==> out.error.None?)
  {
    j', drafted' := j, drafted;
    assert source.agents[0..] == source.agents;
    var w' := ActiveArePassed(w, source, settings, network, 0, j);
    if drafted {
      DraftStopsRun(w', source, settings, network, j);
    } else if ReconcileAgents(w, source, source.agents, settings, network)
           == ReconcileAgents(w', source, source.agents[j..], settings, network) {
      j', drafted' := RestFollowsPlan(w', source, settings, network, j);
    }
  }

  lemma ReconcileFollowsPlan(w: World, source: Catalog, settings: Settings, network: Network, k: nat, j: nat,
        drafted: bool)
    returns (k': nat, j': nat, drafted': bool)
    requires Plannable(source) && Planned(w.store, source, settings, k, j, drafted) && !LeavesDraft(w, network)
    ensures var out := Reconcile(w, w.store.contracts, source, settings, network);
      && k <= k' && j <= j'
      && Planned(out.world.store, source, settings, k', j', drafted')
      && (drafted' <==> drafted || LeavesDraft(out.world, network))
      && (out.error.None? ==> k' == |source.functionContracts| && j' == |source.agents| && !drafted')
      && (drafted ==> out.error.Some? && k' == k && j' == j && drafted')
      && (FaultFree(network) && !drafted ==> out.error.None?)
  {
    k' := ContractPhase(w, source, settings, network, k, j, drafted);
    ContractsLeaveNoDraft(w, w.store.contracts, source.functionContracts, network);
    j', drafted' := j, drafted;
    var contracts := ReconcileContracts(w, w.store.contracts, source.functionContracts, network);
    if contracts.error.None? {
      j', drafted' := AgentsFollowPlan(contracts.world, source, settings, network, j, drafted);
    }
  }

  /** One run, under any faults, moves the registry forward along the plan. It finishes the plan when
      it succeeds; a draft it finds stops it for good; without a draft, only faults can stop it. A draft is
      left exactly when there was one, or the run's last request is an import whose answer was lost or a
      publish that was lost. */
  lemma RunFollowsPlan(w: World, source: Catalog, settings: Settings, network: Network, k: nat, j: nat, drafted: bool)
    returns (k': nat, j': nat, drafted': bool)
    requires Plannable(source) && Planned(w.store, source, settings, k, j, drafted)
    ensures var out := Run(w, source, settings, network);
      && k <= k' && j <= j'
      && Planned(out.world.store, source, settings, k', j', drafted')
      && (out.error.None? ==> k' == |source.functionContracts| && j' == |source.agents| && !drafted')
      && (drafted ==> out.error.Some? && k' == k && j' == j && drafted')
      && (settings.accessToken != "" || w.log == [] ==>
            (drafted' <==> drafted || LeavesDraft(out.world, network)))
      && (FaultFree(network) && settings.accessToken != "" ==> (out.error.None? <==> !drafted))
  {
    k', j', drafted' := k, j, drafted;
    if settings.accessToken != "" && Answered(w, ListContracts, network) {
      k', j', drafted' :=
        ReconcileFollowsPlan(Deliver(w, ListContracts, network), source, settings, network, k, j, drafted);
    }
  }

  /** Run `i` of a sequence of runs that starts from `s` ends with an import whose answer was lost or a
      publish that was lost. */
  ghost predicate RunLeavesDraft(s: Store, source: Catalog, settings: Settings, networks: seq<Network>, i: nat)
    requires i < |networks|
  {
    var found := World(StoreAfter(s, source, settings, networks[..i]), []);
    LeavesDraft(Run(found, source, settings, networks[i]).world, networks[i])
  }

  lemma DraftLeftByPrefixOrLast(s: Store, source: Catalog, settings: Settings, networks: seq<Network>)
    requires networks != []
    ensures var n := |networks| - 1;
      (exists i: nat | i < |networks| :: RunLeavesDraft(s, source, settings, networks, i)) <==>
      (exists i: nat | i < n :: RunLeavesDraft(s, source, settings, networks[..n], i))
        || RunLeavesDraft(s, source, settings, networks, n)
  {
    var n := |networks| - 1;
    forall i: nat | i < n
      ensures RunLeavesDraft(s, source, settings, networks[..n], i)
         <==> RunLeavesDraft(s, source, settings, networks, i)
    {
      assert networks[..n][..i] == networks[..i];
    }
  }

  /** After any number of runs from an empty registry, each under its own faults, the registry is on
      the plan, and an agent is left a draft exactly when some run ended with an import whose answer was
      lost or a publish that was lost; and then, without faults, a run succeeds exactly when there was no
      such run. */
  lemma {:induction false} RegistryIsAlwaysPlanned(source: Catalog, settings: Settings, networks: seq<Network>)
    returns (k: nat, j: nat, drafted: bool)
    requires Plannable(source)
    ensures var s := StoreAfter(EMPTY_STORE, source, settings, networks);
      && Planned(s, source, settings, k, j, drafted)
      && (drafted <==> exists i: nat | i < |networks| :: RunLeavesDraft(EMPTY_STORE, source, settings, networks, i))
      && forall network :: FaultFree(network) && settings.accessToken != "" ==>
           (Run(World(s, []), source, settings, network).error.None? <==> !drafted)
  {
    if networks == [] {
      EmptyIsPlanned(source, settings);
      k, j, drafted := 0, 0, false;
    } else {
      var n := |networks| - 1;
      k, j, drafted := RegistryIsAlwaysPlanned(source, settings, networks[..n]);
      var w := World(StoreAfter(EMPTY_STORE, source, settings, networks[..n]), []);
      k, j, drafted := RunFollowsPlan(w, source, settings, networks[n], k, j, drafted);
      DraftLeftByPrefixOrLast(EMPTY_STORE, source, settings, networks);
    }
    if settings.accessToken != "" {
      SucceedsUnlessDrafted(StoreAfter(EMPTY_STORE, source, settings, networks), source, settings, k, j, drafted);
    }
  }

  lemma SucceedsUnlessDrafted(s: Store, source: Catalog, settings: Settings, k: nat, j: nat, drafted: bool)
    requires Plannable(source) && Planned(s, source, settings, k, j, drafted) && settings.accessToken != ""
    ensures forall network :: FaultFree(network) ==>
              (Run(World(s, []), source, settings, network).error.None? <==> !drafted)
  {
    forall network | FaultFree(network)
      ensures Run(World(s, []), source, settings, network).error.None? <==> !drafted
    {
      var _, _, _ := RunFollowsPlan(World(s, []), source, settings, network, k, j, drafted);
    }
  }
}
