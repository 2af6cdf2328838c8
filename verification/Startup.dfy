/** What the application derives from the catalog at start: the agent registry and the price list. */
module Startup {
  import opened Prelude
  import opened Catalog
  import opened CatalogParse
  import CatalogMeaning

  const BASE_SEPOLIA_USDC := "0x036CbD53842c5426634e7929541eC2318f3dCF7e"

  datatype RegistryError = NilAgent | EmptyCode | AlreadyRegistered(code: string)

  /** The registry is filled once and then only looked up. */
  class AgentRegistry {
    const agents: map<string, Definition>

    constructor (agents: map<string, Definition>)
      ensures this.agents == agents
    {
      this.agents := agents;
    }

    /** The agent that answers for `code`; none for an unknown code. */
    function Lookup(code: string): Option<Definition> {
      if code in agents then Some(agents[code]) else None
    }
  }

  /** `table` maps the code of each agent to the value made from that agent, and has no other key. */
  ghost predicate TableOf<V>(table: map<string, V>, agents: seq<Definition>, value: Definition -> V) {
    && (forall i | 0 <= i < |agents| :: agents[i].code in table && table[agents[i].code] == value(agents[i]))
    && forall code | code in table :: exists i | 0 <= i < |agents| :: agents[i].code == code
  }

  predicate Registrable(agents: seq<Option<Definition>>) {
    && (forall i | 0 <= i < |agents| :: agents[i].Some? && agents[i].value.code != "")
    && forall i, j | 0 <= i < j < |agents| :: agents[i].value.code != agents[j].value.code
  }

  /** Registration succeeds exactly for present agents with distinct nonempty codes. */
  method NewAgentRegistry(registered: seq<Option<Definition>>) returns (r: Result<AgentRegistry, RegistryError>)
    ensures r.Ok? <==> Registrable(registered)
    ensures r.Ok? <==>
              && (forall i | 0 <= i < |registered| :: registered[i].Some? && registered[i].value.code != "")
              && forall i, j | 0 <= i < j < |registered| :: registered[i].value.code != registered[j].value.code
    ensures r == Err(NilAgent) ==> None in registered
    ensures r == Err(EmptyCode) ==> exists a :: Some(a) in registered && a.code == ""
    ensures r.Err? && r.error.AlreadyRegistered? ==>
              exists i, j | 0 <= i < j < |registered| ::
                registered[i].Some? && registered[j].Some?
                && registered[i].value.code == registered[j].value.code == r.error.code
    ensures r.Ok? ==> forall i | 0 <= i < |registered| :: r.value.Lookup(registered[i].value.code) == registered[i]
    ensures r.Ok? ==> forall code | code in r.value.agents :: exists i | 0 <= i < |registered| ::
              registered[i] == Some(r.value.agents[code])
    ensures r.Ok? ==> forall code | code in r.value.agents :: r.value.agents[code].code == code
  {
    var agents: map<string, Definition> := map[];
    for i := 0 to |registered|
      invariant Registrable(registered[..i])
      invariant forall j | 0 <= j < i ::
                  registered[j].value.code in agents && Some(agents[registered[j].value.code]) == registered[j]
      invariant forall code | code in agents ::
                  agents[code].code == code && exists j | 0 <= j < i :: registered[j] == Some(agents[code])
    {
      if registered[i].None? {
        return Err(NilAgent);
      }
      var code := registered[i].value.code;
      if code == "" {
        return Err(EmptyCode);
      }
      if code in agents {
        ghost var j :| 0 <= j < i && registered[j] == Some(agents[code]);
        assert registered[j].value.code == registered[i].value.code;
        return Err(AlreadyRegistered(code));
      }
      agents := agents[code := registered[i].value];
      assert registered[..i + 1] == registered[..i] + [registered[i]];
    }
    assert registered[..|registered|] == registered;
    var registry := new AgentRegistry(agents);
    return Ok(registry);
  }

  datatype Terms = Terms(amountAtomic: string, asset: string, payTo: string)

  function TermsOf(a: Definition): Terms {
    Terms(a.priceAtomic, ASSET, a.payTo)
  }

  predicate TermsValid(t: Terms) {
    PositiveAtomic(t.amountAtomic) && EqualFold(t.asset, BASE_SEPOLIA_USDC) && EvmAddress(t.payTo)
  }

  /** Agent `i` is the first whose terms are not valid. */
  predicate FirstInvalid(definitions: seq<Definition>, i: nat)
    requires i < |definitions|
  {
    && !TermsValid(TermsOf(definitions[i]))
    && forall j | 0 <= j < i :: TermsValid(TermsOf(definitions[j]))
  }

  lemma TermsValidOfAll(definitions: seq<Definition>)
    ensures (forall i | 0 <= i < |definitions| :: TermsValid(TermsOf(definitions[i]))) <==>
              forall d | d in definitions :: CatalogMeaning.IsPrice(d.priceAtomic) && CatalogMeaning.IsAddress(d.payTo)
  {
    forall i | 0 <= i < |definitions|
      ensures definitions[i] in definitions
      ensures TermsValid(TermsOf(definitions[i])) <==>
                CatalogMeaning.IsPrice(definitions[i].priceAtomic) && CatalogMeaning.IsAddress(definitions[i].payTo)
    {
      TermsValidIff(definitions[i]);
    }
  }

  /** The table charges each agent its own price, in USDC, to its own wallet. */
  ghost predicate ChargesEach(table: map<string, Terms>, definitions: seq<Definition>) {
    forall d | d in definitions :: d.code in table
      && table[d.code].amountAtomic == d.priceAtomic && table[d.code].payTo == d.payTo
      && table[d.code].asset == "0x036CbD53842c5426634e7929541eC2318f3dCF7e"
  }

  lemma TermsValidIff(a: Definition)
    ensures TermsValid(TermsOf(a)) <==> CatalogMeaning.IsPrice(a.priceAtomic) && CatalogMeaning.IsAddress(a.payTo)
  {
    CatalogMeaning.PositiveAtomicIff(a.priceAtomic);
    CatalogMeaning.EvmAddressIff(a.payTo);
    assert EqualFold(ASSET, BASE_SEPOLIA_USDC);
  }

  lemma TableCharges(table: map<string, Terms>, definitions: seq<Definition>)
    requires TableOf(table, definitions, TermsOf)
    ensures ChargesEach(table, definitions)
  {
    forall d | d in definitions
      ensures d.code in table && table[d.code] == TermsOf(d)
    {
      var i :| 0 <= i < |definitions| && definitions[i] == d;
    }
  }

  /** By fields: loading succeeds exactly when every agent has a price and a wallet, and then each is charged
      its own. */
  ghost predicate LoadedAsPriced(definitions: seq<Definition>, r: Result<map<string, Terms>, string>) {
    && (r.Ok? <==> forall d | d in definitions ::
          CatalogMeaning.IsPrice(d.priceAtomic) && CatalogMeaning.IsAddress(d.payTo))
    && (r.Ok? && DistinctAgents(definitions) ==> ChargesEach(r.value, definitions))
  }

  lemma LoadedMeaning(definitions: seq<Definition>, r: Result<map<string, Terms>, string>)
    requires r.Ok? <==> forall i | 0 <= i < |definitions| :: TermsValid(TermsOf(definitions[i]))
    requires r.Ok? && DistinctAgents(definitions) ==> TableOf(r.value, definitions, TermsOf)
    ensures LoadedAsPriced(definitions, r)
  {
    TermsValidOfAll(definitions);
    if r.Ok? && DistinctAgents(definitions) {
      TableCharges(r.value, definitions);
    }
  }

  /** Loading succeeds exactly when every agent's terms are valid; an error names the first agent whose
      terms are not. For distinct codes the table holds each agent's terms. */
  method LoadAgentTerms(definitions: seq<Definition>) returns (r: Result<map<string, Terms>, string>)
    ensures r.Ok? <==> forall i | 0 <= i < |definitions| :: TermsValid(TermsOf(definitions[i]))
    ensures r.Err? ==> exists i | 0 <= i < |definitions| ::
              FirstInvalid(definitions, i) && definitions[i].code == r.error
    ensures r.Ok? && DistinctAgents(definitions) ==> TableOf(r.value, definitions, TermsOf)
    ensures LoadedAsPriced(definitions, r)
  {
    var agents: map<string, Terms> := map[];
    for i := 0 to |definitions|
      invariant forall j | 0 <= j < i :: TermsValid(TermsOf(definitions[j]))
      invariant DistinctAgents(definitions) ==> TableOf(agents, definitions[..i], TermsOf)
    {
      var terms := TermsOf(definitions[i]);
      if !TermsValid(terms) {
        assert FirstInvalid(definitions, i);
        r := Err(definitions[i].code);
        LoadedMeaning(definitions, r);
        return;
      }
      TableNext(agents, definitions, i, TermsOf);
      agents := agents[definitions[i].code := terms];
    }
    assert definitions[..|definitions|] == definitions;
    r := Ok(agents);
    LoadedMeaning(definitions, r);
  }

  lemma TableNext<V>(table: map<string, V>, agents: seq<Definition>, i: nat, value: Definition -> V)
    requires i < |agents|
    ensures DistinctAgents(agents) && TableOf(table, agents[..i], value) ==>
              TableOf(table[agents[i].code := value(agents[i])], agents[..i + 1], value)
  {
    if DistinctAgents(agents) && TableOf(table, agents[..i], value) {
      var table' := table[agents[i].code := value(agents[i])];
      var upTo := agents[..i + 1];
      forall code | code in table'
        ensures exists j | 0 <= j < |upTo| :: upTo[j].code == code
      {
        if code == agents[i].code {
          assert upTo[i].code == code;
        } else {
          var j :| 0 <= j < i && agents[..i][j].code == code;
          assert upTo[j].code == code;
        }
      }
      forall j | 0 <= j <= i
        ensures upTo[j].code in table' && table'[upTo[j].code] == value(upTo[j])
      {
        if j < i {
          assert agents[..i][j] == upTo[j];
        }
      }
    }
  }

  lemma AcceptedTermsAreValid(contracts: seq<FunctionContract>, a: Definition)
    requires AgentAccepted(contracts, a)
    ensures TermsValid(TermsOf(a))
  {
    assert EqualFold(ASSET, BASE_SEPOLIA_USDC);
  }

  /** Registration of a catalog's agents. */
  method RegisterCatalog(catalog: Catalog) returns (registry: AgentRegistry)
    requires Closed(catalog)
    ensures TableOf(registry.agents, catalog.agents, a => a)
  {
    var registered := seq(|catalog.agents|, i requires 0 <= i < |catalog.agents| => Some(catalog.agents[i]));
    assert forall i | 0 <= i < |registered| :: AgentAccepted(catalog.functionContracts, registered[i].value);
    var r := NewAgentRegistry(registered);
    registry := r.value;
    forall i | 0 <= i < |catalog.agents|
      ensures catalog.agents[i].code in registry.agents && registry.agents[catalog.agents[i].code] == catalog.agents[i]
    {
      assert registry.Lookup(registered[i].value.code) == registered[i];
    }
    forall code | code in registry.agents
      ensures exists i | 0 <= i < |catalog.agents| :: catalog.agents[i].code == code
    {
      var i :| 0 <= i < |registered| && registered[i] == Some(registry.agents[code]);
      assert catalog.agents[i].code == code;
    }
  }

  lemma TablesShareKeys<V, W>(v: map<string, V>, w: map<string, W>, agents: seq<Definition>,
        f: Definition -> V, g: Definition -> W)
    requires TableOf(v, agents, f) && TableOf(w, agents, g)
    ensures v.Keys == w.Keys
  {
  }

  /** On every accepted catalog both tables are built, and an agent is registered exactly when it has
      a price. */
  method Start(catalog: Catalog) returns (registry: AgentRegistry, prices: map<string, Terms>)
    requires Closed(catalog)
    ensures registry.agents.Keys == prices.Keys
    ensures TableOf(registry.agents, catalog.agents, a => a)
    ensures TableOf(prices, catalog.agents, TermsOf) && ChargesEach(prices, catalog.agents)
  {
    registry := RegisterCatalog(catalog);
    forall i | 0 <= i < |catalog.agents|
      ensures TermsValid(TermsOf(catalog.agents[i]))
    {
      AcceptedTermsAreValid(catalog.functionContracts, catalog.agents[i]);
    }
    var t := LoadAgentTerms(catalog.agents);
    prices := t.value;
    TableCharges(prices, catalog.agents);
    TablesShareKeys(registry.agents, prices, catalog.agents, a => a, TermsOf);
  }
}
