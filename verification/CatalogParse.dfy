/** `Parse` after YAML decoding: validation, enrichment in place, and a sorted contract list. */
module CatalogParse {
  import opened Prelude
  import Json
  import SchemaCheck
  import opened Catalog
  import CatalogMeaning
  import opened ContractOrder

  datatype ParseError =
    | VersionsRequired
    | HeaderInvalid
    | ContractIncomplete(index: nat)
    | ContractInvalid(index: nat)
    | DuplicateContract(code: string)
    | ContractsRequired
    | AgentInvalid(index: nat)
    | DuplicateAgent(code: string)
    | RoleInvalid(code: string)
    | RuntimeIncomplete(code: string)
    | RootNeedsDependencies(code: string)
    | SpecialistHasDependencies(code: string)
    | DependencyInvalid(code: string)

  /** The agent has the defect that the error names. */
  predicate HasDefect(contracts: seq<FunctionContract>, a: Definition, e: ParseError) {
    match e
    case RoleInvalid(code) => a.code == code && a.runtime.role != "root" && a.runtime.role != "specialist"
    case RuntimeIncomplete(code) => a.code == code && (a.runtime.prompt == "" || a.runtime.fixture.Null?)
    case RootNeedsDependencies(code) => a.code == code && a.runtime.role == "root" && a.dependencies == []
    case SpecialistHasDependencies(code) => a.code == code && a.runtime.role == "specialist" && a.dependencies != []
    case DependencyInvalid(code) =>
      a.code == code && exists d | 0 <= d < |a.dependencies| :: !DependencyAccepted(contracts, a.dependencies[d])
    case _ => false
  }

  /** An error names a defect the document has. */
  ghost predicate ErrorJustified(doc: Document, size: Size, e: ParseError) {
    match e
    case VersionsRequired => !VersionsPresent(doc)
    case HeaderInvalid => !HeaderAccepted(doc)
    case ContractIncomplete(i) => i < |doc.functionContracts| && !ContractComplete(doc.functionContracts[i])
    case ContractInvalid(i) => i < |doc.functionContracts| && !SchemasAccepted(doc.functionContracts[i], size)
    case DuplicateContract(code) =>
      exists i, j ::
        0 <= i < j < |doc.functionContracts| && doc.functionContracts[i].code == doc.functionContracts[j].code == code
    case ContractsRequired => doc.functionContracts == []
    case AgentInvalid(i) => i < |doc.agents| && !AgentComplete(doc.functionContracts, doc.agents[i])
    case DuplicateAgent(code) =>
      exists i, j :: 0 <= i < j < |doc.agents| && doc.agents[i].code == doc.agents[j].code == code
    case _ => exists i | 0 <= i < |doc.agents| :: HasDefect(doc.functionContracts, doc.agents[i], e)
  }

  /** The catalog of a document: its contracts with the version, strictly sorted by code, and its
      agents in order, each carrying the fields of every contract with its function code. */
  ghost predicate IsCatalogOf(doc: Document, catalog: Catalog) {
    && catalog.contractVersion == doc.contractVersion && catalog.agentVersion == doc.agentVersion
    && catalog.network == doc.network && catalog.asset == doc.asset
    && catalog.developerId == doc.developerId && catalog.developerName == doc.developerName
    && StrictlyAscending(catalog.functionContracts)
    && multiset(catalog.functionContracts) == multiset(VersionedContracts(doc))
    && |catalog.agents| == |doc.agents|
    && forall i, j | 0 <= i < |doc.agents| && 0 <= j < |doc.functionContracts|
         && doc.functionContracts[j].code == doc.agents[i].functionCode ::
         catalog.agents[i] == Enrich(doc, doc.functionContracts[j], doc.agents[i])
  }

  method ValidateFunctionContract(c: FunctionContract, size: Size) returns (ok: bool)
    requires (c.inputSchema.Obj? || c.inputSchema.Null?) && (c.outputSchema.Obj? || c.outputSchema.Null?)
    ensures ok <==> SchemasAccepted(c, size)
    ensures ContractComplete(c) ==> (ok <==> CatalogMeaning.ContractMeets(c, size))
  {
    CatalogMeaning.ContractIff(c, size);
    var inputError := SchemaCheck.ValidateSchema(c.inputSchema, size);
    if inputError.Some? || c.inputSchema.Get("type") != Json.Str("object") {
      return false;
    }
    var outputError := SchemaCheck.ValidateSchema(c.outputSchema, size);
    if outputError.Some? {
      return false;
    }
    return SchemaCheck.MatchesResponseFormat(c.responseFormat, c.outputSchema);
  }

  /** Decoded schemas are objects or absent. */
  predicate SchemasDecoded(doc: Document) {
    forall i | 0 <= i < |doc.functionContracts| ::
      && (doc.functionContracts[i].inputSchema.Obj? || doc.functionContracts[i].inputSchema.Null?)
      && (doc.functionContracts[i].outputSchema.Obj? || doc.functionContracts[i].outputSchema.Null?)
  }

  /** `known` maps the codes of `contracts` to them. */
  ghost predicate Indexes(known: map<string, FunctionContract>, contracts: seq<FunctionContract>) {
    && (forall i | 0 <= i < |contracts| :: contracts[i].code in known && known[contracts[i].code] == contracts[i])
    && forall code | code in known :: exists i | 0 <= i < |contracts| :: contracts[i].code == code
  }

  lemma IndexesNext(known: map<string, FunctionContract>, contracts: seq<FunctionContract>, c: FunctionContract)
    requires Indexes(known, contracts) && c.code !in known
    ensures Indexes(known[c.code := c], contracts + [c])
  {
    var more := contracts + [c];
    assert more[|contracts|] == c;
    var known' := known[c.code := c];
    forall code | code in known'
      ensures exists i | 0 <= i < |more| :: more[i].code == code
    {
      if code != c.code {
        var i :| 0 <= i < |contracts| && contracts[i].code == code;
        assert more[i].code == code;
      }
    }
  }

  /** The checks of contract `i`, when the earlier ones are known. */
  method CheckContract(doc: Document, i: nat, known: map<string, FunctionContract>, size: Size)
    returns (error: Option<ParseError>)
    requires SchemasDecoded(doc) && i < |doc.functionContracts|
    requires Indexes(known, VersionedContracts(doc)[..i])
    ensures var c := doc.functionContracts[i];
      error.None? <==> ContractComplete(c) && SchemasAccepted(c, size) && c.code !in known
    ensures error.Some? ==> ErrorJustified(doc, size, error.value) && !error.value.ContractsRequired?
  {
    var contract := doc.functionContracts[i];
    if !ContractComplete(contract) {
      return Some(ContractIncomplete(i));
    }
    var valid := ValidateFunctionContract(contract, size);
    if !valid {
      return Some(ContractInvalid(i));
    }
    if contract.code in known {
      ghost var earlier := VersionedContracts(doc)[..i];
      ghost var j :| 0 <= j < i && earlier[j].code == contract.code;
      assert doc.functionContracts[j].code == doc.functionContracts[i].code;
      return Some(DuplicateContract(contract.code));
    }
    return None;
  }

  lemma TakeNext<T>(s: seq<T>, i: nat)
    requires i < |s|
    ensures s[..i + 1] == s[..i] + [s[i]]
  {
  }

  lemma ReplaceNext<T>(done: seq<T>, todo: seq<T>, i: nat)
    requires |done| == |todo| && i < |done|
    ensures (done[..i] + todo[i..])[i := done[i]] == done[..i + 1] + todo[i + 1..]
  {
  }

  method CopyToArray<T>(s: seq<T>) returns (a: array<T>)
    ensures fresh(a) && a[..] == s
  {
    a := new T[|s|](i requires 0 <= i < |s| => s[i]);
  }

  lemma ContractsPassNext(contracts: seq<FunctionContract>, c: FunctionContract, size: Size)
    requires ContractsPass(contracts, size) && ContractComplete(c) && SchemasAccepted(c, size)
    requires forall j | 0 <= j < |contracts| :: contracts[j].code != c.code
    ensures ContractsPass(contracts + [c], size)
  {
    var more := contracts + [c];
    forall i | 0 <= i < |more|
      ensures ContractComplete(more[i]) && SchemasAccepted(more[i], size)
    {
      if i < |contracts| {
        assert more[i] == contracts[i];
      }
    }
  }

  lemma ContractPasses(doc: Document, i: nat, known: map<string, FunctionContract>, size: Size)
    requires i < |doc.functionContracts| && Indexes(known, VersionedContracts(doc)[..i])
    requires ContractsPass(doc.functionContracts[..i], size)
    requires var c := doc.functionContracts[i]; ContractComplete(c) && SchemasAccepted(c, size) && c.code !in known
    ensures ContractsPass(doc.functionContracts[..i + 1], size)
    ensures var c := VersionedContracts(doc)[i]; Indexes(known[c.code := c], VersionedContracts(doc)[..i + 1])
  {
    var versioned := VersionedContracts(doc);
    var earlier := doc.functionContracts[..i];
    IndexesNext(known, versioned[..i], versioned[i]);
    TakeNext(versioned, i);
    forall j | 0 <= j < i
      ensures earlier[j].code != versioned[i].code
    {
      assert versioned[..i][j].code in known;
    }
    ContractsPassNext(earlier, doc.functionContracts[i], size);
    TakeNext(doc.functionContracts, i);
  }

  lemma ContractFails(doc: Document, i: nat, known: map<string, FunctionContract>, size: Size)
    requires i < |doc.functionContracts| && Indexes(known, VersionedContracts(doc)[..i])
    requires var c := doc.functionContracts[i]; !(ContractComplete(c) && SchemasAccepted(c, size) && c.code !in known)
    ensures !ContractsPass(doc.functionContracts, size)
  {
    var c := doc.functionContracts[i];
    if c.code in known {
      var earlier := VersionedContracts(doc)[..i];
      var j :| 0 <= j < i && earlier[j].code == c.code;
      assert doc.functionContracts[j].code == c.code;
    }
  }

  /** The contract loop: validates, rejects repeated codes, stamps the version in place. */
  method ReadContracts(doc: Document, contracts: array<FunctionContract>, size: Size)
    returns (known: map<string, FunctionContract>, error: Option<ParseError>)
    requires SchemasDecoded(doc) && contracts[..] == doc.functionContracts
    modifies contracts
    ensures error.Some? ==> ErrorJustified(doc, size, error.value)
    ensures error.None? <==> ContractsPass(doc.functionContracts, size)
    ensures error.None? ==> contracts[..] == VersionedContracts(doc) && Indexes(known, VersionedContracts(doc))
  {
    known := map[];
    ghost var versioned := VersionedContracts(doc);
    for i := 0 to contracts.Length
      invariant ContractsPass(doc.functionContracts[..i], size)
      invariant Indexes(known, versioned[..i])
      invariant contracts[..] == versioned[..i] + doc.functionContracts[i..]
    {
      assert contracts[i] == doc.functionContracts[i];
      error := CheckContract(doc, i, known, size);
      if error.Some? {
        ContractFails(doc, i, known, size);
        return;
      }
      ContractPasses(doc, i, known, size);
      ReplaceNext(versioned, doc.functionContracts, i);
      contracts[i] := Versioned(contracts[i], doc.contractVersion);
      known := known[contracts[i].code := contracts[i]];
    }
    assert versioned[..contracts.Length] == versioned;
    assert doc.functionContracts[..contracts.Length] == doc.functionContracts;
    return known, None;
  }

  /** The loop over the dependencies of one agent. */
  method CheckDependencies(doc: Document, a: Definition, known: map<string, FunctionContract>) returns (ok: bool)
    requires Indexes(known, VersionedContracts(doc))
    ensures ok <==> forall k | 0 <= k < |a.dependencies| :: DependencyAccepted(doc.functionContracts, a.dependencies[k])
  {
    for d := 0 to |a.dependencies|
      invariant forall k | 0 <= k < d :: DependencyAccepted(doc.functionContracts, a.dependencies[k])
    {
      var dependency := a.dependencies[d];
      KnownIffContract(doc, known, dependency.functionCode);
      if dependency.functionCode !in known || dependency.providerScope != "marketplace"
        || dependency.versionConstraint == ""
         || !dependency.required || !PositiveAtomic(dependency.maxPriceAtomic) || dependency.maxCalls < 1
         || dependency.maxCalls > 5 || !IsProviderStrategy(dependency.strategy)
      {
        return false;
      }
    }
    return true;
  }

  /** The codes of the first `i` agents. */
  ghost function CodesBefore(agents: seq<Definition>, i: nat): set<string>
    requires i <= |agents|
  {
    set j | 0 <= j < i :: agents[j].code
  }

  /** The checks of agent `i`, given the codes of the earlier ones. */
  method CheckAgent(doc: Document, i: nat, codes: set<string>, known: map<string, FunctionContract>, ghost size: Size)
    returns (error: Option<ParseError>)
    requires i < |doc.agents| && Indexes(known, VersionedContracts(doc))
    requires codes == CodesBefore(doc.agents, i)
    ensures error.None? <==> AgentAccepted(doc.functionContracts, doc.agents[i]) && doc.agents[i].code !in codes
    ensures error.Some? ==> ErrorJustified(doc, size, error.value)
  {
    var a := doc.agents[i];
    KnownIffContract(doc, known, a.functionCode);
    if a.code == "" || a.name == "" || a.description == "" || a.functionCode !in known
       || a.usageType == "" || !PositiveAtomic(a.priceAtomic) || !EvmAddress(a.payTo)
    {
      return Some(AgentInvalid(i));
    }
    if a.code in codes {
      ghost var j :| 0 <= j < i && doc.agents[j].code == a.code;
      return Some(DuplicateAgent(a.code));
    }
    if a.runtime.role != "root" && a.runtime.role != "specialist" {
      error := Some(RoleInvalid(a.code));
    } else if a.runtime.prompt == "" || a.runtime.fixture.Null? {
      error := Some(RuntimeIncomplete(a.code));
    } else if a.runtime.role == "root" && a.dependencies == [] {
      error := Some(RootNeedsDependencies(a.code));
    } else if a.runtime.role == "specialist" && a.dependencies != [] {
      error := Some(SpecialistHasDependencies(a.code));
    } else {
      var ok := CheckDependencies(doc, a, known);
      error := if ok then None else Some(DependencyInvalid(a.code));
    }
    assert error.Some? ==> HasDefect(doc.functionContracts, doc.agents[i], error.value);
  }

  lemma KnownIffContract(doc: Document, known: map<string, FunctionContract>, code: string)
    requires Indexes(known, VersionedContracts(doc))
    ensures code in known <==> HasContract(doc.functionContracts, code)
  {
    var versioned := VersionedContracts(doc);
    if i :| 0 <= i < |doc.functionContracts| && doc.functionContracts[i].code == code {
      assert versioned[i].code == code;
    }
    if code in known {
      var i :| 0 <= i < |versioned| && versioned[i].code == code;
      assert doc.functionContracts[i].code == code;
    }
  }

  /** Agent `a` with the fields of every contract with its function code. */
  ghost predicate EnrichedFrom(doc: Document, a: Definition, enriched: Definition) {
    forall j | 0 <= j < |doc.functionContracts| && doc.functionContracts[j].code == a.functionCode ::
      enriched == Enrich(doc, doc.functionContracts[j], a)
  }

  lemma KnownEnriches(doc: Document, known: map<string, FunctionContract>, a: Definition)
    requires Indexes(known, VersionedContracts(doc)) && a.functionCode in known
    ensures EnrichedFrom(doc, a, Enrich(doc, known[a.functionCode], a))
  {
    var versioned := VersionedContracts(doc);
    forall j | 0 <= j < |doc.functionContracts| && doc.functionContracts[j].code == a.functionCode
      ensures Enrich(doc, known[a.functionCode], a) == Enrich(doc, doc.functionContracts[j], a)
    {
      assert known[versioned[j].code] == versioned[j];
    }
  }

  lemma AgentPasses(contracts: seq<FunctionContract>, agents: seq<Definition>, i: nat, codes: set<string>)
    requires i < |agents| && AgentsPass(contracts, agents[..i])
    requires codes == CodesBefore(agents, i)
    requires AgentAccepted(contracts, agents[i]) && agents[i].code !in codes
    ensures AgentsPass(contracts, agents[..i + 1])
    ensures codes + {agents[i].code} == CodesBefore(agents, i + 1)
  {
    TakeNext(agents, i);
    assert forall j | 0 <= j < i :: agents[..i][j] == agents[j] && agents[j].code in codes;
  }

  lemma AgentFails(contracts: seq<FunctionContract>, agents: seq<Definition>, i: nat, codes: set<string>)
    requires i < |agents| && codes == CodesBefore(agents, i)
    requires !(AgentAccepted(contracts, agents[i]) && agents[i].code !in codes)
    ensures !AgentsPass(contracts, agents)
  {
  }

  /** The first `i` agents are enriched, the others as they were. */
  ghost predicate EnrichedUpTo(doc: Document, agents: seq<Definition>, i: nat) {
    && i <= |agents| == |doc.agents|
    && (forall j | 0 <= j < i :: EnrichedFrom(doc, doc.agents[j], agents[j]))
    && forall j | i <= j < |agents| :: agents[j] == doc.agents[j]
  }

  lemma EnrichedNext(doc: Document, agents: seq<Definition>, i: nat, enriched: Definition)
    requires i < |agents| && EnrichedUpTo(doc, agents, i) && EnrichedFrom(doc, doc.agents[i], enriched)
    ensures EnrichedUpTo(doc, agents[i := enriched], i + 1)
  {
  }

  /** The agent loop: validates, rejects repeated codes, enriches in place. */
  method ReadAgents(doc: Document, agents: array<Definition>, known: map<string, FunctionContract>, ghost size: Size)
    returns (error: Option<ParseError>)
    requires Indexes(known, VersionedContracts(doc)) && agents[..] == doc.agents
    modifies agents
    ensures error.Some? ==> ErrorJustified(doc, size, error.value)
    ensures error.None? <==> AgentsPass(doc.functionContracts, doc.agents)
    ensures error.None? ==> forall i | 0 <= i < |doc.agents| :: EnrichedFrom(doc, doc.agents[i], agents[i])
  {
    var codes: set<string> := {};
    for i := 0 to agents.Length
      invariant AgentsPass(doc.functionContracts, doc.agents[..i])
      invariant codes == CodesBefore(doc.agents, i)
      invariant EnrichedUpTo(doc, agents[..], i)
    {
      ghost var before := agents[..];
      assert agents[i] == doc.agents[i];
      error := CheckAgent(doc, i, codes, known, size);
      if error.Some? {
        AgentFails(doc.functionContracts, doc.agents, i, codes);
        return;
      }
      AgentPasses(doc.functionContracts, doc.agents, i, codes);
      KnownIffContract(doc, known, agents[i].functionCode);
      KnownEnriches(doc, known, agents[i]);
      codes := codes + {agents[i].code};
      agents[i] := Enrich(doc, known[agents[i].functionCode], agents[i]);
      EnrichedNext(doc, before, i, agents[i]);
      assert agents[..] == before[i := agents[i]];
    }
    assert doc.agents[..agents.Length] == doc.agents;
    return None;
  }

  lemma VersionedStayDistinct(doc: Document)
    requires DistinctContracts(doc.functionContracts)
    ensures DistinctContracts(VersionedContracts(doc))
  {
  }

  function CatalogWith(doc: Document, contracts: seq<FunctionContract>, agents: seq<Definition>): Catalog {
    Catalog(doc.contractVersion, doc.agentVersion, doc.network, doc.asset, doc.developerId, doc.developerName,
      contracts, agents)
  }

  lemma CatalogWithIsCatalogOf(doc: Document, contracts: seq<FunctionContract>, agents: seq<Definition>)
    requires StrictlyAscending(contracts) && multiset(contracts) == multiset(VersionedContracts(doc))
    requires |agents| == |doc.agents| && forall i | 0 <= i < |doc.agents| :: EnrichedFrom(doc, doc.agents[i], agents[i])
    ensures IsCatalogOf(doc, CatalogWith(doc, contracts, agents))
  {
  }

  /** The final sort. Distinct codes leave only one possible result. */
  method SortContracts(doc: Document, contracts: array<FunctionContract>)
    requires contracts[..] == VersionedContracts(doc) && DistinctContracts(doc.functionContracts)
    modifies contracts
    ensures StrictlyAscending(contracts[..]) && multiset(contracts[..]) == multiset(VersionedContracts(doc))
  {
    VersionedStayDistinct(doc);
    SortByCode(contracts);
    PermutationKeepsDistinct(VersionedContracts(doc), contracts[..]);
    AscendingDistinctIsStrict(contracts[..]);
  }

  /** The final sort, and the catalog from what was stamped and enriched. */
  method Finish(doc: Document, contracts: array<FunctionContract>, agents: array<Definition>) returns (catalog: Catalog)
    requires contracts[..] == VersionedContracts(doc) && DistinctContracts(doc.functionContracts)
    requires agents.Length == |doc.agents| && forall i | 0 <= i < |doc.agents| ::
               EnrichedFrom(doc, doc.agents[i], agents[i])
    modifies contracts
    ensures IsCatalogOf(doc, catalog)
  {
    ghost var enriched := agents[..];
    SortContracts(doc, contracts);
    CatalogWithIsCatalogOf(doc, contracts[..], enriched);
    catalog := CatalogWith(doc, contracts[..], agents[..]);
    assert agents[..] == enriched;
  }

  lemma KnownEmptyIff(doc: Document, known: map<string, FunctionContract>)
    requires Indexes(known, VersionedContracts(doc))
    ensures |known| == 0 <==> doc.functionContracts == []
  {
    if doc.functionContracts != [] {
      assert VersionedContracts(doc)[0].code in known;
    } else {
      assert known.Keys == {};
    }
  }

  /** The part of `Parse` after the header. */
  method ParseBody(doc: Document, size: Size) returns (r: Result<Catalog, ParseError>)
    requires SchemasDecoded(doc)
    ensures r.Ok? <==>
      doc.functionContracts != [] && ContractsPass(doc.functionContracts, size)
        && AgentsPass(doc.functionContracts, doc.agents)
    ensures r.Ok? ==> IsCatalogOf(doc, r.value)
    ensures r.Err? ==> ErrorJustified(doc, size, r.error)
  {
    var contracts := CopyToArray(doc.functionContracts);
    var known, error := ReadContracts(doc, contracts, size);
    if error.Some? {
      return Err(error.value);
    }
    KnownEmptyIff(doc, known);
    if |known| == 0 {
      return Err(ContractsRequired);
    }
    var agents := CopyToArray(doc.agents);
    error := ReadAgents(doc, agents, known, size);
    if error.Some? {
      return Err(error.value);
    }
    var catalog := Finish(doc, contracts, agents);
    return Ok(catalog);
  }

  /** Accepts exactly the documents whose fields are what they should be; the result is the document's
      catalog; an error names a defect the document has. */
  method Parse(doc: Document, size: Size) returns (r: Result<Catalog, ParseError>)
    requires SchemasDecoded(doc)
    ensures r.Ok? <==> DocumentAccepted(doc, size)
    ensures r.Ok? <==> CatalogMeaning.DocumentMeets(doc, size)
    ensures r.Ok? ==> IsCatalogOf(doc, r.value)
    ensures r.Err? ==> ErrorJustified(doc, size, r.error)
  {
    CatalogMeaning.DocumentIff(doc, size);
    if doc.apiVersion != API_VERSION || doc.contractVersion == "" || doc.agentVersion == "" {
      return Err(VersionsRequired);
    }
    if doc.network != NETWORK || !EqualFold(doc.asset, ASSET) || doc.developerId == "" || doc.developerName == "" {
      return Err(HeaderInvalid);
    }
    r := ParseBody(doc, size);
  }

  // ---------- canonical and closed ----------

  /** The same document up to the order of its contracts. */
  predicate Reordered(doc: Document, doc': Document) {
    && doc' == doc.(functionContracts := doc'.functionContracts)
    && multiset(doc'.functionContracts) == multiset(doc.functionContracts)
  }

  lemma ReorderedHasContract(doc: Document, doc': Document, code: string)
    requires Reordered(doc, doc') && HasContract(doc.functionContracts, code)
    ensures HasContract(doc'.functionContracts, code)
  {
    var i :| 0 <= i < |doc.functionContracts| && doc.functionContracts[i].code == code;
    assert doc.functionContracts[i] in multiset(doc'.functionContracts);
    var j :| 0 <= j < |doc'.functionContracts| && doc'.functionContracts[j] == doc.functionContracts[i];
  }

  lemma ReorderedContractsPass(doc: Document, doc': Document, size: Size)
    requires Reordered(doc, doc') && ContractsPass(doc.functionContracts, size)
    ensures ContractsPass(doc'.functionContracts, size)
  {
    PermutationKeepsDistinct(doc.functionContracts, doc'.functionContracts);
    forall i | 0 <= i < |doc'.functionContracts|
      ensures ContractComplete(doc'.functionContracts[i]) && SchemasAccepted(doc'.functionContracts[i], size)
    {
      assert doc'.functionContracts[i] in multiset(doc.functionContracts);
      var j :| 0 <= j < |doc.functionContracts| && doc.functionContracts[j] == doc'.functionContracts[i];
    }
  }

  lemma ReorderedAgentsPass(doc: Document, doc': Document)
    requires Reordered(doc, doc') && AgentsPass(doc.functionContracts, doc.agents)
    ensures AgentsPass(doc'.functionContracts, doc'.agents)
  {
    forall i | 0 <= i < |doc.agents|
      ensures AgentAccepted(doc'.functionContracts, doc.agents[i])
    {
      var a := doc.agents[i];
      ReorderedHasContract(doc, doc', a.functionCode);
      forall d | 0 <= d < |a.dependencies|
        ensures DependencyAccepted(doc'.functionContracts, a.dependencies[d])
      {
        ReorderedHasContract(doc, doc', a.dependencies[d].functionCode);
      }
    }
  }

  /** Acceptance does not depend on the order of the contracts. */
  lemma AcceptanceIsCanonical(doc: Document, doc': Document, size: Size)
    requires Reordered(doc, doc')
    ensures DocumentAccepted(doc, size) <==> DocumentAccepted(doc', size)
  {
    assert Reordered(doc', doc);
    assert |doc.functionContracts| == |multiset(doc.functionContracts)| == |multiset(doc'.functionContracts)|
             == |doc'.functionContracts|;
    if DocumentAccepted(doc, size) {
      ReorderedContractsPass(doc, doc', size);
      ReorderedAgentsPass(doc, doc');
    }
    if DocumentAccepted(doc', size) {
      ReorderedContractsPass(doc', doc, size);
      ReorderedAgentsPass(doc', doc);
    }
  }

  function MapAll<A, B>(f: A -> B, s: seq<A>): (r: seq<B>)
    ensures |r| == |s|
  {
    seq(|s|, i requires 0 <= i < |s| => f(s[i]))
  }

  lemma {:induction false} MapKeepsPermutation<A, B>(f: A -> B, s: seq<A>, t: seq<A>)
    requires multiset(s) == multiset(t)
    ensures multiset(MapAll(f, s)) == multiset(MapAll(f, t))
    decreases |s|
  {
    assert |s| == |multiset(s)| == |multiset(t)| == |t|;
    if s == [] {
    } else {
      assert s[0] in multiset(t);
      var i :| 0 <= i < |t| && t[i] == s[0];
      MultisetWithout(s, 0);
      MultisetWithout(t, i);
      MapKeepsPermutation(f, Without(s, 0), Without(t, i));
      MapWithout(f, s, 0);
      MapWithout(f, t, i);
    }
  }

  lemma MapWithout<A, B>(f: A -> B, s: seq<A>, i: nat)
    requires i < |s|
    ensures multiset(MapAll(f, s)) == multiset(MapAll(f, Without(s, i))) + multiset{f(s[i])}
  {
    MultisetWithout(MapAll(f, s), i);
    assert MapAll(f, Without(s, i)) == Without(MapAll(f, s), i);
    assert MapAll(f, s)[i] == f(s[i]);
  }

  lemma ReorderedVersioned(doc: Document, doc': Document)
    requires Reordered(doc, doc')
    ensures multiset(VersionedContracts(doc)) == multiset(VersionedContracts(doc'))
  {
    var f := (c: FunctionContract) => Versioned(c, doc.contractVersion);
    MapKeepsPermutation(f, doc.functionContracts, doc'.functionContracts);
    assert VersionedContracts(doc) == MapAll(f, doc.functionContracts);
    assert VersionedContracts(doc') == MapAll(f, doc'.functionContracts);
  }

  lemma ReorderedAgents(doc: Document, doc': Document, catalog: Catalog, catalog': Catalog, i: nat)
    requires Reordered(doc, doc') && i < |doc.agents|
    requires HasContract(doc.functionContracts, doc.agents[i].functionCode)
    requires IsCatalogOf(doc, catalog) && IsCatalogOf(doc', catalog')
    ensures catalog.agents[i] == catalog'.agents[i]
  {
    var a := doc.agents[i];
    var j :| 0 <= j < |doc.functionContracts| && doc.functionContracts[j].code == a.functionCode;
    assert doc.functionContracts[j] in multiset(doc'.functionContracts);
    var k :| 0 <= k < |doc'.functionContracts| && doc'.functionContracts[k] == doc.functionContracts[j];
    assert catalog.agents[i] == Enrich(doc, doc.functionContracts[j], a);
    assert catalog'.agents[i] == Enrich(doc', doc'.functionContracts[k], doc'.agents[i]);
  }

  /** Every order of the contracts gives the same catalog: no sort could make a difference. */
  lemma CatalogIsCanonical(doc: Document, doc': Document, catalog: Catalog, catalog': Catalog)
    requires Reordered(doc, doc') && AgentsPass(doc.functionContracts, doc.agents)
    requires IsCatalogOf(doc, catalog) && IsCatalogOf(doc', catalog')
    ensures catalog == catalog'
  {
    ReorderedVersioned(doc, doc');
    AscendingIsUnique(catalog.functionContracts, catalog'.functionContracts);
    forall i | 0 <= i < |doc.agents|
      ensures catalog.agents[i] == catalog'.agents[i]
    {
      assert AgentAccepted(doc.functionContracts, doc.agents[i]);
      ReorderedAgents(doc, doc', catalog, catalog', i);
    }
    assert catalog.agents == catalog'.agents;
  }

  /** Agent `a` carries the fields of contract `c`. */
  predicate Carries(catalog: Catalog, a: Definition, c: FunctionContract) {
    && a.added.Some?
    && var e := a.added.value;
    && e.developerId == catalog.developerId && e.developerName == catalog.developerName
    && e.functionName == c.name && e.functionDescription == c.description && e.responseFormat == c.responseFormat
    && e.inputSchema == c.inputSchema && e.outputSchema == c.outputSchema
    && e.prompt == a.runtime.prompt && e.fixture == a.runtime.fixture
       && e.requiresWebSearch == a.runtime.requiresWebSearch
    && e.minimumSources == 3
    && (e.aggregateMarkdown <==> a.dependencies != [])
  }

  /** What an accepted catalog guarantees: codes identify contracts and agents, every contract has the
      catalog's version, every agent's function code names a contract whose fields it carries, every
      dependency names a contract, and prices and addresses are valid. */
  ghost predicate Closed(catalog: Catalog) {
    && StrictlyAscending(catalog.functionContracts)
    && DistinctContracts(catalog.functionContracts)
    && DistinctAgents(catalog.agents)
    && (forall k | 0 <= k < |catalog.functionContracts| ::
       catalog.functionContracts[k].contractVersion == catalog.contractVersion)
    && forall i | 0 <= i < |catalog.agents| ::
         var a := catalog.agents[i];
         && AgentAccepted(catalog.functionContracts, a)
         && forall k | 0 <= k < |catalog.functionContracts| && catalog.functionContracts[k].code == a.functionCode ::
              Carries(catalog, a, catalog.functionContracts[k])
  }

  lemma CatalogContract(doc: Document, catalog: Catalog, k: nat) returns (j: nat)
    requires IsCatalogOf(doc, catalog) && k < |catalog.functionContracts|
    ensures j < |doc.functionContracts|
              && catalog.functionContracts[k] == Versioned(doc.functionContracts[j], doc.contractVersion)
  {
    var versioned := VersionedContracts(doc);
    assert catalog.functionContracts[k] in multiset(versioned);
    j :| 0 <= j < |versioned| && versioned[j] == catalog.functionContracts[k];
  }

  lemma CatalogHasContract(doc: Document, catalog: Catalog, code: string)
    requires IsCatalogOf(doc, catalog) && HasContract(doc.functionContracts, code)
    ensures HasContract(catalog.functionContracts, code)
  {
    var j :| 0 <= j < |doc.functionContracts| && doc.functionContracts[j].code == code;
    assert VersionedContracts(doc)[j] in multiset(catalog.functionContracts);
    var k :| 0 <= k < |catalog.functionContracts| && catalog.functionContracts[k] == VersionedContracts(doc)[j];
  }

  lemma CatalogAgent(doc: Document, catalog: Catalog, i: nat)
    requires IsCatalogOf(doc, catalog) && i < |doc.agents| && AgentAccepted(doc.functionContracts, doc.agents[i])
    ensures catalog.agents[i] == doc.agents[i].(added := catalog.agents[i].added)
    ensures AgentAccepted(catalog.functionContracts, catalog.agents[i])
    ensures forall k | 0 <= k < |catalog.functionContracts|
              && catalog.functionContracts[k].code == catalog.agents[i].functionCode ::
              Carries(catalog, catalog.agents[i], catalog.functionContracts[k])
  {
    var a := doc.agents[i];
    var j :| 0 <= j < |doc.functionContracts| && doc.functionContracts[j].code == a.functionCode;
    assert catalog.agents[i] == Enrich(doc, doc.functionContracts[j], a);
    CatalogHasContract(doc, catalog, a.functionCode);
    forall d | 0 <= d < |a.dependencies|
      ensures DependencyAccepted(catalog.functionContracts, a.dependencies[d])
    {
      CatalogHasContract(doc, catalog, a.dependencies[d].functionCode);
    }
    forall k | 0 <= k < |catalog.functionContracts| && catalog.functionContracts[k].code == a.functionCode
      ensures Carries(catalog, catalog.agents[i], catalog.functionContracts[k])
    {
      var l := CatalogContract(doc, catalog, k);
      assert catalog.agents[i] == Enrich(doc, doc.functionContracts[l], a);
    }
  }

  /** The catalog of an accepted document is closed. */
  lemma AcceptedCatalogIsClosed(doc: Document, catalog: Catalog, size: Size)
    requires DocumentAccepted(doc, size) && IsCatalogOf(doc, catalog)
    ensures Closed(catalog)
  {
    forall k | 0 <= k < |catalog.functionContracts|
      ensures catalog.functionContracts[k].contractVersion == catalog.contractVersion
    {
      var j := CatalogContract(doc, catalog, k);
    }
    VersionedStayDistinct(doc);
    PermutationKeepsDistinct(VersionedContracts(doc), catalog.functionContracts);
    forall i | 0 <= i < |catalog.agents|
      ensures catalog.agents[i].code == doc.agents[i].code
      ensures AgentAccepted(catalog.functionContracts, catalog.agents[i])
      ensures forall k | 0 <= k < |catalog.functionContracts|
                && catalog.functionContracts[k].code == catalog.agents[i].functionCode ::
                Carries(catalog, catalog.agents[i], catalog.functionContracts[k])
    {
      CatalogAgent(doc, catalog, i);
    }
  }
}
