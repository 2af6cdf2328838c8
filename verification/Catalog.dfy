/** The catalog document: its entities and what makes a document acceptable. */
module Catalog {
  import opened Prelude
  import Json
  import SchemaCheck

  const API_VERSION := "agentstore/v1"
  const NETWORK := "eip155:84532"
  const ASSET := "0x036CbD53842c5426634e7929541eC2318f3dCF7e"
  const MINIMUM_SOURCES := 3

  datatype Dependency = Dependency(
    functionCode: string, providerScope: string, versionConstraint: string, required: bool,
    maxPriceAtomic: string, maxCalls: int, strategy: string)

  /** An absent fixture is `Null`. */
  datatype Runtime = Runtime(role: string, prompt: string, fixture: Json.Value, requiresWebSearch: bool)

  /** An absent schema is `Null`. */
  datatype FunctionContract = FunctionContract(
    code: string, name: string, description: string, responseFormat: string,
    inputSchema: Json.Value, outputSchema: Json.Value, contractVersion: string)

  /** What `Parse` adds to an agent. */
  datatype Enrichment = Enrichment(
    developerId: string, developerName: string, functionName: string, functionDescription: string,
    responseFormat: string, prompt: string, fixture: Json.Value, inputSchema: Json.Value, outputSchema: Json.Value,
    requiresWebSearch: bool, aggregateMarkdown: bool, minimumSources: nat)

  datatype Definition = Definition(
    code: string, name: string, description: string, functionCode: string, usageType: string,
    priceAtomic: string, payTo: string, dependencies: seq<Dependency>, runtime: Runtime, added: Option<Enrichment>)

  datatype Document = Document(
    apiVersion: string, contractVersion: string, agentVersion: string, network: string, asset: string,
    developerId: string, developerName: string,
    functionContracts: seq<FunctionContract>, agents: seq<Definition>)

  datatype Catalog = Catalog(
    contractVersion: string, agentVersion: string, network: string, asset: string,
    developerId: string, developerName: string,
    functionContracts: seq<FunctionContract>, agents: seq<Definition>)

  /** The length of a schema's encoding, if it can be encoded. */
  type Size = Json.Value -> Option<nat>

  // ---------- fields ----------

  predicate PositiveAtomic(s: string) {
    s != "" && '1' <= s[0] <= '9' && forall i | 0 <= i < |s| :: '0' <= s[i] <= '9'
  }

  predicate IsHex(c: char) {
    '0' <= c <= '9' || 'a' <= c <= 'f' || 'A' <= c <= 'F'
  }

  predicate EvmAddress(s: string) {
    |s| == 42 && s[..2] == "0x" && forall i | 2 <= i < 42 :: IsHex(s[i])
  }

  predicate IsProviderStrategy(s: string) {
    s in {"lowest_price", "latest_version", "highest_reliability", "fastest"}
  }

  function LowerCase(c: char): char {
    if 'A' <= c <= 'Z' then c - 'A' + 'a' else c
  }

  /** Equality up to case. For the asset, which has no letter with a fold outside ASCII, this is
      Unicode case folding. */
  predicate EqualFold(a: string, b: string) {
    |a| == |b| && forall i | 0 <= i < |a| :: LowerCase(a[i]) == LowerCase(b[i])
  }

  // ---------- acceptance, declaratively ----------

  predicate VersionsPresent(doc: Document) {
    doc.apiVersion == API_VERSION && doc.contractVersion != "" && doc.agentVersion != ""
  }

  predicate HeaderAccepted(doc: Document) {
    doc.network == NETWORK && EqualFold(doc.asset, ASSET) && doc.developerId != "" && doc.developerName != ""
  }

  predicate ContractComplete(c: FunctionContract) {
    c.code != "" && c.name != "" && c.description != "" && c.responseFormat != ""
  }

  ghost predicate SchemasAccepted(c: FunctionContract, size: Size) {
    && SchemaCheck.SchemaAccepted(c.inputSchema, size)
    && c.inputSchema.Get("type") == Json.Str("object")
    && SchemaCheck.SchemaAccepted(c.outputSchema, size)
    && SchemaCheck.MatchesResponseFormat(c.responseFormat, c.outputSchema)
  }

  predicate HasContract(contracts: seq<FunctionContract>, code: string) {
    exists i | 0 <= i < |contracts| :: contracts[i].code == code
  }

  predicate DependencyAccepted(contracts: seq<FunctionContract>, d: Dependency) {
    && HasContract(contracts, d.functionCode)
    && d.providerScope == "marketplace" && d.versionConstraint != "" && d.required
    && PositiveAtomic(d.maxPriceAtomic) && 1 <= d.maxCalls <= 5 && IsProviderStrategy(d.strategy)
  }

  predicate AgentComplete(contracts: seq<FunctionContract>, a: Definition) {
    && a.code != "" && a.name != "" && a.description != "" && a.usageType != ""
    && HasContract(contracts, a.functionCode) && PositiveAtomic(a.priceAtomic) && EvmAddress(a.payTo)
  }

  predicate AgentAccepted(contracts: seq<FunctionContract>, a: Definition) {
    && AgentComplete(contracts, a)
    && (a.runtime.role == "root" || a.runtime.role == "specialist")
    && a.runtime.prompt != "" && !a.runtime.fixture.Null?
    && (a.runtime.role == "root" <==> a.dependencies != [])
    && forall i | 0 <= i < |a.dependencies| :: DependencyAccepted(contracts, a.dependencies[i])
  }

  predicate DistinctContracts(contracts: seq<FunctionContract>) {
    forall i, j | 0 <= i < j < |contracts| :: contracts[i].code != contracts[j].code
  }

  predicate DistinctAgents(agents: seq<Definition>) {
    forall i, j | 0 <= i < j < |agents| :: agents[i].code != agents[j].code
  }

  /** Every contract passes its own checks, and no code repeats. */
  ghost predicate ContractsPass(contracts: seq<FunctionContract>, size: Size) {
    && (forall i | 0 <= i < |contracts| :: ContractComplete(contracts[i]) && SchemasAccepted(contracts[i], size))
    && DistinctContracts(contracts)
  }

  /** Every agent passes its own checks, and no code repeats. */
  predicate AgentsPass(contracts: seq<FunctionContract>, agents: seq<Definition>) {
    && (forall i | 0 <= i < |agents| :: AgentAccepted(contracts, agents[i]))
    && DistinctAgents(agents)
  }

  ghost predicate DocumentAccepted(doc: Document, size: Size) {
    && VersionsPresent(doc) && HeaderAccepted(doc)
    && doc.functionContracts != []
    && ContractsPass(doc.functionContracts, size)
    && AgentsPass(doc.functionContracts, doc.agents)
  }

  // ---------- the catalog of a document ----------

  function Versioned(c: FunctionContract, version: string): FunctionContract {
    c.(contractVersion := version)
  }

  function VersionedContracts(doc: Document): seq<FunctionContract> {
    seq(|doc.functionContracts|,
      i requires 0 <= i < |doc.functionContracts| => Versioned(doc.functionContracts[i], doc.contractVersion))
  }

  function Enrich(doc: Document, c: FunctionContract, a: Definition): Definition {
    a.(added := Some(Enrichment(
      doc.developerId, doc.developerName, c.name, c.description, c.responseFormat, a.runtime.prompt, a.runtime.fixture,
      c.inputSchema, c.outputSchema, a.runtime.requiresWebSearch, a.runtime.role == "root", MINIMUM_SOURCES)))
  }
}
