/** The remote registry that the bootstrap drives: contracts, agents and their versions. */
module AgentStore {
  import opened Catalog
  import opened Manifests

  datatype ContractKey = ContractKey(code: string, contractVersion: string)

  /** Zero stands for the empty identifier. */
  type VersionId = nat

  datatype Version = Version(semver: string, status: string, manifest: Manifest)

  /** `agents` lists the versions of each agent, drafts included. */
  datatype Store = Store(
    contracts: map<ContractKey, FunctionContract>,
    agents: map<string, seq<VersionId>>,
    versions: map<VersionId, Version>,
    nextId: VersionId)

  const EMPTY_STORE := Store(map[], map[], map[], 1)

  function KeyOf(c: FunctionContract): ContractKey {
    ContractKey(c.code, c.contractVersion)
  }

  ghost predicate ValidStore(s: Store) {
    && s.nextId > 0
    && (forall key | key in s.contracts :: KeyOf(s.contracts[key]) == key)
    && (forall id | id in s.versions :: 0 < id < s.nextId)
    && forall code, i | code in s.agents && 0 <= i < |s.agents[code]| :: s.agents[code][i] in s.versions
  }

  datatype Request =
    | ListContracts
    | CreateContract(contract: FunctionContract)
    | ValidateManifest(manifest: Manifest)
    | GetAgent(code: string)
    | ImportManifest(manifest: Manifest)
    | PublishVersion(id: VersionId)
    | ExportManifest(id: VersionId)

  function VersionsOf(s: Store, code: string): seq<VersionId> {
    if code in s.agents then s.agents[code] else []
  }

  /** What a request does to the store when it arrives. An imported manifest becomes a draft with a
      fresh identifier; publishing makes a version active. */
  function Effect(s: Store, r: Request): Store {
    match r
    case CreateContract(c) => s.(contracts := s.contracts[KeyOf(c) := c])
    case ImportManifest(m) =>
      s.(versions := s.versions[s.nextId := Version(m.version, "DRAFT", m)],
         agents := s.agents[m.code := VersionsOf(s, m.code) + [s.nextId]],
         nextId := s.nextId + 1)
    case PublishVersion(id) =>
      if id in s.versions then s.(versions := s.versions[id := s.versions[id].(status := "ACTIVE")]) else s
    case _ => s
  }

  /** Whether the store answers with success. A missing agent is reported, not refused. */
  predicate Accepts(s: Store, r: Request) {
    match r
    case PublishVersion(id) => id in s.versions
    case ExportManifest(id) => id in s.versions
    case _ => true
  }

  lemma EffectKeepsValid(s: Store, r: Request)
    requires ValidStore(s)
    ensures ValidStore(Effect(s, r))
  {
  }

  /** What happens to a request on its way: it is answered, it never arrives, or its answer is lost
      after its effect. A refusal by the store reads like a request that never arrives. */
  datatype Fault = Delivered | RequestLost | ReplyLost

  /** The store and the requests sent so far. */
  datatype World = World(store: Store, log: seq<Request>)

  type Network = nat -> Fault

  function Deliver(w: World, r: Request, network: Network): World {
    World(if network(|w.log|) == RequestLost then w.store else Effect(w.store, r), w.log + [r])
  }

  predicate Answered(w: World, r: Request, network: Network) {
    network(|w.log|) == Delivered && Accepts(w.store, r)
  }

  ghost predicate FaultFree(network: Network) {
    forall n :: network(n) == Delivered
  }
}
