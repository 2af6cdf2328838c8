/** The manifest a catalog agent is published with. */
module Manifests {
  import opened Catalog

  datatype FunctionRef = FunctionRef(code: string, version: string)

  datatype ManifestDependency = ManifestDependency(
    function_: FunctionRef, scope: string, versionConstraint: string, required: bool,
    maxPriceAtomic: string, maxCalls: int, strategy: string)

  datatype Payment = Payment(priceAtomic: string, network: string, asset: string, payTo: string)

  datatype Manifest = Manifest(
    apiVersion: string, developerId: string, code: string, name: string, description: string, version: string,
    usageType: string, function_: FunctionRef, endpoint: string, payment: Payment,
    dependencies: seq<ManifestDependency>)

  function RenderDependency(source: Catalog, d: Dependency): ManifestDependency {
    ManifestDependency(FunctionRef(d.functionCode, source.contractVersion), d.providerScope, d.versionConstraint,
                       d.required, d.maxPriceAtomic, d.maxCalls, d.strategy)
  }

  function RenderDependencies(source: Catalog, ds: seq<Dependency>): (r: seq<ManifestDependency>)
    ensures |r| == |ds|
  {
    if ds == [] then [] else RenderDependencies(source, ds[..|ds| - 1]) + [RenderDependency(source, ds[|ds| - 1])]
  }

  function RenderWith(source: Catalog, a: Definition, url: string, dependencies: seq<ManifestDependency>): Manifest {
    Manifest(API_VERSION, source.developerId, a.code, a.name, a.description, source.agentVersion, a.usageType,
             FunctionRef(a.functionCode, source.contractVersion), url + "/agents/" + a.code + "/invoke",
             Payment(a.priceAtomic, source.network, source.asset, a.payTo), dependencies)
  }

  function Render(source: Catalog, a: Definition, url: string): Manifest {
    RenderWith(source, a, url, RenderDependencies(source, a.dependencies))
  }

  method RenderManifest(source: Catalog, a: Definition, url: string) returns (m: Manifest)
    ensures m == Render(source, a, url)
    ensures m.apiVersion == "agentstore/v1"
    ensures m.code == a.code && m.name == a.name && m.description == a.description && m.usageType == a.usageType
    ensures m.version == source.agentVersion && m.developerId == source.developerId
    ensures m.function_.code == a.functionCode && m.function_.version == source.contractVersion
    ensures m.payment.priceAtomic == a.priceAtomic && m.payment.payTo == a.payTo
    ensures m.payment.network == source.network && m.payment.asset == source.asset
    ensures m.endpoint == url + "/agents/" + a.code + "/invoke"
    ensures |m.dependencies| == |a.dependencies|
    ensures forall i | 0 <= i < |a.dependencies| ::
      var d, e := a.dependencies[i], m.dependencies[i];
      && e.function_ == FunctionRef(d.functionCode, source.contractVersion) && e.scope == d.providerScope
      && e.versionConstraint == d.versionConstraint && e.required == d.required
      && e.maxPriceAtomic == d.maxPriceAtomic && e.maxCalls == d.maxCalls && e.strategy == d.strategy
  {
    m := RenderWith(source, a, url, []);
    for i := 0 to |a.dependencies|
      invariant m == RenderWith(source, a, url, RenderDependencies(source, a.dependencies[..i]))
      invariant forall j | 0 <= j < i :: m.dependencies[j] == RenderDependency(source, a.dependencies[j])
    {
      assert a.dependencies[..i + 1][..i] == a.dependencies[..i];
      m := m.(dependencies := m.dependencies + [RenderDependency(source, a.dependencies[i])]);
    }
    assert a.dependencies[..|a.dependencies|] == a.dependencies;
  }

  /** Everything about an agent and its catalog that is published. */
  predicate SamePublished(source: Catalog, a: Definition, url: string, source': Catalog, a': Definition, url': string) {
    && source.developerId == source'.developerId && source.agentVersion == source'.agentVersion
    && source.contractVersion == source'.contractVersion && source.network == source'.network
       && source.asset == source'.asset
    && a.code == a'.code && a.name == a'.name && a.description == a'.description && a.usageType == a'.usageType
    && a.functionCode == a'.functionCode && a.priceAtomic == a'.priceAtomic && a.payTo == a'.payTo
    && a.dependencies == a'.dependencies && url == url'
  }

  lemma {:induction false} SameDependencies(source: Catalog, ds: seq<Dependency>, source': Catalog,
        ds': seq<Dependency>)
    requires source.contractVersion == source'.contractVersion
    ensures RenderDependencies(source, ds) == RenderDependencies(source', ds') <==> ds == ds'
    decreases |ds|
  {
    if |ds| == |ds'| && ds != [] {
      var n := |ds| - 1;
      SameDependencies(source, ds[..n], source', ds'[..n]);
      var r, r' := RenderDependencies(source, ds), RenderDependencies(source', ds');
      assert r[..n] == RenderDependencies(source, ds[..n]) && r'[..n] == RenderDependencies(source', ds'[..n]);
      assert r[n] == RenderDependency(source, ds[n]) && r'[n] == RenderDependency(source', ds'[n]);
      assert ds == ds[..n] + [ds[n]] && ds' == ds'[..n] + [ds'[n]];
    }
  }

  lemma SameEndpoint(url: string, url': string, rest: string)
    ensures url + rest == url' + rest <==> url == url'
  {
    if url + rest == url' + rest {
      assert |url| == |url'|;
      assert (url + rest)[..|url|] == url && (url' + rest)[..|url'|] == url';
    }
  }

  /** A manifest loses nothing that is published: two manifests are equal exactly when price, wallet,
      endpoint, dependencies and every other published field are. */
  lemma ManifestsAgreeIff(source: Catalog, a: Definition, url: string, source': Catalog, a': Definition, url': string)
    ensures Render(source, a, url) == Render(source', a', url') <==> SamePublished(source, a, url, source', a', url')
  {
    if source.contractVersion == source'.contractVersion {
      SameDependencies(source, a.dependencies, source', a'.dependencies);
    }
    if a.code == a'.code {
      var rest := "/agents/" + a.code + "/invoke";
      assert url + "/agents/" + a.code + "/invoke" == url + rest;
      assert url' + "/agents/" + a'.code + "/invoke" == url' + rest;
      SameEndpoint(url, url', rest);
    }
  }
}
