/** What an acceptable document is, field by field and in terms of what the fields stand for: numerals,
    addresses, paths in schemas. */
module CatalogMeaning {
  import Json
  import SchemaCheck
  import SchemaPaths
  import opened Catalog

  /** The decimal numeral of a number, without leading zeros. */
  function Numeral(n: nat): string {
    (if n < 10 then "" else Numeral(n / 10)) + [('0' as int + n % 10) as char]
  }

  /** The numeral of a positive number. */
  ghost predicate IsPrice(s: string) {
    exists n: nat :: n > 0 && s == Numeral(n)
  }

  lemma {:induction false} NumeralIsAtomic(n: nat)
    requires n > 0
    ensures PositiveAtomic(Numeral(n))
  {
    if n < 10 {
    } else {
      NumeralIsAtomic(n / 10);
    }
  }

  lemma {:induction false} AtomicIsNumeral(s: string) returns (n: nat)
    requires PositiveAtomic(s)
    ensures n > 0 && s == Numeral(n)
  {
    var last := s[|s| - 1];
    if |s| == 1 {
      n := last as int - '0' as int;
      assert s == [last];
    } else {
      var higher := AtomicIsNumeral(s[..|s| - 1]);
      n := 10 * higher + (last as int - '0' as int);
      assert n / 10 == higher && n % 10 == last as int - '0' as int;
      assert s == s[..|s| - 1] + [last];
    }
  }

  /** An amount is accepted exactly when it is the numeral of a positive number. */
  lemma PositiveAtomicIff(s: string)
    ensures PositiveAtomic(s) <==> IsPrice(s)
  {
    if PositiveAtomic(s) {
      var n := AtomicIsNumeral(s);
    }
    if n: nat :| n > 0 && s == Numeral(n) {
      NumeralIsAtomic(n);
    }
  }

  /** `0x` and forty hexadecimal digits, in either case. */
  predicate IsAddress(s: string) {
    && |s| == 42 && s[0] == '0' && s[1] == 'x'
    && forall i | 2 <= i < 42 :: s[i] in "0123456789abcdefABCDEF"
  }

  lemma HexDigitIff(c: char)
    ensures IsHex(c) <==> c in "0123456789abcdefABCDEF"
  {
    var digits := "0123456789abcdefABCDEF";
    if '0' <= c <= '9' {
      assert digits[c as int - '0' as int] == c;
    } else if 'a' <= c <= 'f' {
      assert digits[10 + (c as int - 'a' as int)] == c;
    } else if 'A' <= c <= 'F' {
      assert digits[16 + (c as int - 'A' as int)] == c;
    }
  }

  lemma EvmAddressIff(s: string)
    ensures EvmAddress(s) <==> IsAddress(s)
  {
    if |s| == 42 {
      assert s[..2] == [s[0], s[1]];
      forall i | 2 <= i < 42 {
        HexDigitIff(s[i]);
      }
    }
  }

  /** The same text, but for the case of ASCII letters. */
  predicate SameButCase(a: string, b: string) {
    |a| == |b| && forall i | 0 <= i < |a| :: SameLetter(a[i], b[i])
  }

  predicate SameLetter(c: char, d: char) {
    || c == d
    || ('A' <= c <= 'Z' && d as int == c as int + 32)
    || ('A' <= d <= 'Z' && c as int == d as int + 32)
  }

  lemma EqualFoldIff(a: string, b: string)
    ensures EqualFold(a, b) <==> SameButCase(a, b)
  {
    if |a| == |b| {
      forall i | 0 <= i < |a|
        ensures LowerCase(a[i]) == LowerCase(b[i]) <==> SameLetter(a[i], b[i])
      {
      }
    }
  }

  // ---------- the entities ----------

  ghost predicate ContractMeets(c: FunctionContract, size: Size) {
    && c.code != "" && c.name != "" && c.description != "" && c.responseFormat != ""
    && SchemaCheck.SchemaMeets(c.inputSchema, size) && SchemaCheck.SchemaMeets(c.outputSchema, size)
    && SchemaPaths.HoldsText(c.inputSchema, [Json.Key("type")], "object")
    && SchemaPaths.FormatByPaths(c.responseFormat, c.outputSchema)
  }

  ghost predicate Names(contracts: seq<FunctionContract>, code: string) {
    exists c :: c in contracts && c.code == code
  }

  ghost predicate DependencyMeets(contracts: seq<FunctionContract>, d: Dependency) {
    && Names(contracts, d.functionCode) && d.providerScope == "marketplace" && d.versionConstraint != "" && d.required
    && IsPrice(d.maxPriceAtomic) && d.maxCalls in {1, 2, 3, 4, 5}
    && (d.strategy == "lowest_price" || d.strategy == "latest_version"
        || d.strategy == "highest_reliability" || d.strategy == "fastest")
  }

  /** A root has dependencies and a specialist has none. */
  ghost predicate AgentMeets(contracts: seq<FunctionContract>, a: Definition) {
    && a.code != "" && a.name != "" && a.description != "" && a.usageType != ""
    && Names(contracts, a.functionCode) && IsPrice(a.priceAtomic) && IsAddress(a.payTo)
    && a.runtime.prompt != "" && a.runtime.fixture != Json.Null
    && ((a.runtime.role == "root" && a.dependencies != []) || (a.runtime.role == "specialist" && a.dependencies == []))
    && forall d | d in a.dependencies :: DependencyMeets(contracts, d)
  }

  predicate HeaderMeets(doc: Document) {
    && doc.apiVersion == "agentstore/v1" && doc.contractVersion != "" && doc.agentVersion != ""
    && doc.network == "eip155:84532" && SameButCase(doc.asset, "0x036CbD53842c5426634e7929541eC2318f3dCF7e")
    && doc.developerId != "" && doc.developerName != ""
  }

  ghost predicate ContractsMeet(contracts: seq<FunctionContract>, size: Size) {
    && (forall c | c in contracts :: ContractMeets(c, size))
    && forall i, j | 0 <= i < j < |contracts| :: contracts[i].code != contracts[j].code
  }

  ghost predicate AgentsMeet(contracts: seq<FunctionContract>, agents: seq<Definition>) {
    && (forall a | a in agents :: AgentMeets(contracts, a))
    && forall i, j | 0 <= i < j < |agents| :: agents[i].code != agents[j].code
  }

  ghost predicate DocumentMeets(doc: Document, size: Size) {
    && HeaderMeets(doc)
    && doc.functionContracts != []
    && ContractsMeet(doc.functionContracts, size)
    && AgentsMeet(doc.functionContracts, doc.agents)
  }

  lemma ContractIff(c: FunctionContract, size: Size)
    ensures ContractComplete(c) && SchemasAccepted(c, size) <==> ContractMeets(c, size)
  {
    SchemaCheck.SchemaAcceptedIff(c.inputSchema, size);
    SchemaCheck.SchemaAcceptedIff(c.outputSchema, size);
    SchemaPaths.GetIsText(c.inputSchema, "type", "object");
    SchemaPaths.ResponseFormatIff(c.responseFormat, c.outputSchema);
  }

  lemma NamesIff(contracts: seq<FunctionContract>, code: string)
    ensures HasContract(contracts, code) <==> Names(contracts, code)
  {
    if i :| 0 <= i < |contracts| && contracts[i].code == code {
      assert contracts[i] in contracts;
    }
    if c :| c in contracts && c.code == code {
      var i :| 0 <= i < |contracts| && contracts[i] == c;
    }
  }

  lemma DependencyIff(contracts: seq<FunctionContract>, d: Dependency)
    ensures DependencyAccepted(contracts, d) <==> DependencyMeets(contracts, d)
  {
    NamesIff(contracts, d.functionCode);
    PositiveAtomicIff(d.maxPriceAtomic);
  }

  lemma AgentIff(contracts: seq<FunctionContract>, a: Definition)
    ensures AgentAccepted(contracts, a) <==> AgentMeets(contracts, a)
  {
    NamesIff(contracts, a.functionCode);
    PositiveAtomicIff(a.priceAtomic);
    EvmAddressIff(a.payTo);
    forall i | 0 <= i < |a.dependencies|
      ensures a.dependencies[i] in a.dependencies
      ensures DependencyAccepted(contracts, a.dependencies[i]) <==> DependencyMeets(contracts, a.dependencies[i])
    {
      DependencyIff(contracts, a.dependencies[i]);
    }
  }

  lemma ContractsIff(contracts: seq<FunctionContract>, size: Size)
    ensures ContractsPass(contracts, size) <==> ContractsMeet(contracts, size)
  {
    forall i | 0 <= i < |contracts|
      ensures contracts[i] in contracts
      ensures ContractComplete(contracts[i]) && SchemasAccepted(contracts[i], size) <==>
                ContractMeets(contracts[i], size)
    {
      ContractIff(contracts[i], size);
    }
  }

  lemma AgentsIff(contracts: seq<FunctionContract>, agents: seq<Definition>)
    ensures AgentsPass(contracts, agents) <==> AgentsMeet(contracts, agents)
  {
    forall i | 0 <= i < |agents|
      ensures agents[i] in agents
      ensures AgentAccepted(contracts, agents[i]) <==> AgentMeets(contracts, agents[i])
    {
      AgentIff(contracts, agents[i]);
    }
  }

  lemma HeaderIff(doc: Document)
    ensures VersionsPresent(doc) && HeaderAccepted(doc) <==> HeaderMeets(doc)
  {
    EqualFoldIff(doc.asset, ASSET);
  }

  /** A document is accepted exactly when its fields are what they should be. */
  lemma DocumentIff(doc: Document, size: Size)
    ensures DocumentAccepted(doc, size) <==> DocumentMeets(doc, size)
  {
    HeaderIff(doc);
    ContractsIff(doc.functionContracts, size);
    AgentsIff(doc.functionContracts, doc.agents);
  }
}
