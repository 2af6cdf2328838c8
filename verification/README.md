# Verification of the demo agent

A Dafny model of the demo agent service, with proofs of what its protocols and transformations guarantee
over all inputs, all interleavings and all sequences of runs. `dafny verify dfyconfig.toml` checks the whole
project.

The modules, in dependency order:

- `Prelude`, `Json`, `Text`: result types, decoded JSON values with paths into them, strings of code points.
- `SchemaCheck`, `SchemaPaths`, `SchemaNormalize`, `SchemaMeaning`, `SchemaKeywords`, `SchemaLoss`: the
  catalog's schema checks, in code and by paths; the removal of `format` before a schema is sent to OpenAI;
  a validator for the keywords the catalog uses (`type`, `properties`, `required`, `items`, `enum`,
  `additionalProperties`, `format`) that says what both mean; and the verdicts that change.
- `SourceRules`, `SourceAcceptance`, `Sources`, `ResponseSources`, `SourceOrder`, `Report`: when one web
  source is accepted and what is kept of it, how sources are collected, where they come from and when order
  decides them, and the Markdown report with its parser.
- `Catalog`, `CatalogMeaning`, `ContractOrder`, `CatalogParse`, `Startup`: the catalog document, its
  acceptance in code and field by field, enrichment and sorting, and the agent registry and price list.
- `Manifests`, `AgentStore`, `Bootstrap`, `BootstrapProperties`, `BootstrapPlan`, `BootstrapResume`,
  `BootstrapFields`, `BootstrapRequests`, `BootstrapClient`: reconciliation of the remote registry with the
  catalog. `Bootstrap.Run` is one run as a function of the registry, the catalog and a schedule of faults;
  `BootstrapClient` is the same run on mutable objects, proved equal to it; the properties of runs and of
  sequences of runs are proved about the function, in its own terms, by stored fields, and by requests sent.
- `CallbackUrl`, `FanOut`, `FanOutInvoke`: the check of a callback URL, parallel callbacks as interleaved
  atomic steps, and the same steps on shared mutable state under an arbitrary scheduler.
- `Deadlines`: timeouts in signed 64-bit nanoseconds and the call trees they cover.
- `Settlement`: retried payment settlement.
- `Uuid`: version 4 UUID text (RFC 9562).

Assumptions made explicit by parameters: the network is a function from request number to fault (answered,
request lost, answer lost); the manifest digest is a function of the manifest, injective only where a lemma
says so; a URL parser is any function from text to parts, and printing and lower-casing are any functions,
faithful only where a lemma says so; a schema's encoded length is any function of the schema; a settlement
delegate is any function of its calls so far.

Three properties one might expect are false of the code, and are replaced by exact conditions:

- Removing `format` everywhere also removes a property that is called `format`
  (`SchemaLoss.PropertyNamedFormatIsLost`), and changes listed values (`SchemaLoss.ListedValueIsLost`). The
  rewrite is the intended one exactly when `format` occurs only as a keyword
  (`SchemaMeaning.NormalizeIsIntendedIff`), and which verdicts either loss changes is exact too
  (`SchemaLoss.LostPropertyChangesVerdictIff`, `SchemaLoss.LostEnumChangesVerdictIff`).
- The overflow test in the configuration does not cover the conversion from seconds: 18446744074 seconds are
  accepted and read as 0.29 seconds (`Deadlines.SecondsMayWrap`). The seconds are kept exactly when they fit
  (`Deadlines.SecondsAreKeptIff`).
- The title of a source taken from an OpenAI response is cleaned of Markdown delimiters, but a host that
  stands in for an empty title is not (`SourceRules.HostTitleMayHoldDelimiters`,
  `SourceRules.AnnotationSourceMeaning`). Titles printed in a report are cleaned again
  (`SourceRules.VerifiedIsPrintable`).

The documentation says that a repeated bootstrap succeeds only over equal active data. Some interruptions of
a first run are permanent. On an empty registry, a run whose last request is an import whose answer was
lost, or a publish that was lost, leaves its agent a draft; no other run does, and later runs neither leave
a second draft nor repair the first (`BootstrapProperties.PublishOutcomes`, `BootstrapPlan.RunFollowsPlan`).
After such a run every later one fails; while there was none, a run without faults succeeds
(`BootstrapPlan.RegistryIsAlwaysPlanned`). The same holds from any registry in which nothing found differs
from the catalog (`BootstrapResume.ResumeSucceedsIff`). One lost request is enough, for every catalog with
agents (`BootstrapProperties.OneLossIsForever`).

The iteration order of the map of dependency results can decide what an aggregated report prints. Call the
list that a dependency would have collected alone, at most five, its contribution.

- The URLs collected are the same in every order exactly when the contributions hold at most five URLs
  together (`SourceOrder.UrlsOrderFreeIff`).
- The sources collected are the same, as a set, exactly when moreover no two contributions give one URL
  different titles (`SourceOrder.SourcesOrderFreeIff`).
- The list collected, and so the text of the report, is the same exactly when of any two contributions one
  begins the other (`SourceOrder.ListOrderFreeIff`, `Report.ReportIsOrderFreeIff`).

## Model

| member | source | states |
|---|---|---|
| `SchemaCheck.ValidateSchemaValue` | catalog/catalog.go:237-259 | in whatever order map entries are visited, the check passes exactly when depth plus height, less one, is at most 32 and every `$ref` and `$dynamicRef`, at any path, is a string that starts with `#`; a reported error is one that exists |
| `SchemaCheck.ValidateEntries` | catalog/catalog.go:242-250 | the loop over an object's entries, in any order, reports no error exactly when the object is clean |
| `SchemaCheck.ValidateItems` | catalog/catalog.go:251-256 | the loop over an array's items reports no error exactly when the array is clean |
| `SchemaCheck.TooDeepIsHeight` | catalog/catalog.go:237-240 | the check passes the nesting limit exactly when depth plus structural height, less one, is at most 32 |
| `SchemaCheck.ValidateSchema` | catalog/catalog.go:226-235 | a schema is accepted exactly when it is an object, encodes in at most 65536 bytes, has height at most 32 and refers only to itself |
| `SchemaCheck.RemoteReferenceIff` | catalog/catalog.go:242-264 | a remote reference is a `$ref` or `$dynamicRef` at the end of some path whose value is no string that starts with `#` |
| `SchemaPaths.StructuredIff` | catalog/catalog.go:279-320 | the structured check passes exactly when title, sections, items and label have their types and the four names are required, each at its path |
| `SchemaPaths.ResponseFormatIff` | catalog/catalog.go:266-277 | TEXT and MARKDOWN match exactly the schemas of type string, JSON every schema, STRUCTURED those with the required paths, any other format none |
| `SchemaNormalize.NormalizeSchemaValue` | internal/agent/client/openai_client.go:136-156 | the loops, in any key order, compute the recursive removal |
| `SchemaNormalize.NormalizeSchemaForOpenAI` | internal/agent/client/openai_client.go:127-134 | the entry point always returns an object |
| `SchemaNormalize.NormalizedPaths` | internal/agent/client/openai_client.go:136-156 | what survives, path by path: exactly the values whose path has no `format` key |
| `SchemaNormalize.NormalizeFixpoint` | internal/agent/client/openai_client.go:136-156 | a value is unchanged exactly when no object inside it has a `format` key |
| `SchemaNormalize.NormalizedHasNoFormat` | internal/agent/client/openai_client.go:136-156 | the result has no `format` key at any depth |
| `SchemaNormalize.NormalizationCommutesWithChecks` | catalog/catalog.go:237-297 | normalizing twice equals once, structural height does not grow, accepted schemas stay accepted, the response format is judged alike before and after |
| `SchemaNormalize.MatchesAfterNormalize` | catalog/catalog.go:266-297 | the shape check and the string check give the same answer after normalization |
| `SchemaMeaning.StripPreservesMeaning` | internal/agent/client/openai_client.go:136-156 | for every schema and instance, dropping only the keyword leaves acceptance as with `format` read as an annotation, and never rejects what was accepted |
| `SchemaMeaning.NormalizeIsIntendedIff` | internal/agent/client/openai_client.go:136-156 | the code's removal equals the keyword-only removal exactly when `format` is nowhere a property name or inside data |
| `SchemaMeaning.NormalizationPreservesMeaning` | internal/agent/client/openai_client.go:127-156 | under that condition, original and normalized accept the same instances with `format` as an annotation, and normalized accepts all the original does with `format` as an assertion |
| `SchemaLoss.PropertyNamedFormatIsLost` | internal/agent/client/openai_client.go:140-143 | without the condition an instance can become accepted, and another rejected |
| `SchemaLoss.LostPropertyChangesVerdictIff` | internal/agent/client/openai_client.go:140-143 | when a property called `format` is an object schema's only fault, the verdict on an instance changes exactly when it has that property, the rest of the schema accepts it, and the lost subschema and the rule for additional properties disagree on it |
| `SchemaLoss.LostEnumChangesVerdictIff` | internal/agent/client/openai_client.go:140-150 | when `format` inside listed values is a schema's only fault, the verdict on an instance changes exactly when the rest of the schema accepts it and it is in just one of the original and the normalized list |
| `SchemaLoss.ListedValueIsLost` | internal/agent/client/openai_client.go:140-150 | every listed value with a `format` key inside is no longer admitted, and what is left of it is admitted instead |
| `SchemaMeaning.StructuredSchemaForcesShape` | catalog/catalog.go:279-297 | a schema that passes the structured check accepts only objects with a string title and sections that each have a string label and a value |
| `SchemaMeaning.StructuredShapeIsTight` | catalog/catalog.go:279-297 | some schema passes the check and accepts exactly those instances, so no stronger shape follows |
| `SchemaMeaning.ResponseFormatForcesShape` | catalog/catalog.go:266-277 | each response format forces its kind of output, before and after normalization; unknown formats never pass |
| `SchemaKeywords.TypeMeaning` | catalog/agents.yaml:24-55 | what each type name admits, as used in the catalog's schemas |
| `SchemaKeywords.AdditionalBesideProperties` | catalog/agents.yaml:34-55 | properties named by `properties` are judged there, all others by `additionalProperties` |
| `SourceRules.AnnotationSourceMeaning` | internal/agent/client/openai_client.go:233-248 | an accepted annotation is https under its canonical URL with a trimmed title free of control characters; the title is free of link delimiters exactly when the cleaned title is not blank or the host is free of them |
| `SourceAcceptance.AnnotationAcceptedIff` | internal/agent/client/openai_client.go:233-248 | an annotation is accepted exactly when its URL parses as https with a host and what is shown, the title or the host in its place, has no control character but line breaks in the title |
| `SourceAcceptance.AnnotationTitle` | internal/agent/client/openai_client.go:239-247 | the title kept is the trimmed title with delimiters dropped and line breaks made blanks, trimmed, or the trimmed host |
| `SourceAcceptance.AnnotationTitleByCharacter` | internal/agent/client/openai_client.go:239-239 | the rewriting acts on each character where it stands |
| `SourceRules.HostTitleMayHoldDelimiters` | internal/agent/client/openai_client.go:240-247 | an untitled citation of an IPv6 host keeps the host's brackets as its title |
| `SourceRules.VerifiedIsPrintable` | internal/agent/service/openai_agent.go:192-213 | a verified source is https without credentials under its canonical URL, and has a nonempty title without brackets or control characters and a URL without angle brackets or control characters |
| `SourceAcceptance.DependencyAcceptedIff` | internal/agent/service/openai_agent.go:192-213 | a reported source is accepted exactly when its URL is https with a host name and no credentials, it and its canonical form are safe in a link, and its title shows something and has no control character but line breaks; and what is then kept |
| `SourceAcceptance.DependencyTitleByCharacter` | internal/agent/service/openai_agent.go:207-207 | the rewriting acts on each character where it stands |
| `Text.TrimSpaceCuts` | internal/agent/service/openai_agent.go:207-207 | trimming takes a contiguous part: white space, by code point, is cut at both ends and none is left there |
| `Sources.SourceList.Append` | internal/agent/client/openai_client.go:225-231 | the slice and the seen map together keep the first source of each URL offered |
| `Sources.DistinctMeaning` | internal/agent/client/openai_client.go:225-231 | the kept sources have distinct URLs, the same URLs as offered, and as many as there are distinct URLs |
| `Sources.DistinctKeepsFirst` | internal/agent/client/openai_client.go:225-231 | a source is kept exactly when it is the first offered with its URL |
| `Sources.SourcesFromWebSearchCall` | internal/agent/client/openai_client.go:198-223 | the valid search sources of an item, in order; none for other items or raw JSON that does not decode |
| `Sources.AppendItem` | internal/agent/client/openai_client.go:172-192 | the inner loops offer an item's sources in order, or stop early holding five |
| `Sources.SourcesFrom` | internal/agent/client/openai_client.go:168-196 | the nested loops with early returns equal the simple form: concatenate, keep the first of each URL, take five |
| `Sources.AppendVerified` | internal/agent/service/openai_agent.go:150-163 | the inner loop offers a dependency's verified sources in order, or stops early holding five |
| `Sources.SourcesFromDependencies` | internal/agent/service/openai_agent.go:142-167 | for some order of the dependency map the result is the capped list of first sources in that order |
| `Sources.VerifiedIff` | internal/agent/service/openai_agent.go:145-153 | the verified sources of a dependency are exactly what the rule makes of the sources it reports |
| `Sources.VerifiedInOrder` | internal/agent/service/openai_agent.go:150-163 | they come in the order in which they are reported |
| `Sources.CollectedInAnyOrder` | internal/agent/service/openai_agent.go:142-167 | for every order the result has min(5, number of distinct URLs reported and accepted) sources, no URL twice, each reported by a dependency, and all the URLs when they fit |
| `ResponseSources.OutputOrigins` | internal/agent/client/openai_client.go:168-223 | the sources of a response are, before capping, exactly what the rule makes of the URLs its searches report and its contents cite |
| `ResponseSources.OutputInOrder` | internal/agent/client/openai_client.go:172-192 | items come in order |
| `ResponseSources.ItemInOrder` | internal/agent/client/openai_client.go:173-191 | within an item, what its search reports comes before what it cites |
| `ResponseSources.UrlsInOrder` | internal/agent/client/openai_client.go:213-220 | accepted search URLs keep their order |
| `ResponseSources.CitationsInOrder` | internal/agent/client/openai_client.go:180-190 | accepted citations keep their order |
| `ResponseSources.ResponseSourceMeaning` | internal/agent/client/openai_client.go:168-248 | every collected source is https under the canonical URL of something a search reported or an item cites |
| `SourceOrder.UrlsOrderFreeIff` | internal/agent/service/openai_agent.go:142-167 | all iteration orders collect the same URLs exactly when the dependencies' contributions hold at most five URLs together |
| `SourceOrder.SourcesOrderFreeIff` | internal/agent/service/openai_agent.go:142-167 | all orders collect the same set of sources exactly when moreover contributions with one URL have one title |
| `SourceOrder.ListOrderFreeIff` | internal/agent/service/openai_agent.go:142-167 | all orders collect the same list exactly when of any two contributions one begins the other |
| `SourceOrder.OrderMayDecide` | internal/agent/service/openai_agent.go:142-167 | five verified sources in one dependency and a sixth in another: the two orders collect different sources |
| `SourceOrder.TitleMayDecide` | internal/agent/service/openai_agent.go:155-159 | one URL verified under two titles by two dependencies: the one visited first gives the title |
| `Report.SourcesMarkdown` | internal/agent/service/openai_agent.go:183-190 | the joined lines are the heading followed by one line per source |
| `Report.LinePerSource` | internal/agent/service/openai_agent.go:183-190 | each source is printed where it stands, as a Markdown link on a line of its own |
| `Report.HeadingFollowsBody` | internal/agent/service/openai_agent.go:119-123 | the first source heading of an accepted report is two characters after the body |
| `Report.ReportRoundTrip` | internal/agent/service/openai_agent.go:123-123 | a parser recovers exactly the body and the sources |
| `Report.ReportsAreUnambiguous` | internal/agent/service/openai_agent.go:123-123 | equal reports have equal bodies and sources |
| `Report.ReportIsOrderFreeIff` | internal/agent/service/openai_agent.go:109-167 | the text of an accepted report is the same in every order exactly when of any two contributions one begins the other |
| `Report.AggregateMarkdownResult` | internal/agent/service/openai_agent.go:109-124 | each error occurs exactly under its condition, counted over the URLs that dependencies report and the rule accepts; none depends on map order; an accepted report is the trimmed answer, the heading and the lines of that many distinct sources, and reads back as these |
| `ContractOrder.SortByCode` | catalog/catalog.go:187-189 | the result is a permutation in which no code comes before an earlier one, by the first character that differs; nothing is said of equal codes |
| `ContractOrder.LessIff` | catalog/catalog.go:187-189 | codes are ordered where they first differ: by the smaller character, or by ending there |
| `ContractOrder.AscendingIsUnique` | catalog/catalog.go:187-189 | strictly ascending lists with the same elements are equal |
| `ContractOrder.PermutationKeepsDistinct` | catalog/catalog.go:137-139 | distinctness of codes does not depend on order |
| `CatalogParse.ValidateFunctionContract` | catalog/catalog.go:210-224 | passes exactly for two acceptable schemas, an object input root and an output that matches the response format; for complete contracts, exactly when both schemas are what the paths ask for |
| `CatalogParse.ReadContracts` | catalog/catalog.go:128-142 | succeeds exactly when all contracts pass and codes are distinct; stamps the version in place and indexes by code |
| `CatalogParse.CheckAgent` | catalog/catalog.go:148-173 | an agent passes exactly when it is acceptable and its code new; an error names a defect it has |
| `CatalogParse.ReadAgents` | catalog/catalog.go:146-186 | succeeds exactly when all agents pass; each is enriched in place from the contracts with its function code |
| `CatalogParse.Parse` | catalog/catalog.go:122-191 | accepts exactly the documents whose fields are what they should be; the contracts are a strictly sorted permutation with the version, agents carry their contract's fields; errors are justified |
| `CatalogMeaning.DocumentIff` | catalog/catalog.go:122-173 | the acceptance conditions, field by field: literal header values, numerals, addresses, paths in schemas, names that resolve |
| `CatalogMeaning.PositiveAtomicIff` | catalog/catalog.go:193-202 | an amount is accepted exactly when it is the decimal numeral of a positive number |
| `CatalogMeaning.EvmAddressIff` | catalog/catalog.go:194-203 | a wallet is accepted exactly when it is `0x` and forty hexadecimal digits in either case |
| `CatalogParse.AcceptanceIsCanonical` | catalog/catalog.go:128-173 | acceptance does not depend on the order of the contracts |
| `CatalogParse.CatalogIsCanonical` | catalog/catalog.go:187-190 | every order of the contracts gives the same catalog |
| `CatalogParse.AcceptedCatalogIsClosed` | catalog/catalog.go:149-185 | every function code and dependency names a contract, agents carry its fields, dependencies exist exactly for roots |
| `Startup.NewAgentRegistry` | internal/agent/service/agent_registry.go:14-34 | succeeds exactly for present agents with distinct nonempty codes, and looks up each by its code |
| `Startup.LoadAgentTerms` | internal/config/payment_config.go:35-53 | succeeds exactly when every price is the numeral of a positive number and every wallet an address, and otherwise names the first agent whose terms are not; for distinct codes each agent is charged its own price, in USDC, to its own wallet |
| `Startup.Start` | internal/app/application.go:17-26 | on every accepted catalog both tables are built, with equal keys, and each agent is charged its own price to its own wallet |
| `Manifests.RenderManifest` | internal/bootstrap/bootstrap.go:307-317 | the API version and every published field and, in order, every dependency is the catalog's |
| `Manifests.ManifestsAgreeIff` | internal/bootstrap/bootstrap.go:307-317 | two manifests are equal exactly when every published field, dependency and the endpoint are |
| `AgentStore.EffectKeepsValid` | internal/bootstrap/bootstrap_test.go:100-154 | every request keeps the registry well formed |
| `BootstrapClient.ContractsByKey` | internal/bootstrap/bootstrap.go:121-131 | the loop indexes the response by code and version; each pair keeps the last contract that has it |
| `BootstrapClient.IndexKeepsLast` | internal/bootstrap/bootstrap.go:126-129 | each key keeps the last contract with that key |
| `BootstrapClient.ResponseIsIndexed` | internal/bootstrap/bootstrap.go:121-131 | whatever the order of the response, the index is the registry's map |
| `BootstrapClient.Client.Send` | internal/bootstrap/bootstrap.go:182-227 | a request takes effect unless lost, and is answered unless it or its answer is lost or refused |
| `BootstrapClient.Client.BootstrapContracts` | internal/bootstrap/bootstrap.go:49-59 | the first loop in place does what the function says, request by request; without faults it succeeds exactly when no listed contract with the code and version of a catalog contract differs from it |
| `BootstrapClient.Client.BootstrapAgents` | internal/bootstrap/bootstrap.go:60-94 | the second loop in place does what the function says, request by request |
| `BootstrapClient.Client.Bootstrap` | internal/bootstrap/bootstrap.go:41-96 | the run in place equals the run as a function; it keeps all stored contracts and preserves all it found; success converges; by stored fields, when it succeeds without faults; and which requests it sends |
| `BootstrapProperties.RunPreserves` | internal/bootstrap/bootstrap.go:41-96 | no run, under any faults, changes a contract, an agent or a version it found |
| `BootstrapProperties.SuccessConverges` | internal/bootstrap/bootstrap.go:41-96 | success means every contract is present and equal and every agent's first active version has the desired digest |
| `BootstrapProperties.RunSucceedsIff` | internal/bootstrap/bootstrap.go:41-96 | without faults a run succeeds exactly when there is a token and nothing found differs; stated by stored fields in BootstrapFields.RunSucceedsByFields |
| `BootstrapFields.RunSucceedsByFields` | internal/bootstrap/bootstrap.go:41-96 | without faults a run succeeds exactly when there is a token, no stored contract with the code and version of a catalog contract differs from it, and every stored agent's first active version at the catalog's version has the digest |
| `BootstrapFields.StoredContractsStay` | internal/bootstrap/bootstrap.go:49-59 | under any faults every stored contract, whatever its version, stays; after a success every catalog contract is stored |
| `BootstrapFields.TwoVersionsCoexist` | internal/bootstrap/bootstrap_test.go:156-190 | a new version of a stored contract is created beside the old one |
| `BootstrapRequests.RunSends` | internal/bootstrap/bootstrap.go:41-96 | the registry found settles the requests and their order: listing, missing contracts, then per agent validate, look up, and export or import and publish; faults and differences only cut the list short |
| `BootstrapProperties.ActiveVersionIsFirst` | internal/bootstrap/bootstrap.go:246-253 | the search finds the first version that is active at the wanted version, and nothing only when there is none |
| `BootstrapProperties.RunErrorsExplained` | internal/bootstrap/bootstrap.go:41-96 | every error is true of the registry left behind: drifts name what differs, a failed request was not answered |
| `BootstrapProperties.ConvergedRunOnlyReads` | internal/bootstrap/bootstrap.go:49-94 | on a converged registry a run sends no mutating request and changes nothing, whatever is lost |
| `BootstrapProperties.SecondRunOnlyReads` | internal/bootstrap/bootstrap.go:49-94 | after a success, the next run only reads and, without faults, succeeds |
| `BootstrapProperties.PublishOutcomes` | internal/bootstrap/bootstrap.go:73-82 | an absent agent stays absent exactly when the import is lost, ends a draft exactly when the import's answer or then the publish is lost, and active exactly when the publish arrives |
| `BootstrapProperties.DraftIsNotActive` | internal/bootstrap/bootstrap.go:246-253 | an agent that is only a draft has no active version |
| `BootstrapProperties.StuckForever` | internal/bootstrap/bootstrap.go:83-86 | once an agent is found without a matching active version, no later run succeeds, after any number of runs |
| `BootstrapProperties.OneLossIsForever` | internal/bootstrap/bootstrap.go:73-86 | for every catalog with agents and an empty registry, losing the import's answer or the publish of the first agent leaves a draft, after which every run fails |
| `BootstrapProperties.DriftIsDetected` | internal/bootstrap/bootstrap.go:87-93 | with injective digests, a run over a published agent succeeds only if every published field is unchanged |
| `BootstrapPlan.ContractsFollowPlan` | internal/bootstrap/bootstrap.go:49-59 | under any faults the contracts present stay a prefix of the catalog's |
| `BootstrapPlan.ContractPhase` | internal/bootstrap/bootstrap.go:49-59 | the contract loop moves the registry along the plan and leaves agents alone |
| `BootstrapPlan.ListedArePassed` | internal/bootstrap/bootstrap.go:50-55 | contracts found equal are passed over without a request |
| `BootstrapPlan.FrontierAgent` | internal/bootstrap/bootstrap.go:61-82 | handling the next agent moves the plan by at most one step, and leaves a draft exactly when its last request was an import whose answer was lost or a lost publish |
| `BootstrapPlan.RestFollowsPlan` | internal/bootstrap/bootstrap.go:60-82 | without a draft the remaining agents are published in order until something is lost |
| `BootstrapPlan.DraftStopsRun` | internal/bootstrap/bootstrap.go:83-86 | a draft stops the run without a change |
| `BootstrapPlan.AgentsFollowPlan` | internal/bootstrap/bootstrap.go:60-94 | under any faults the active agents stay a prefix with at most one draft, right after it |
| `BootstrapPlan.RunFollowsPlan` | internal/bootstrap/bootstrap.go:41-96 | one run moves forward along the plan; success completes it; a draft stops it; without a draft only faults can; there is a draft afterwards exactly when there was one or the last request was an import whose answer was lost or a lost publish |
| `BootstrapPlan.RegistryIsAlwaysPlanned` | internal/bootstrap/bootstrap.go:41-96 | after any number of interrupted runs from an empty registry, it is on the plan; an agent is a draft exactly when some run ended in an import whose answer was lost or a lost publish; and a fault-free run succeeds exactly when there was no such run |
| `BootstrapPlan.ParsedCatalogIsPlannable` | catalog/catalog.go:128-145 | every catalog that parsing accepts meets what the plan needs |
| `BootstrapResume.RunStaysCompatibleIff` | internal/bootstrap/bootstrap.go:41-96 | from any registry and under any faults, nothing found differs after a run exactly when nothing did before and the last request was not an import whose answer was lost or a lost publish |
| `BootstrapResume.ResumeSucceedsIff` | internal/bootstrap/bootstrap.go:41-96 | from any registry, after any interrupted runs, a fault-free run succeeds exactly when nothing found at the start differed and no run ended in such a request |
| `CallbackUrl.NewCallbackClient` | internal/runtime/client/callback_client.go:32-60 | a client is made exactly from exact origins, at least one, and positive limits; it allows the printed forms of those origins and nothing else |
| `CallbackUrl.AcceptedIff` | internal/runtime/client/callback_client.go:179-204 | when the library reads the URL's origin back and prints different origins differently, a callback URL is accepted exactly when it is http or https, has a host and no credentials, query or fragment, and a configured origin has its scheme and, ignoring case, its host; the URL returned is the one parsed |
| `FanOut.InvStep` | internal/runtime/client/callback_client.go:78-105 | every atomic step keeps the invariant that ties workers, channel, history and answer together |
| `FanOut.SenderNeverBlocks` | internal/runtime/client/callback_client.go:74-92 | a goroutine with a reply can always send it, even after the call has returned |
| `FanOut.ProgressPossible` | internal/runtime/client/callback_client.go:78-105 | no deadlock: until all is done, a step other than the caller's is possible |
| `FanOut.MeasureDecreases` | internal/runtime/client/callback_client.go:78-105 | every step brings the end nearer |
| `FanOut.RunsAreBounded` | internal/runtime/client/callback_client.go:78-105 | every run has at most four steps per dependency and two more |
| `FanOut.AnswerReflectsOutcomes` | internal/runtime/client/callback_client.go:94-105 | success only if all dependencies succeed, and then always unless the caller ends; an error is a dependency's own or the caller's, never the echo of the call's own cancellation |
| `FanOut.AnswerHoldsLastOutputs` | internal/runtime/client/callback_client.go:86-103 | the map has exactly the nonempty last codes, each with the output received last under it |
| `FanOut.ConfluentIff` | internal/runtime/client/callback_client.go:94-105 | when all succeed, the map is independent of the interleaving exactly when shared codes have equal outputs |
| `FanOut.ErrorsAreExact` | internal/runtime/client/callback_client.go:94-100 | while the caller goes on, the errors that some interleaving returns are exactly the failing dependencies' own |
| `FanOut.AnswerDeterminedIff` | internal/runtime/client/callback_client.go:94-105 | while the caller goes on, the answer is independent of the interleaving exactly when all succeed and shared codes have equal outputs, or some fail and all failures have one message |
| `FanOutInvoke.Invocation.ReceiveNext` | internal/runtime/client/callback_client.go:94-103 | one turn of the fan-in loop on the shared state is the receive step |
| `FanOutInvoke.InvokeDependencies` | internal/runtime/client/callback_client.go:68-106 | under every scheduler the call ends, with a complete map or a root-cause error |
| `FanOutInvoke.Invoke` | internal/runtime/client/callback_client.go:62-106 | a refused callback URL is reported and nothing is started; otherwise the call ends as the fan-out does |
| `Deadlines.AggregateTestIsExact` | internal/config/application_config.go:138-141 | the wraparound test passes exactly when the timeout is positive and the true product fits in 63 bits |
| `Deadlines.SecondsAreKeptIff` | internal/config/application_config.go:137-141 | an accepted configuration means its seconds exactly when they fit in 63 bits of nanoseconds, and every configuration whose exact product fits is accepted so |
| `Deadlines.RefusalsAreExact` | internal/config/application_config.go:116-141 | each refusal occurs exactly under its condition |
| `Deadlines.SecondsMayWrap` | internal/config/application_config.go:137-141 | a concrete configuration that is accepted with another meaning |
| `Deadlines.BudgetsAreExact` | internal/runtime/client/callback_client.go:170-177 | a path has a budget exactly when its length is valid; no budget overflows; depth 1 gets the aggregate timeout, each child exactly one unit less than its parent |
| `Deadlines.TreesMeetDeadlines` | internal/runtime/client/callback_client.go:122-127 | any call tree within the depth limit and one unit per node meets every deadline, none cut short by the caller's |
| `Deadlines.DurationIsLongestPath` | internal/runtime/client/callback_client.go:78-105 | a call takes as long as its longest path |
| `Deadlines.EveryCallMeetsItsDeadline` | internal/runtime/client/callback_client.go:122-127 | path by path: every call of a tree within the limits has its budget, finishes within it, and its deadline is no later than any above it |
| `Deadlines.BudgetIsLeast` | internal/runtime/client/callback_client.go:175-176 | one unit per remaining level is the least budget that covers every such tree |
| `Settlement.Settle` | internal/payment/x402/retrying_facilitator_client.go:31-52 | the same call is repeated, at most once per delay, after replies that say in so many words that the transfer failed and full waits; an honest facilitator moves money at most once, and not at all when the settlement ends in such a reply |
| `Settlement.EndIsDetermined` | internal/payment/x402/retrying_facilitator_client.go:36-51 | the replies and waits determine the number of calls and the result |
| `Settlement.SomeEndExists` | internal/payment/x402/retrying_facilitator_client.go:36-51 | every combination of replies and waits leads to an end |
| `Settlement.NothingFollowsADecision` | internal/payment/x402/retrying_facilitator_client.go:37-40 | every reply but the last is without error, unsuccessful and gives the one retryable reason; without cancellation the answer is the first reply that decides or the last one |
| `Settlement.RetriesAreUsed` | internal/payment/x402/retrying_facilitator_client.go:35-49 | if the last reply gives that reason and all waits elapsed, all retries were used; all attempts are made exactly when every reply but the last gives it and no wait is cancelled |
| `Settlement.RetryableIff` | internal/payment/x402/retrying_facilitator_client.go:56-61 | a reply is retried exactly when it is a response without success and with that reason, and no error |
| `Uuid.NewUuid` | internal/runtime/client/callback_client.go:258-268 | the in-place mask and the slices print bytes that read back as the random ones, with only the version and variant bits forced |
| `Uuid.TextRoundTrip` | internal/runtime/client/callback_client.go:266-267 | removing hyphens and decoding gives back the bytes |
| `Uuid.UuidShape` | internal/runtime/client/callback_client.go:264-267 | 36 characters, hyphens exactly at four places, lower-case hexadecimal digits elsewhere, version 4, variant 8 to b |
| `Uuid.UuidsCollideIff` | internal/runtime/client/callback_client.go:264-267 | two inputs print alike exactly when their other 122 bits agree |

## Left out

- HTTP transport, address pinning, redirects, body-size limits, routing and controllers: plumbing around the modelled logic.
- YAML and JSON encoding and SHA-256: decoded values are datatypes, digests a function of the manifest.
- URL parsing and printing: any parser.
- The OpenAI and x402 SDK calls, prompts, and payment signing: foreign calls.
- Configuration file reading, host, port, mode and origin checks: short independent branches.
- Fixture agents, and the fixed contents of the embedded catalog.
- Keywords beyond those the catalog uses: a subschema under any other keyword counts as data, so `format` inside it falls outside the condition under which normalization preserves meaning.
- The registry's own rules: it is modelled as storing what it is sent; a refusal reads like a lost request, and concurrent writers are not modelled.
- The steps inside one callback (payload, request, response decoding): a callback yields its own outcome or the error of an ended context.
- Decoding of a dependency's `sources` value and of a search call's raw JSON: decoded values are inputs.
- Structured (non-Markdown) agent results and the completed-search test: short checks of their own.
- What a registered agent does when invoked: the registry is modelled up to the lookup.
- `Verify` and `GetSupported` of the facilitator client: plain delegation.
