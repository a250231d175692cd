# Verified models of the generator's hard parts

This Dafny project models the parts of the OpenAPI generator that reason about graphs,
ownership and encodings, and proves what they promise. `dafny verify dfyconfig.toml` checks
everything. Each component is a module of its own:

- **Reference bundler** (`Sequences`, `Yaml`, `References`, `Normalization`, `Inlining`, `Ordering`, `Assembly`, `Bundling`,
  `Obstacles`, `Pointers`, `Meaning`, `Preservation`, `BundleTheorem`, `Siblings`). Documents are YAML trees; a reference is a pair of a
  document and a JSON Pointer (section 4 of RFC 6901). `Bundler` is the recursive normalizer with its maps as
  fields, proved against a specification of normal forms. `Pointers` says what a reference denotes, as a relation, and
  `Meaning` what a reader sees when references are followed `k` times, with no mention of bundling; the main theorem
  says that bundling does not change it. The
  theorem needs replaced references to have only plain annotations beside them (`Preservation.Regular`);
  `Siblings` shows exactly which siblings and names go wrong.
- **Source closure** (`SourceClosure`, `ReferencePaths`, `ClosureHash`, `ExtensionReferences`, `PayloadPaths`). The documents
  that are collected, the framing of the bytes that are hashed, and the renaming of reference keys inside extension
  payloads. Key nodes are cells of an array that are renamed and restored in place. `ReferencePaths` and `PayloadPaths` say
  which references and keys these are by the ways that lead to them.
- **Ownership of generated files** (`JsonValues`, `NpmManifest`, `Ownership`, `GeneratedFiles`, `GenerationHistory`).
  The file system is a map from paths to texts, the digest a function. `GeneratedTree` and `Directory` are updated in
  place; `GenerationHistory` is the state machine of users and generations taking turns.
- **Plugin engine** (`Scheduling`, `PluginResolution`, `PackageRun`, `Composition`). Binding requirements to
  providers, the order of execution, the two passes over it, and packages put together by directory.
- **Filters** (`Filters`). The backtracking wildcard matcher against the declarative relation.
- **Request codec** (`Texts`, `RequestCodec`, `SchemaExpansion`, `SchemaMeaning`). Building request targets and reading them
  back (sections 2.1 and 2.3 of RFC 3986), and writing schemas without references. `SchemaMeaning` defines which values a
  schema accepts and which a written document accepts.
- **Publication order** (`PublicationOrder`). The depth-first order in which crates are published.
- **Idempotency policies** (`Idempotency`).

Where properties that one might expect do not hold, the exact condition is proved instead: a star in a value misleads
the wildcard matcher (`Filters.MatcherIsRightExactly`); an entry beside a reference, or under
a name that is a keyword, is read in the wrong mode (`Siblings`); an npm requirement that is no version string makes the next merge fail (`NpmManifest.MergeIsIdempotentExactly`);
an empty path value is not accepted back (`RequestCodec.PathRoundTrip`); a root whose components are no mapping
cannot hold lifted schemas (`Assembly.ComponentsResolve`); a schema that is cut under a negation accepts too little
(`SchemaMeaning.NegatedCutRefuses`).

The documentation of safe regeneration (`docs/reference/regeneration/safe-regeneration.md`, lines 38-40) says that an
unowned file is adopted when its first eight lines contain a generation notice. The code (`crates/core/src/files.rs`,
lines 293-297) does not look at the contents: an unowned file that differs is refused unless it is the lock
(`Ownership.UnownedIsRefusedExactly`). The model follows the code.

## Model

| member | source | states |
|---|---|---|
| `BundleTheorem.BundlingPreservesMeaning` | openapi/local_bundle.go:21-296 | Every declaration of the root document is found at the same place in the bundled document, read in the same mode, and unfolds to the same tree at every depth `k`, references followed across all documents by what they denote (`Pointers.Denotes`), not by the lookup that the bundler uses |
| `BundleTheorem.LiftedSchemasKeepMeaning` | openapi/local_bundle.go:89-126 | The component made for a lifted schema unfolds, at every depth, like the target it was lifted from, in whatever document that target is |
| `BundleTheorem.ReferencesResolveExactly` | openapi/local_bundle.go:273-290 | For arbitrary documents: every rewritten reference resolves, by pointer evaluation in the output, to the normal form of its target, if and only if the normalized root has a place that holds components |
| `Pointers.LocateExactly` | openapi/local_bundle.go:53-87 | The lookup of a reference finds a node if and only if the reference denotes it: in the document it names or, when it names none, in the one it stands in, by steps from its top that first entries and decimal positions answer, with `~1` for a slash and `~0` for a tilde |
| `Pointers.LocateFails` | openapi/local_bundle.go:53-87 | Otherwise the reference denotes nothing, and each error has its reason: no such document, an anchor, no way to the end of the pointer |
| `Pointers.UnescapeExactly` | openapi/local_bundle.go:79-79 | The two replacements read a token from left to right, so that `~01` is `~1` |
| `Pointers.IndexExactly` | openapi/local_bundle.go:329-338 | A position is a decimal numeral, with leading zeros or a sign, and nothing else is |
| `Pointers.WalkExactly` | openapi/local_bundle.go:78-84 | Evaluating a pointer arrives exactly where its steps lead |
| `Pointers.NamedExactly` | openapi/local_bundle.go:53-87 | What a reference names in the meaning of a document is what the lookup finds |
| `Pointers.ReferenceExactly` | openapi/local_bundle.go:140-141 | The reference of a node is its first `$ref` entry, when that is a scalar |
| `Pointers.KeptExactly` | openapi/local_bundle.go:146-148 | A reference stays as it is if and only if it stands in the root and names no document and, in a schema, names a component schema |
| `Bundling.Bundle` | openapi/local_bundle.go:21-296 | Terminates on all document sets, cyclic ones included, with and without the size limits. Without limits it succeeds if and only if a bundled document exists under some choice of names; success gives the normal form of the root plus exactly one fresh component per lifted locator and rules out an inline cycle, and "circular" is reported only for a real one. With limits it may give up in addition |
| `Bundling.HopelessIsImpossible` | openapi/local_bundle.go:273-276 | When the root has no normal form under any names, no bundled document exists |
| `Obstacles.OverlayHopeless` | openapi/local_bundle.go:184-198 | A sibling without a normal form makes the reference it stands beside impossible, whatever names are chosen |
| `Obstacles.NonObjectHopeless` | openapi/local_bundle.go:199-201 | Siblings beside a target that is no object are refused whatever names are chosen |
| `Obstacles.SameKind` | openapi/local_bundle.go:183-202 | Whether an inlined target is an object does not depend on the names given to schemas |
| `Bundling.Bundler.LiftSchema` | openapi/local_bundle.go:89-126 | Names a locator before traversing it, so that recursion ends; returns the name the locator has, only adds names, and never reports a circular reference |
| `Bundling.Bundler.Register` | openapi/local_bundle.go:91-116 | A fresh name, with the fewest underscores that make it one, that no locator and no root component has; earlier names stay |
| `Bundling.Bundler.FreshName` | openapi/local_bundle.go:111-114 | The underscore loop ends with the first candidate not in use |
| `Bundling.Bundler.Publish` | openapi/local_bundle.go:119-123 | The finished component is published under its name, each locator once, and every invariant of the bundler holds again |
| `Bundling.Bundler.Normalize` | openapi/local_bundle.go:129-272 | Computes the normal form of the node in its mode under the final names, gives up only when a limit applies and the node count or the depth has exceeded it, otherwise fails only when there is no normal form under any names, ends by the measure (unlifted locators, inactive locators, node), restores `active` and `depth`, and reports "circular" only outside schemas and only for a real inline cycle |
| `Bundling.Bundler.NormalizeMapping` | openapi/local_bundle.go:143-206 | Which references are rewritten, which are inlined and which stay, by mode, origin and fragment |
| `Bundling.Bundler.NormalizeReference` | openapi/local_bundle.go:156-175 | A schema reference is rewritten to the component of its target, siblings normalized as schemas |
| `Bundling.Bundler.Inline` | openapi/local_bundle.go:176-203 | Any other reference leaving the root is replaced by its normalized target under the cycle guard, siblings overriding |
| `Bundling.Bundler.NormalizeEntries` | openapi/local_bundle.go:208-260 | Entry by entry: extensions and literals copied, mode of each value chosen by its key |
| `Bundling.Bundler.OverlaySiblings` | openapi/local_bundle.go:184-198 | Siblings are normalized and set over the inlined target in order |
| `Inlining.NormalFormsAreAcyclic` | openapi/local_bundle.go:176-181 | If the root has a normal form, no chain of inlined references from the root ever repeats a target |
| `Inlining.NormalTargets` | openapi/local_bundle.go:144-183 | What a normalizable node inlines is not active already and is normalizable itself |
| `Normalization.NormalSchemaExtends` | openapi/local_bundle.go:116-124 | Adding names later does not change the normal form of a schema already computed |
| `Normalization.NormalPlainExtends` | openapi/local_bundle.go:129-272 | Adding names later does not change the normal form of any other node already computed |
| `Assembly.AddSchemas` | openapi/local_bundle.go:277-290 | Components are added under `components.schemas`, created when missing, in sorted order |
| `Assembly.ComponentsResolve` | openapi/local_bundle.go:277-290 | All added components are found by their pointers if and only if the root has a place that holds them |
| `Assembly.SequenceHoldsNothing` | openapi/local_bundle.go:277-290 | A concrete root, with a sequence as its components, in which the added schema is not found |
| `Assembly.AddedComponents` | openapi/local_bundle.go:288-290 | A component name selects its component afterwards; every other key selects what it did before |
| `BundleTheorem.BundleIsLinked` | openapi/local_bundle.go:21-296 | Declarations of the root keep their place and mode and become their normal form; component references lead to the normal forms of the lifted targets |
| `Preservation.SameUnfolding` | openapi/local_bundle.go:129-272 | In linked documents a node and its normal form unfold to the same tree, at every depth and in every mode |
| `Siblings.SchemaSiblingsExactly` | openapi/local_bundle.go:158-172 | An entry beside a schema reference is normalized like the same entry elsewhere in a schema if and only if its key is no extension, no literal keyword and no catalogue of schemas |
| `Siblings.PlainSiblingsExactly` | openapi/local_bundle.go:184-198 | The same for entries beside an inlined reference: exactly when the key is no extension and does not hold schemas |
| `Siblings.SchemaSiblingDiffers` | openapi/local_bundle.go:167-167 | For each such key a concrete value, built around a reference with a cut-off escape, that is normalized differently beside a reference |
| `Siblings.NamedSchemasExactly` | openapi/local_bundle.go:214-215 | A schema in a catalogue is normalized independently of its name if and only if, within a schema, the name is no keyword for a catalogue of schemas, and, among the components, it is not `schemas` |
| `BundleTheorem.HypothesesAreExact` | openapi/local_bundle.go:158-215 | What the main theorem asks of siblings and of names in catalogues is, key by key, exactly what those conditions say |
| `Yaml.SetThenGet` | openapi/local_bundle.go:298-317 | Setting a key changes that key alone |
| `Yaml.SetKeepsOrder` | openapi/local_bundle.go:309-317 | All entries keep their places, only the first one of that key is replaced, and a new key comes last |
| `Ordering.Sorted` | openapi/local_bundle.go:320-327 | The names in strictly increasing order, each once |
| `SourceClosure.CollectSourceClosure` | openapi/source_closure.go:48-200 | Succeeds if and only if every needed document exists and all its references resolve; the result is then the least set that contains the root and is closed under followed references and discriminator mappings, whatever the order of the traversal |
| `SourceClosure.Collector.Visit` | openapi/source_closure.go:69-113 | Ends on reference cycles; every document added on the way is complete: all its references lead into the collected set |
| `SourceClosure.Collector.Follow` | openapi/source_closure.go:114-144 | The target is collected, or the failure names an unresolvable reference or a missing document that is really needed |
| `SourceClosure.Collector.Walk` | openapi/source_closure.go:145-194 | The references that count at this place, by mode, are followed (which these are is `ReferencePaths.RefersExactly`) |
| `SourceClosure.Collector.WalkMapping` | openapi/source_closure.go:147-185 | Discriminator mapping values that look like references and `$ref` entries are followed; extensions and literal keywords are not entered |
| `ReferencePaths.RefersExactly` | openapi/source_closure.go:145-194 | A reference counts if and only if a way from the top of the document leads to it that enters neither an extension nor the data of a schema: a `$ref` entry or, in a schema with a property name, a value of the discriminator mapping that looks like a reference |
| `ReferencePaths.HereExactly` | openapi/source_closure.go:147-150 | A mapping is a schema if a step above it led into one or it has the keywords of one, unless it lists schemas by name |
| `ReferencePaths.NamesExactly` | openapi/source_closure.go:151-163 | What one mapping names: its `$ref` entries and the values of its first `mapping` entry |
| `ClosureHash.StreamsTellFilesApart` | openapi/source_closure.go:211-234 | Equal framed streams come from equal file lists with equal contents |
| `ClosureHash.FrameSplits` | openapi/source_closure.go:226-232 | A length-framed text at the front of a stream is determined by the stream, and so is what follows it |
| `ClosureHash.StreamHolds` | openapi/source_closure.go:226-232 | The stream reads back as the files: each length, most significant byte first, is that of the path or content that follows it, path before content, and nothing is left |
| `ClosureHash.BigEndianReads` | openapi/source_closure.go:226-230 | The eight bytes denote the length |
| `ClosureHash.BigEndianInjective` | openapi/source_closure.go:226-230 | Eight big-endian bytes determine the length |
| `ClosureHash.WriteFiles` | openapi/source_closure.go:213-234 | The write loop produces the framed stream of the files in order, which reads back as these files |
| `ExtensionReferences.HideReferences` | openapi/extension_refs.go:11-47 | Afterwards, in the document as it then reads, no key inside an extension payload is `$ref`, every key outside payloads is unchanged, and exactly the payload references have new texts, which differ from all their siblings |
| `ExtensionReferences.Shield.Restore` | openapi/extension_refs.go:48-52 | The document is again exactly what it was before |
| `ExtensionReferences.Shield.Walk` | openapi/extension_refs.go:14-46 | Renames in place exactly the payload references below a node and remembers exactly those keys |
| `ExtensionReferences.Shield.WalkEntry` | openapi/extension_refs.go:19-41 | One key and its value: renamed only in a payload, and then unlike every sibling, also after the later ones are renamed |
| `ExtensionReferences.Shield.FreshKey` | openapi/extension_refs.go:21-37 | The loop ends with the first candidate, in order of added underscores, that no key of the mapping has |
| `ExtensionReferences.SamePayload` | openapi/extension_refs.go:41-41 | Renaming never changes what counts as payload |
| `ExtensionReferences.AllPayload` | openapi/extension_refs.go:41-41 | Below an extension key every key is payload, whatever the modes |
| `PayloadPaths.PayloadExactly` | openapi/extension_refs.go:14-46 | A key is payload if and only if on the way to it there is a key that starts with `x-` and is not one of the names listed under a catalogue keyword |
| `ExtensionReferences.NoReferenceLeft` | openapi/extension_refs.go:11-47 | A shielded document has no `$ref` key in a payload and all other keys as before |
| `GenerationHistory.EditedFilesAreSafe` | crates/core/src/files.rs:208-349 | After any interleaving of edits, deletions and generations with arbitrary trees: a generation removes or changes a file only if it holds exactly what generation last put there; the only exceptions are merged npm manifests, an unrecorded generation lock and JSON-equal package metadata |
| `GenerationHistory.OverwrittenOtherwise` | crates/core/src/files.rs:276-297 | What may be written over a differing file that is no npm manifest and not as recorded: the unrecorded lock and equal metadata |
| `GenerationHistory.RunKeepsRecords` | crates/core/src/files.rs:190-206 | Over every run each ownership record is the digest of what generation last emitted at its path |
| `GenerationHistory.StepKeepsRecords` | crates/core/src/files.rs:208-349 | Every single event keeps that invariant |
| `GenerationHistory.StarterFilesAreKept` | crates/core/src/files.rs:60-72 | A starter file that exists keeps its bytes, generated again or not |
| `GenerationHistory.RetainedFilesAreKept` | crates/core/src/files.rs:155-181 | Under a retained prefix bytes and recorded hashes stay exactly as they are |
| `GenerationHistory.NpmManifestsKeepUserFields` | crates/core/src/files.rs:481-562 | Every user field outside name, version and exports survives any accepted generation; arrays are only extended at their end |
| `GenerationHistory.SettlesExactly` | crates/core/src/files.rs:481-562 | A generated npm manifest is a fixed point of its own merge if and only if all the requirements add to the dependency sections are version strings |
| `Ownership.SettledExactly` | crates/core/src/files.rs:190-206 | After a successful write a second one is accepted, reports nothing and changes neither files nor record if and only if every written npm manifest is a fixed point of its merge |
| `Ownership.ChangesExactlyTheReport` | crates/core/src/files.rs:184-206 | A write adds, modifies and removes exactly the paths that the check reports as added, modified and removed |
| `Ownership.PreviewAgrees` | crates/core/src/files.rs:208-351 | Whenever the enforcing plan is not refused, the plan that does not enforce is the same |
| `Ownership.UnownedIsRefusedExactly` | crates/core/src/files.rs:293-297 | A differing file that is not on record is written over only if it is the generation lock, whatever its text |
| `Ownership.OwnershipStaysValid` | crates/core/src/files.rs:208-226 | The record that a write leaves is accepted by the next one |
| `GeneratedFiles.GeneratedTree.WriteTo` | crates/core/src/files.rs:190-206 | Accepted if and only if the write is permitted (`Ownership.Permitted`). Then at every path the promised text has arrived: the generated one, for npm manifests its merge with the user's, for existing starter files the old one; abandoned files are gone, everything else is unchanged, the record says so, and the report lists exactly the differences. A refusal changes nothing |
| `Ownership.PermittedExactly` | crates/core/src/files.rs:208-351 | The checks accept exactly what is permitted: a file may be overwritten if it has the generated text, is a manifest that can be merged or is on record and unedited (or equal metadata, or edits are not enforced), unrecorded only if equal or the lock; an abandoned file may be removed if it is as recorded |
| `Ownership.MayGenerateExactly` | crates/core/src/files.rs:240-300 | The same for one generated path |
| `Ownership.PromisesAreKept` | crates/core/src/files.rs:190-206 | After a write the generated text is at each path (merged, for npm manifests; the old one, for existing starter files), abandoned files are gone, the others unchanged, and the record holds owner, digest and mark of each |
| `Ownership.ReportExactly` | crates/core/src/files.rs:184-206 | A path is reported as added, modified or removed exactly when disk and promise differ in that way |
| `GenerationHistory.GenerationArrives` | crates/core/src/files.rs:190-206 | In every run each accepted generation puts its text at each of its paths |
| `GeneratedFiles.GeneratedTree.Check` | crates/core/src/files.rs:184-186 | Refused exactly when the write would not be permitted; otherwise exactly the paths are reported at which the promised text is not on disk yet |
| `GeneratedFiles.GeneratedTree.MakePlan` | crates/core/src/files.rs:208-351 | Succeeds exactly when the write is permitted: the record is valid, no generated path would overwrite an edited or unowned file, no abandoned file was edited; computes output, records and removals |
| `GeneratedFiles.GeneratedTree.PlanFile` | crates/core/src/files.rs:240-323 | Which text each generated path gets, or that it is skipped; refused exactly when it may not be generated |
| `GeneratedFiles.GeneratedTree.PlanFiles` | crates/core/src/files.rs:227-323 | Output and records for all generated paths, or a refusal exactly when one of them is refused |
| `GeneratedFiles.GeneratedTree.PlanRemovals` | crates/core/src/files.rs:324-349 | Exactly the obsolete files are removed; an edited one refuses the whole plan |
| `GeneratedFiles.GeneratedTree.Insert` | crates/core/src/files.rs:52-58 | Adds a file at a new path; a second generator for it is refused and changes nothing |
| `GeneratedFiles.GeneratedTree.InsertCustom` | crates/core/src/files.rs:65-72 | The same, with the starter mark |
| `GeneratedFiles.GeneratedTree.Replace` | crates/core/src/files.rs:79-88 | Replaces the contents of an existing path only |
| `GeneratedFiles.GeneratedTree.SetOwner` | crates/core/src/files.rs:126-136 | Owners only for existing files, and never blank |
| `GeneratedFiles.GeneratedTree.Append` | crates/core/src/files.rs:138-153 | Succeeds exactly for disjoint paths; files, starter marks, owners and retained prefixes are then the union |
| `GeneratedFiles.GeneratedTree.PreserveOwnedPrefix` | crates/core/src/files.rs:158-181 | A prefix is retained only if it is a valid path and no generated file lies below it |
| `NpmManifest.MergeIsIdempotentExactly` | crates/core/src/files.rs:481-562 | Merging the same requirement again succeeds and changes nothing if and only if what the requirement adds to the dependency sections are version strings; otherwise the second merge is refused |
| `NpmManifest.MergePromise` | crates/core/src/files.rs:481-562 | Every field of the merged manifest, said without the merge: what the user has and what is required of it, the missing items in their order and once, the user's dependencies, the required identity |
| `NpmManifest.DependenciesExactly` | crates/core/src/files.rs:497-518 | A section of the result lists exactly the versions that the user lists there and those required there of packages that the user depends on nowhere |
| `NpmManifest.ExportsExactly` | crates/core/src/files.rs:545-559 | The result has exactly the required exports and those that only the user has |
| `NpmManifest.MergeFailsExactly` | crates/core/src/files.rs:481-506 | The merge is refused if and only if one of the texts is no JSON object, a user section is no object of strings, or exports must be added to something that is no object |
| `NpmManifest.NullVersionIsRefused` | crates/core/src/files.rs:497-506 | Concretely: a dependency whose version is null is merged into an empty manifest, and the result is refused the next time |
| `NpmManifest.MergeKeepsUser` | crates/core/src/files.rs:481-562 | Every user value outside the identity is kept: leaves unchanged, objects keep their keys, arrays are prefixes of the result |
| `NpmManifest.MergeDependencies` | crates/core/src/files.rs:497-518 | A user dependency keeps its section and range, every required one is present in some section afterwards, and one that the user already has elsewhere is not added |
| `NpmManifest.MergeIdentifies` | crates/core/src/files.rs:540-559 | Name, version and exports come from the requirement, exports entry by entry |
| `NpmManifest.AppendTwice` | crates/core/src/files.rs:519-539 | Appending the same requirement twice is appending it once |
| `NpmManifest.AppendKeeps` | crates/core/src/files.rs:519-539 | Appending keeps everything the user has |
| `NpmManifest.AppendGives` | crates/core/src/files.rs:519-539 | Appending gives everything that is required and nothing else: every key of an object, every item of an array, in order and once, and a value where the user has none |
| `NpmManifest.MergeGives` | crates/core/src/files.rs:519-539 | The same for the merge outside identity and dependency sections |
| `NpmManifest.MergeNpmManifest` | crates/core/src/files.rs:481-562 | Refused exactly when a text is no object or the merge is impossible; otherwise the text of the manifest that `NpmManifest.MergePromise` describes |
| `NpmManifest.Identify` | crates/core/src/files.rs:540-559 | Overwriting name and version and adding exports computes the specified identity, or refuses exports that are no object |
| `NpmManifest.AppendInto` | crates/core/src/files.rs:519-539 | The recursive in-place append keeps what the user has and gives what is required, exactly as specified |
| `NpmManifest.Retain` | crates/core/src/files.rs:507-518 | Requirements of packages the user already depends on are dropped, in whatever section |
| `PluginResolution.Resolve` | crates/core/src/engine.rs:284-449 | Succeeds if and only if every requirement can be bound and the contracts alone are acyclic; the order is then a permutation, topological, lexicographically least, with every generation plugin before every post plugin; a cycle is reported exactly when everything can be bound, and it names exactly the plugins from which one is reachable |
| `PluginResolution.PhasesAddNoCycle` | crates/core/src/engine.rs:414-423 | With the phase edges the graph is acyclic if and only if it was without them |
| `PluginResolution.OrderedPhases` | crates/core/src/engine.rs:414-442 | In every order of the extended graph no generation plugin follows a post plugin |
| `PluginResolution.Select` | crates/core/src/engine.rs:347-388 | The provider of a requirement is unique when there is one; an error means that nothing can be bound |
| `PluginResolution.Bind` | crates/core/src/engine.rs:345-412 | Succeeds exactly when all requirements of the plugin can be bound, distinct and without reaching into a later phase; records who provides what |
| `PluginResolution.BindAll` | crates/core/src/engine.rs:343-413 | The dependency graph has exactly the edges of the bindings |
| `PluginResolution.CheckInstances` | crates/core/src/engine.rs:297-315 | Accepts exactly distinct instances that declare no contract twice |
| `PluginResolution.CheckNames` | crates/core/src/engine.rs:316-342 | Accepts exactly packages in which one stable name means one payload type |
| `Scheduling.Order` | crates/core/src/engine.rs:424-442 | The worklist succeeds exactly on acyclic graphs with the least order there is, and otherwise reports exactly the vertices that reach a cycle |
| `Scheduling.GreedyIsLeast` | crates/core/src/engine.rs:427-428 | Always taking the first ready plugin gives the lexicographically least of all topological orders |
| `Scheduling.StuckReachesCycle` | crates/core/src/engine.rs:429-439 | Where nothing is ready, every remaining plugin reaches a cycle |
| `Scheduling.OrderedIsAcyclic` | crates/core/src/engine.rs:424-442 | No plugin that got into the order reaches one |
| `PackageRun.Run` | crates/core/src/engine.rs:451-535 | The two phase-filtered passes execute plugins exactly in the planned order, each once; every read of a bound contract succeeds, the recorded payloads are those that the plugins published, and none is ever replaced. The run fails if and only if, all before it having run, the next plugin fails or leaves a declared contract unpublished |
| `PackageRun.RunPhase` | crates/core/src/engine.rs:473-521 | One pass executes the plugins of its phase in planned order after those that ran before, up to the first that does not succeed |
| `PackageRun.Execute` | crates/core/src/engine.rs:474-520 | A plugin reads only published contracts; it succeeds if and only if it does not fail and publishes everything it declares, and then exactly these payloads are recorded. Which of the two errors is reported is determined |
| `PackageRun.Publish` | crates/core/src/engine.rs:518-520 | The loop records exactly the declared payloads and keeps the others |
| `PackageRun.ProvidersRanBefore` | crates/core/src/engine.rs:487-491 | Whoever a plugin is bound to has published before it runs |
| `PackageRun.ReceivesWhatWasSent` | crates/core/src/engine.rs:483-520 | For every requirement a plugin receives the very payload that the provider it is bound to published earlier in the same run, or nothing when it is optional and nobody provides it |
| `PackageRun.KeysAreFresh` | crates/core/src/engine.rs:518-520 | No key a plugin publishes was published before |
| `PackageRun.PhasesConcatenate` | crates/core/src/engine.rs:473-477 | Filtering the order by phase twice and concatenating gives the order itself |
| `PackageRun.ResolveAndRun` | crates/core/src/engine.rs:451-535 | Fails unresolved if and only if some requirement cannot be bound or the contracts form a cycle; otherwise it runs in topological order, to the end or up to the first plugin that does not succeed |
| `Composition.Compose` | crates/core/src/engine.rs:742-763 | Succeeds if and only if no package directory contains another; then the result has exactly the files of the packages at their directory and path, with their texts, their starter marks and their owners behind the name of the package |
| `Composition.RerootExactly` | crates/core/src/engine.rs:563-576 | A re-rooted tree has exactly the files, marks and owners of the package below its directory |
| `Composition.OrderDoesNotMatter` | crates/core/src/engine.rs:759-762 | Permuting the packages gives the same composed tree |
| `Composition.JoinOne` | crates/core/src/engine.rs:563-576 | A package in a separate directory adds exactly its re-rooted files, owners and marks |
| `Composition.CheckDirectories` | crates/core/src/engine.rs:742-757 | The pairwise test finds exactly the overlapping directories |
| `Filters.WildcardMatches` | crates/core/src/filters.rs:165-194 | Terminates by the retry point and what is left; true always means a real match, and for values without a star it means exactly that |
| `Filters.GlobExactly` | crates/core/src/filters.rs:163-165 | The declarative relation: the value falls into pieces, one for each character of the pattern, any text for a star, any character for a question mark, the character itself otherwise |
| `Filters.MatcherIsRightExactly` | crates/core/src/filters.rs:165-194 | The matcher agrees with the declarative relation for every pattern if and only if the value has no star |
| `Filters.FirstStarMisleads` | crates/core/src/filters.rs:172-177 | For every value with a star a concrete pattern, such as `*` for `*a`, that matches and is rejected |
| `Filters.Sound` | crates/core/src/filters.rs:170-193 | From every state of the loop, acceptance means that the rest matches now or retried from the last star |
| `Filters.ScanIsGlob` | crates/core/src/filters.rs:170-193 | From every state of the loop on a value without stars, the loop decides the declarative relation |
| `Filters.ForgetStar` | crates/core/src/filters.rs:177-180 | Passing a new star, earlier ones need never be retried |
| `Filters.RetryStar` | crates/core/src/filters.rs:181-184 | After a mismatch the star has to take one more character |
| `Filters.Resolve` | crates/core/src/filters.rs:118-160 | For operations and for schemas, the loop over the rules leaves every option as the overlay defines it |
| `Filters.LastRuleWins` | crates/core/src/filters.rs:148-160 | An option has the value of the last matching rule that mentions it, and its base value when there is none |
| `Filters.ExclusionWins` | crates/core/src/filters.rs:57-70 | An exclusion removes exactly what it matches, whatever is included |
| `Filters.InclusionWidens` | crates/core/src/filters.rs:57-70 | An empty list of inclusions selects everything; the first inclusion narrows that to what it matches, every further one adds what it matches, always up to the exclusions |
| `Filters.SelectsExactly` | crates/core/src/filters.rs:26-33 | On texts without stars a filter selects exactly the operations whose identifier, path or some tag falls into the pieces of its pattern, or that have its method |
| `Filters.AppliesExactly` | crates/core/src/filters.rs:118-146 | A rule is about operations or about schemas, and then about those its pattern describes |
| `RequestCodec.RequestRoundTrip` | crates/cli/src/mcp.rs:431-460 | Splitting the prepared target and reading the parameters gives back exactly the values of the placeholders and, of every query argument, its value (the last one of an array); the route is accepted if and only if none of the placeholder values is empty |
| `RequestCodec.PrepareTarget` | crates/cli/src/mcp.rs:403-460 | Refused exactly when a required parameter is missing in its place, a placeholder has no value or a required body is missing, each with its own error in this order; the server splits the target into the filled-in route and the query pairs |
| `RequestCodec.FillRoute` | crates/cli/src/mcp.rs:431-437 | Replacing placeholders one after another, in any order, fills all of them simultaneously; refused exactly when one is left |
| `RequestCodec.PathRoundTrip` | crates/cli/src/mock_http.rs:76-87 | The server reads back exactly the path values, and it accepts the route if and only if none of them is empty |
| `RequestCodec.PathMatchesExactly` | crates/cli/src/mock_http.rs:8-20 | For every path: a template accepts it if and only if it has as many parts as the template segments, each the text of a fixed segment or, at a placeholder, not empty |
| `RequestCodec.PathParametersExactly` | crates/cli/src/mock_http.rs:76-87 | Of every path, accepted or not, exactly the placeholders that have a part are read, each as its decoded part, the last one of a name |
| `RequestCodec.TargetRoundTrip` | crates/cli/src/mock_http.rs:32-35 | The target splits at the right question mark, with or without a query |
| `RequestCodec.QueryRoundTrip` | crates/cli/src/mock_http.rs:37-46 | Reading a query gives the pairs it was built from, the last of one name |
| `RequestCodec.QueryExactly` | crates/cli/src/mock_http.rs:37-46 | Of every query: a parameter has a value if and only if some part sets it to that and no later part sets it; a part without equals sign sets the empty value |
| `RequestCodec.TargetExactly` | crates/cli/src/mock_http.rs:32-35 | Every target is split at its first question mark |
| `RequestCodec.ArgumentsReadBack` | crates/cli/src/mcp.rs:573-581 | Every query argument is read back as its last value, only empty arrays are lost, and nothing else is read |
| `RequestCodec.EverythingIsSent` | crates/cli/src/mcp.rs:573-581 | Every item of every query argument is sent, in order, and nothing else |
| `RequestCodec.ReplaceInTemplate` | crates/cli/src/mcp.rs:433-433 | Textual replacement of one placeholder fills exactly the segments of that name |
| `RequestCodec.BracesAreHoles` | crates/cli/src/mcp.rs:435-437 | A brace in the text means an unfilled placeholder |
| `RequestCodec.PercentEncode` | crates/cli/src/mcp.rs:593-604 | Encoding is undone by decoding |
| `RequestCodec.PercentDecode` | crates/cli/src/mock_http.rs:48-74 | The index loop decodes, malformed and cut-off escapes standing for themselves |
| `RequestCodec.DecodeExactly` | crates/cli/src/mock_http.rs:48-74 | From left to right: a plus is a space, a percent sign with two hexadecimal digits, large or small, is the byte of that value, all else stands for itself |
| `RequestCodec.EncodeExactly` | crates/cli/src/mcp.rs:593-604 | Every byte that is not unreserved becomes a percent sign and its two upper-case hexadecimal digits |
| `RequestCodec.UnreservedExactly` | crates/cli/src/mcp.rs:593-604 | The unreserved bytes are the letters, the digits and four marks |
| `RequestCodec.DecodeEncode` | crates/cli/src/mock_http.rs:48-74 | Decoding undoes encoding for all byte sequences |
| `RequestCodec.EncodeIsSafe` | crates/cli/src/mcp.rs:593-604 | Encoded text has only unreserved bytes and percent signs |
| `Texts.SplitJoin` | crates/cli/src/mock_http.rs:38-38 | Splitting undoes joining as long as no part contains the separator |
| `Texts.JoinSplit` | crates/cli/src/mock_http.rs:38-38 | Joining undoes splitting, for every text |
| `SchemaExpansion.Expander.Expand` | crates/cli/src/mcp.rs:698-799 | Terminates on every catalog, mutually recursive ones included, leaves the active names as it found them and computes the expansion |
| `SchemaMeaning.ExpansionKeepsMeaning` | crates/cli/src/mcp.rs:698-799 | The document written for a schema without recursion accepts exactly the values that the schema accepts, whatever the keywords without structure mean: types, fields, required names, further fields, items, alternatives (exactly one, some, all, none), listed values, constants and null |
| `SchemaMeaning.ExpansionAcceptsAll` | crates/cli/src/mcp.rs:750-766 | The document of a recursive schema accepts at least what the schema does, when neither negation nor exactly-one-of occurs |
| `SchemaMeaning.NegatedCutRefuses` | crates/cli/src/mcp.rs:750-766 | With a negation it need not: a concrete recursive schema and a value it accepts that its document refuses |
| `SchemaMeaning.KindMeans` | crates/cli/src/mcp.rs:703-779 | One level: the document of a kind accepts what the kind does when the documents of its parts decide the parts |
| `SchemaMeaning.DocumentMeans` | crates/cli/src/mcp.rs:780-797 | The keywords beside the kind hold in addition and, beside a reference, in place of those of the target; nullable adds exactly the null value |
| `SchemaMeaning.RequiredExactly` | crates/cli/src/mcp.rs:726-733 | A name is listed as required if and only if a required field has it |
| `SchemaMeaning.PropertiesExactly` | crates/cli/src/mcp.rs:716-725 | The properties are the names of the fields, each with the document of the last field of that name |
| `SchemaMeaning.TargetExactly` | crates/cli/src/mcp.rs:750-766 | A reference finds the first schema whose name is what stands behind its last slash |
| `SchemaMeaning.ReferenceAddsKeywords` | crates/cli/src/mcp.rs:780-795 | A reference accepts what its own keywords and its target accept, unless both state the same keyword |
| `SchemaMeaning.StructuralConstraintMisleads` | crates/cli/src/mcp.rs:792-794 | Why constraints must leave the structure alone: one that states a type replaces that of the kind |
| `SchemaExpansion.CutsExactlyRecursion` | crates/cli/src/mcp.rs:750-766 | A reference is cut exactly in schemas without a finite unfolding; every other schema is written out completely |
| `SchemaExpansion.ExpansionIsUnfolding` | crates/cli/src/mcp.rs:698-799 | A schema with a finite unfolding is expanded to exactly that |
| `SchemaExpansion.UncutUnfolds` | crates/cli/src/mcp.rs:750-766 | Without a cut, unfolding as often as there are names is enough |
| `SchemaExpansion.UnfoldingIsUncut` | crates/cli/src/mcp.rs:750-766 | Where a finite unfolding exists no name occurs inside its own expansion |
| `SchemaExpansion.UnfoldedFurther` | crates/cli/src/mcp.rs:698-799 | Unfolding deeper than needed changes nothing |
| `PublicationOrder.FindOrder` | scripts/publish-crates.py:13-41 | Returns if and only if the kept path dependencies are closed over the public packages and acyclic; the result has every public package exactly once, after every package that its published manifest needs; an error names a real cycle or a really missing dependency |
| `PublicationOrder.GraphExactly` | scripts/publish-crates.py:25-30 | An edge is a dependency with a path that is no development dependency or has a version |
| `PublicationOrder.Publisher.Visit` | scripts/publish-crates.py:19-36 | `visiting` is exactly the set of calls in progress and is the same again afterwards; the order grows exactly as the depth-first walk says |
| `PublicationOrder.OrderExistsExactly` | scripts/publish-crates.py:19-41 | The walk finds an order if and only if the graph is closed and acyclic |
| `PublicationOrder.OrderIsRight` | scripts/publish-crates.py:38-40 | The order is complete and topological, and a package precedes one of smaller name only if that one or a still smaller one needs it |
| `PublicationOrder.MetadataOrderIsIrrelevant` | scripts/publish-crates.py:14-16 | Neither the order of members nor that of packages in the metadata changes the result |
| `PublicationOrder.SelectedExactly` | scripts/publish-crates.py:14-16 | The selected packages are exactly the public workspace members |
| `PublicationOrder.VisitProlongs` | scripts/publish-crates.py:19-36 | A visit keeps the order topological and adds only what the name reaches, and nothing in progress |
| `PublicationOrder.VisitFails` | scripts/publish-crates.py:22-33 | The stack of calls is a path of dependencies, so that a name met again is on a cycle |
| `PublicationOrder.OrderedMeansSound` | scripts/publish-crates.py:34-36 | A topological order of everything excludes cycles and missing dependencies |
| `Idempotency.PrepareApi` | crates/core/src/idempotency.rs:63-213 | Succeeds if and only if every configured operation exists once and every operation is acceptable; the prepared API is then as specified, and an error explains a real obstacle |
| `Idempotency.AllPreparedIsFixed` | crates/core/src/idempotency.rs:63-213 | Preparing a prepared API with the same configuration succeeds and changes nothing |
| `Idempotency.PreparedIsFixed` | crates/core/src/idempotency.rs:77-210 | The same for one operation; the prepared operation is unique |
| `Idempotency.OneHeader` | crates/core/src/idempotency.rs:141-210 | An operation with a policy has exactly one parameter with the alphanumeric key of the header: an optional header of that name, up to case, whose schema is a string without any restriction, the one that generators read from the annotation; all other parameters are kept and at most one is new |
| `Idempotency.RuleExactly` | crates/core/src/idempotency.rs:79-100 | A rule is in force if and only if it is the own entry of the operation, without one the default, without both what the extension means; only an extension that is read can be at fault |
| `Idempotency.DecodeExactly` | crates/core/src/idempotency.rs:83-92 | What an extension means: a switch alone, an object with some of three fields, or a list of the first of them, with defaults for the rest |
| `Idempotency.IdentifierOfParts` | crates/core/src/idempotency.rs:128-134 | The key of a name is made letter by letter |
| `Idempotency.IdentifierOfLetter` | crates/core/src/idempotency.rs:128-134 | Digits and small letters stay, capitals become small, and all else goes |
| `Idempotency.ExtendedHasOne` | crates/core/src/idempotency.rs:141-203 | At most one parameter is added, behind the others, and none the second time |
| `Idempotency.SameHeaderSameIdentifier` | crates/core/src/idempotency.rs:125-130 | Headers equal up to case have the same alphanumeric key |
| `Idempotency.PrepareOperation` | crates/core/src/idempotency.rs:77-210 | The checks in order, each with its own refusal, and the prepared operation |
| `Idempotency.WithHeader` | crates/core/src/idempotency.rs:125-203 | Collision, duplicate and schema checks; the existing parameter is used or one is appended |

## Left out

- BundleTheorem.BundlingPreservesMeaning: holds for regular documents only (`Preservation.RegularSources`). As they are read, references that are replaced have nothing but scalars beside them and keywords that do not change the mode (exactly the harmless ones, `BundleTheorem.HypothesesAreExact`), catalogues of schemas are written out and have no entry whose name is misread (exact in the same sense), and references kept in the root name declarations below the places where components are added; `components` and `schemas` of the root are written out (`BundleTheorem.PlainRoot`). Contents of extensions, examples and defaults are not restricted.
- BundleTheorem.LiftedSchemasKeepMeaning: the same restriction.
- BundleTheorem.BundleIsLinked: the same restriction.
- Preservation.SameUnfolding: the same restriction.
- Bundling.Bundle: with the size limits on, it is not stated for which documents they are not reached.
- Bundling.Bundler.NormalizeEntries: discriminator mappings are normalized like other content; the rewriting of their values (`openapi/local_bundle.go`, lines 223-256) is not modelled, because its bare names need a specification of their own.
- SourceClosure.CollectSourceClosure: without `$self` identities, which make the result depend on the order of visits, and without the limits on bytes and documents, which are further reasons to fail; the flag that asks for normalization is not computed.
- SourceClosure.Collector.Visit: the same.
- URI parsing, YAML aliases, tags and comments; the readable part and the digest in component names are an arbitrary function without `~`.
- Order among errors: where several things are wrong the model says which reasons are possible, not always which one is found first; reported changes are sets rather than sorted lists.
- Real file-system effects: symbolic links, directories, partial writes, `safe_path`; users editing the ownership record other than by deleting it; concurrent generations.
- JSON numbers are uninterpreted, and the order of object fields plays no part.
- RequestCodec.PrepareTarget: values and formats of headers, cookies and bodies, the base URL and the formatting of values other than texts are not modelled; placeholder names contain no brace and no slash, and templates are made of fixed and whole-placeholder segments. Texts are byte sequences, so lossy decoding of ill-formed UTF-8 does not occur.
- SchemaMeaning.ExpansionKeepsMeaning: constraints must leave the structure alone, as `crates/core/src/ast.rs` (lines 79-84) says of them; patterns of property names and what keywords say about each other are not modelled, and references that name nothing accept everything.
- SchemaMeaning.ExpansionAcceptsAll: the same restriction, and no schema with a negation or exactly one of several alternatives.
- Tool names of the MCP server, input schemas around the expanded ones, and field order in the expanded JSON.
- PackageRun.Run: finalizers, middleware, customizations and the payloads' types; a plugin is a function from its inputs to what it publishes, or fails.
- PluginResolution.Resolve: the checks of the directory and of middleware paths before resolution.
- Filters.Resolve: options are a map of texts; reading rules from configuration is not modelled.
- Idempotency.PrepareApi: of schemas only what decides whether they are plain strings; JSON decoding of rules covers booleans, objects and arrays.
- ExtensionReferences.HideReferences: documents without shared key nodes, as the parser builds them when there are no aliases.
- Subprocesses, network, command line, renderers, importers and recipes: plumbing without internal properties of this kind.
