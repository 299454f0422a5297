# typed-content-hash, modelled in Dafny

typed-content-hash renames the files of a built web directory so that each
name carries a hash of the file's contents (`main.js` becomes
`main.<hash>.js`), and rewrites every reference between the files (imports,
`srcset` URLs, source maps, TypeScript declarations and their proxies) to
point at the renamed files. It also writes an asset manifest mapping old
names to new ones.

This project models the content-hash engine at the center of that tool, and
the bookkeeping around it:

- the batch hash computation: a worklist over dependency records, with a
  visited set, that feeds a digest;
- hash lookup through `hashFor` links, trimming, and the insertion of a hash
  into a path and into a document with its companions;
- document-to-hash maps, the multi-part `getFileExtension`, the path helpers
  and the `extname` of a POSIX path;
- the rules that choose the replacement text of a reference (base URL, then
  absolute, then relative, then `.d.ts` stripping), in the content-hashes
  variant, in its plugin variant and in the v2 variant;
- the registry updates after a document's contents are rewritten, including
  the source-map entry;
- the edit buffer (`MagicString.overwrite`) as a list of edits on the
  original string;
- document ordering, dependency maps, `removeEdge`, and the diff between two
  readings of a directory;
- both asset-manifest builders, `generatePathMap` and `normalizeRegistry`;
- the `hashDirectory` fold, the plugin manager with its cache, plugin
  grouping, and both plugin-selection `readFilePath`s;
- the string helpers of the JavaScript plugins (both versions), `parseSrcSets`
  and the tsconfig `paths` prefix test.

State that the source changes in place is modelled imperatively:

- the plugin manager's cache is a class field;
- the edit buffer is a class;
- the hash worklist, the digest feed, the dependency-map construction, the
  manifest loops and the diff loops are methods with loop invariants.

Everything else is datatypes, functions and lemmas.

JavaScript's `Map` keeps insertion order, and so do plain records whose keys
are strings that are not integer-like (an integer-like key such as '1' would
be listed first, in numeric order); every key here is a file path or a URL
path, never integer-like. A repeated key overwrites in place. They are modelled as sequences of entries
(`OrderedMaps`): `Put` replaces an existing key where it stands and appends a
new one. A suffix written `new RegExp(ext + '$')` is modelled as a pattern
anchored at the end in which `.` matches any character.

Foreign code enters as function-valued parameters: POSIX path functions,
`applyOrigin`, SHA-512 with base64url, the `crypto` digest, source-map
generation and remapping, module resolution, and the detection of
`sourceMappingURL`. `getContentHash` follows `hashFor` links and terminates
only on acyclic chains. Its callers therefore require an acyclic registry,
witnessed by a rank that decreases along every link.

Two behaviours of the code are kept as written:

- the unused `hashes` argument of `diffDocuments` (see "## Left out");
- the inverted extension gate of the v2 JavaScript plugin (see "## Findings").

## Model

| member | source | states |
|---|---|---|
| Text.Take | src/content-hashes/infrastructure/hashes/getContentHash.ts:13 | JavaScript's slice(0, n): the first min(n, \|s\|) characters, a prefix of s |
| Text.ReplacePatternAtEnd | src/content-hashes/infrastructure/hashes/replaceHash.ts:2 | replacing an end-anchored pattern (where '.' matches any character) replaces the last \|pattern\| characters when they match, and changes nothing otherwise |
| Text.EndsWithMatchesPattern | src/content-hashes/infrastructure/hashes/replaceHash.ts:2 | a literal suffix is matched by the end-anchored pattern spelled the same way |
| Text.Split | src/content-hashes/infrastructure/plugins/parseSrcSets.ts:12-13 | splitting at a character gives at least one part, none containing the separator |
| Text.Trim | src/content-hashes/infrastructure/plugins/parseSrcSets.ts:14 | trimming never lengthens the string and leaves no whitespace, in ECMAScript's sense of white space and line terminators, at either end |
| Text.TrimIsCore | src/content-hashes/infrastructure/plugins/parseSrcSets.ts:14 | the trimmed string is the slice of the input that starts after its leading whitespace; everything before and after that slice is whitespace |
| Text.TrimIdempotent | src/content-hashes/infrastructure/plugins/parseSrcSets.ts:20 | trimming an already trimmed string, as the URL token is trimmed again, changes nothing |
| Text.FirstToken | src/content-hashes/infrastructure/plugins/parseSrcSets.ts:16 | the first part of a split at the `\s` class is the longest prefix free of whitespace: a whitespace-free prefix followed by whitespace or the end |
| Text.IndexOf | src/content-hashes/infrastructure/plugins/parseSrcSets.ts:17 | indexOf is the first position where the text occurs, or -1 exactly when it occurs nowhere |
| Text.Extname | src/content-hashes/infrastructure/plugins/getFileExtension.ts:16 | Node's extname is empty or starts with its only '.', has no '/', and ends the path when the path does not end in '/' |
| Text.SegmentExtension | src/content-hashes/infrastructure/plugins/getFileExtension.ts:16 | the extension of one segment is empty or runs from its last '.' to its end, and is a suffix of the segment |
| Text.FirstSuffix | src/content-hashes/infrastructure/plugins/createPlugin.ts:42 | the first listed extension ending the path, with None exactly when none does |
| Paths.SourceMapPathFor | src/content-hashes/domain/services/paths.ts:5 | the source-map path is the path followed by '.map': it starts with the path, ends with '.map' and is 4 characters longer |
| Paths.ProxyMapFor | src/content-hashes/domain/services/paths.ts:7 | the proxy path is the path followed by '.proxy.js': it starts with the path, ends with '.proxy.js' and is 9 characters longer |
| Paths.DtsPathFor | src/content-hashes/domain/services/paths.ts:3-6 | only a trailing '.js' is replaced by '.d.ts'; any other path is unchanged |
| Paths.SourceMapPathInjective | src/content-hashes/domain/services/paths.ts:5 | two paths with the same source-map path are equal |
| Paths.ProxyMapInjective | src/content-hashes/domain/services/paths.ts:7 | two paths with the same proxy path are equal |
| Paths.DtsPathForIdempotent | src/content-hashes/domain/services/paths.ts:6 | renaming a declaration path again changes nothing |
| Paths.EnsureAbsolute | src/content-hashes/infrastructure/rewriteDependencies.ts:114-120 | the result always starts with '/'; a path that already does is unchanged, any other gets '/' in front |
| Paths.EnsureAbsoluteIdempotent | src/content-hashes/infrastructure/plugins/generatePathMap.ts:39-45 | applying ensureAbsolute twice equals applying it once |
| Paths.EnsureRelative | src/content-hashes/infrastructure/plugins/rewriteFileContent.ts:12 | the result starts with '.' or '/'; such a path is unchanged, any other gets './' in front |
| Paths.EnsureRelativeIdempotent | src/content-hashes/infrastructure/plugins/rewriteFileContent.ts:12 | applying ensureRelative twice equals applying it once |
| Paths.EnsureDotRelative | src/content-hashes/infrastructure/plugins/generatePathMap.ts:47-53 | the result starts with '.'; such a path is unchanged, any other gets './' in front |
| Paths.StripRelative | src/content-hashes/infrastructure/plugins/generatePathMap.ts:55-65 | exactly one leading './' or '../' is removed, else the path is unchanged; the result is a suffix of the path |
| PathMap.Remounts | src/content-hashes/infrastructure/plugins/generatePathMap.ts:25-35 | the absolute form (leading '/') and the dot-relative form are always emitted; the stripped form is added exactly when the relative path does not start with '../'; every entry maps to the same URL |
| PathMap.ApplyRemountsTargets | src/content-hashes/infrastructure/plugins/generatePathMap.ts:16-37 | every remount of one hash entry maps to that entry's URL, its path with the hash inserted before its extname and resolved against the origin |
| PathMap.PathMapEntriesTargets | src/content-hashes/infrastructure/plugins/generatePathMap.ts:13-19 | every flattened entry maps to the URL of one of the hashed files |
| PathMap.GeneratePathMap | src/content-hashes/infrastructure/plugins/generatePathMap.ts:7-19 | fails exactly when `baseUrl` is undefined and there is a hash entry, because `url.resolve` throws on an undefined origin; with a base URL the result is the map of all remounts, and no hash entries give the empty map |
| PathMap.PathMapValues | src/content-hashes/infrastructure/plugins/generatePathMap.ts:7-14 | every value of the path map is the URL of one of the hashed files |
| PathMap.PathMapEntriesSnoc | src/content-hashes/infrastructure/plugins/generatePathMap.ts:13 | the remounts of one more hash entry come after those of the earlier entries |
| PathMap.LastHashWins | src/content-hashes/infrastructure/plugins/generatePathMap.ts:13 | on a key collision the later hash entry wins: every remount of the last hashed file maps to its URL |
| Hashes.TrimHash | src/content-hashes/infrastructure/plugins/trimHash.ts:3-4 | an undefined length keeps the hash; otherwise the result is the first min(length, \|hash\|) characters, always a prefix of the hash |
| Hashes.TrimHashIdempotent | src/content-hashes/infrastructure/plugins/trimHash.ts:4 | trimming an already trimmed hash changes nothing |
| Hashes.TrimHashTwice | src/content-hashes/infrastructure/plugins/trimHash.ts:4 | trimming by n and then by m equals trimming by min(n, m) |
| Hashes.GetContentHash | src/content-hashes/infrastructure/hashes/getContentHash.ts:7-22 | no content hash gives None; an own 'hash' gives its first hashLength characters; a 'hashFor' whose target is not in the registry gives None; every result is at most hashLength long; terminates on acyclic 'hashFor' chains |
| Hashes.GetContentHashFromChain | src/content-hashes/infrastructure/hashes/getContentHash.ts:7-22 | any Some result is the trimmed own hash of a document reached by following 'hashFor' links |
| Hashes.ChainGivesContentHash | src/content-hashes/infrastructure/hashes/getContentHash.ts:14-19 | conversely, a chain of links ending at a document with its own hash makes the lookup return that hash trimmed |
| Hashes.ReplaceHash | src/content-hashes/infrastructure/hashes/replaceHash.ts:1-3 | with the extension at the end, the result is stem + '.' + hash + extension; otherwise the path is unchanged |
| Hashes.ReplaceHashShape | src/content-hashes/infrastructure/hashes/replaceHash.ts:2 | for a literal-suffix extension the stem stays a prefix, the extension stays the suffix, '.' + hash sits in between and the path grows by \|hash\| + 1 |
| Hashes.GetHashedPath | src/content-hashes/infrastructure/hashes/getHashedPath.ts:9-16 | without a resolvable hash the path is unchanged; otherwise it is the path with the resolved (already trimmed) hash inserted before the extension |
| Hashes.HashForSharesHash | src/content-hashes/infrastructure/hashes/getHashedPath.ts:9-16 | a 'hashFor' document resolves to its target's hash and embeds that same hash segment in its own path |
| Hashes.HashedPathLength | src/content-hashes/infrastructure/hashes/getHashedPath.ts:14 | with a literal-suffix extension and a resolved hash h, the hashed path is \|filePath\| + \|h\| + 1 long |
| Hashes.GetHashForPath | src/content-hashes/infrastructure/hashes/getHashFor.ts:15-17 | the end-anchored extension is replaced by the replacement extension; without it the path is unchanged |
| Hashes.GetHashFor | src/content-hashes/infrastructure/hashes/getHashFor.ts:5-13 | the content hash becomes a 'hashFor' link to that sibling path and every other field is unchanged |
| Hashes.GetHashForPathExample | src/content-hashes/infrastructure/hashes/getHashFor.ts:15-17 | 'bar.d.ts' with extension '.d.ts' and replacement '.js' points at 'bar.js' |
| Domain.ReplaceDocumentHash | src/content-hashes/domain/services/replaceHash.ts:9-31 | the path gets '.' + hash before its end-anchored extension; extension, contents, dependencies and supportsHashes are kept; a source map stays present or absent with its raw map kept; a proxy and a declaration file stay present or absent |
| Domain.ReplaceDocumentHashParts | src/content-hashes/domain/services/replaceHash.ts:16-29 | the renaming reaches every part (the document, its proxy's parts, its declaration file's parts): each part is renamed with the same hash and keeps its extension, contents and dependencies |
| Domain.ReplaceDocumentHashPath | src/content-hashes/domain/services/replaceHash.ts:10-11 | with a literal-suffix extension the renamed path still ends with it and is \|hash\| + 1 longer |
| FileExtension.ExtensionIsSuffix | src/content-hashes/infrastructure/plugins/getFileExtension.ts:3-17 | for a file name without '/', the compound extension is a suffix of the name (the recursion terminates because each peel removes 9 or 4 characters) |
| FileExtension.PeelStep | src/content-hashes/infrastructure/plugins/getFileExtension.ts:4-10 | a '.proxy.js' or '.map' ending is peeled off: the extension is the stem's extension followed by that ending |
| FileExtension.MapExtensionIffMapName | src/content-hashes/infrastructure/plugins/getFileExtension.ts:3-17 | for every name not ending in '/' (the form a file path takes), the extension ends in '.map' exactly when the name does |
| FileExtension.ProxyExtensionIffProxyName | src/content-hashes/infrastructure/plugins/getFileExtension.ts:3-17 | for every name, the extension ends in '.proxy.js' exactly when the name does |
| FileExtension.MapSuffix | src/content-hashes/infrastructure/plugins/getFileExtension.ts:8-10 | appending '.map' to any path appends '.map' to its extension |
| FileExtension.ProxySuffix | src/content-hashes/infrastructure/plugins/getFileExtension.ts:4-6 | appending '.proxy.js' to any path appends '.proxy.js' to its extension |
| FileExtension.DtsSuffix | src/content-hashes/infrastructure/plugins/getFileExtension.ts:12-14 | any path ending in '.d.ts' (and not in '.map' or '.proxy.js') has extension '.d.ts' |
| FileExtension.PlainExtension | src/content-hashes/infrastructure/plugins/getFileExtension.ts:16 | a name without '/', with one '.' not at its start and none of the compound endings has extension from that '.' to the end |
| FileExtension.ExtnameExample | src/content-hashes/infrastructure/plugins/getFileExtension.ts:16 | Node's extname of such a name is the text from its only '.' |
| FileExtension.PlainStem | src/content-hashes/infrastructure/plugins/getFileExtension.ts:16 | a plain stem followed by a one-dot extension that is none of the compound endings has that extension |
| FileExtension.GetFileExtensionExamples | src/content-hashes/infrastructure/plugins/getFileExtension.test.ts:7-12 | 'foobar.js' gives '.js', 'foobar.js.map' gives '.js.map', 'foobar.js.map.proxy.js' gives '.js.map.proxy.js', 'foobar.d.ts' gives '.d.ts', 'foobar.d.ts.map' gives '.d.ts.map' and 'foobar.css.proxy.js' gives '.css.proxy.js' |
| DiGraph.RemoveEdge | src/content-hashes/infrastructure/DiGraph/removeEdge.ts:5-12 | the rest of the graph (vertices and equality) is unchanged and the edge count never grows |
| DiGraph.RemoveEdgeExact | src/content-hashes/infrastructure/DiGraph/removeEdge.ts:10 | an edge remains exactly when it was there and is not equal, end by end, to the removed edge |
| DiGraph.RemoveEdgeIdempotent | src/content-hashes/infrastructure/DiGraph/removeEdge.ts:10 | removing the same edge twice equals removing it once |
| DiGraph.RemoveEdgeCommutes | src/content-hashes/infrastructure/DiGraph/removeEdge.ts:10 | removing two edges in either order gives the same graph |
| DiGraph.RemovedEdgeAbsent | src/content-hashes/infrastructure/DiGraph/removeEdge.ts:6-10 | with a reflexive equality the removed edge is absent afterwards |
| Diff.DiffDocuments | src/content-hashes/infrastructure/provideHashDirectoryEnv/diffDocuments.ts:5-42 | created are the new documents whose path no current document has, deleted the current documents whose path no new document has, unchanged the current documents whose path's new document has the same contents; each list in input order with each document once |
| Diff.ByPathLookup | src/content-hashes/infrastructure/provideHashDirectoryEnv/diffDocuments.ts:10-11 | the path map lacks a path exactly when no document has it, and otherwise holds the last document with it |
| Diff.DiffMembers | src/content-hashes/infrastructure/provideHashDirectoryEnv/diffDocuments.ts:17-35 | membership of each list, in both directions, in terms of the two readings; no list holds a document twice |
| Diff.DiffOfSameReading | src/content-hashes/infrastructure/provideHashDirectoryEnv/diffDocuments.ts:17-35 | diffing a reading against itself deletes nothing, and no document is both deleted and unchanged |
| Diff.ChangedIsUnreported | src/content-hashes/infrastructure/provideHashDirectoryEnv/diffDocuments.ts:18-29 | a current document whose path now holds other contents is neither deleted nor unchanged |
| Toposort.Priority | src/content-hashes/infrastructure/toposortDocs.ts:16 | the sort key is 0 exactly for an own 'hash', 1 exactly for no hash and 2 exactly for a 'hashFor' |
| Toposort.SortDocumentsSorted | src/content-hashes/infrastructure/toposortDocs.ts:13-18 | the sorted documents are in non-decreasing priority order |
| Toposort.PartitionByPriority | src/content-hashes/infrastructure/toposortDocs.ts:13-18 | every document falls in exactly one of the three priority groups |
| Toposort.SortDocumentsPermutation | src/content-hashes/infrastructure/toposortDocs.ts:13-18 | the sorted list is a permutation of the documents |
| Toposort.SortDocumentsStable | src/content-hashes/infrastructure/toposortDocs.ts:13-18 | the documents of each priority keep their relative order (the sort is stable) |
| Toposort.DependencyPathsExact | src/content-hashes/infrastructure/toposortDocs.ts:40 | a document's dependency paths are exactly the paths of its dependencies, each once |
| Toposort.CreateDepMap | src/content-hashes/infrastructure/toposortDocs.ts:36-44 | the map is the documents' (path, dependency paths) entries set one after the other |
| Toposort.DepMapShape | src/content-hashes/infrastructure/toposortDocs.ts:36-44 | one key per distinct document path, in order of first appearance; a path's value is the dependency paths of the last document with that path |
| Toposort.ComponentDocuments | src/content-hashes/infrastructure/toposortDocs.ts:32 | a component maps to at most as many documents as it has paths |
| Toposort.ComponentDocumentsExact | src/content-hashes/infrastructure/toposortDocs.ts:32 | a component keeps exactly the documents of its paths that have one, each the last document with that path; paths without a document are dropped |
| Toposort.LastValueIsDocument | src/content-hashes/infrastructure/toposortDocs.ts:24 | a document found by path is one of the documents and has that path |
| Toposort.SortDiGraph | src/content-hashes/infrastructure/toposortDocs.ts:20-34 | one document list per strongly connected component of the dependency map of the sorted documents |
| Toposort.SortDiGraphDocuments | src/content-hashes/infrastructure/toposortDocs.ts:24-32 | every document of a component is an input document named by one of that component's paths |
| AssetManifest.RenamedPath | src/content-hashes/infrastructure/provideHashDirectoryEnv/generateAssetManifest.ts:20 | a document is renamed with '.' + hash before its extension when the hash is truthy, and keeps its path otherwise |
| AssetManifest.AddDocument | src/content-hashes/infrastructure/provideHashDirectoryEnv/generateAssetManifest.ts:18-31 | the manifest after the document's assignments: its path, then its source map's and its proxy's keys when it has them |
| AssetManifest.AddDocumentAndDeclaration | src/content-hashes/infrastructure/provideHashDirectoryEnv/generateAssetManifest.ts:33-40 | one turn of the loop: the document's assignments, then its declaration file's under the document's own hash |
| AssetManifest.GenerateAssetManifest | src/content-hashes/infrastructure/provideHashDirectoryEnv/generateAssetManifest.ts:10-44 | the manifest is the record built from all the loop's assignments, in order |
| AssetManifest.AddedEntriesLastValue | src/content-hashes/infrastructure/provideHashDirectoryEnv/generateAssetManifest.ts:18-31 | addDocument maps the document's relative path to its renamed relative path, the '.map' key to the renamed path with '.map', the '.map.proxy.js' key likewise, and writes no other key |
| AssetManifest.AddDocumentGet | src/content-hashes/infrastructure/provideHashDirectoryEnv/generateAssetManifest.ts:18-31 | after addDocument exactly the document's keys have those values and every other key reads as before |
| AssetManifest.AssignmentsSnoc | src/content-hashes/infrastructure/provideHashDirectoryEnv/generateAssetManifest.ts:33-41 | the assignments for one more document come after those of the documents before it |
| AssetManifest.DocumentAssignmentsKeys | src/content-hashes/infrastructure/provideHashDirectoryEnv/generateAssetManifest.ts:33-41 | one turn writes exactly the keys of the document and of its declaration file |
| AssetManifest.ManifestKeys | src/content-hashes/infrastructure/provideHashDirectoryEnv/generateAssetManifest.ts:18-41 | the manifest has a key exactly when some document names it: its path, its source map's or proxy's key, or those of its declaration file |
| AssetManifest.LastDocumentWins | src/content-hashes/infrastructure/provideHashDirectoryEnv/generateAssetManifest.ts:22 | later assignments win: a key the last document writes holds what that document wrote |
| AssetManifest.PrimaryEntry | src/content-hashes/infrastructure/provideHashDirectoryEnv/generateAssetManifest.ts:18-22 | the last document's relative path maps to the relative path of its file renamed with its hash, or to itself without one |
| AssetManifest.DtsUsesPrimaryHash | src/content-hashes/infrastructure/provideHashDirectoryEnv/generateAssetManifest.ts:34-40 | the declaration file is renamed with the hash of the document carrying it, not with a hash of its own |
| AssetManifest.UnhashedAssignments | src/content-hashes/infrastructure/provideHashDirectoryEnv/generateAssetManifest.ts:20 | without a hash for any document every assignment maps a key to itself |
| AssetManifest.UnhashedManifestIsIdentity | src/content-hashes/infrastructure/provideHashDirectoryEnv/generateAssetManifest.ts:18-22 | without a hash for any document the manifest maps every key it has to itself |
| RegistryManifest.RegistryAssignments | src/content-hashes/infrastructure/generateAssetManifest.ts:21-28 | one assignment per registry document in iteration order, from its relative path to its target |
| RegistryManifest.GenerateAssetManifestFromRegistry | src/content-hashes/infrastructure/generateAssetManifest.ts:10-31 | the manifest built by the loop is the record of those assignments, later ones winning a shared key |
| RegistryManifest.RegistryManifestKeys | src/content-hashes/infrastructure/generateAssetManifest.ts:21-28 | the manifest has a key exactly when some registry document's path is made relative to it, and no key twice |
| RegistryManifest.RegistryManifestValue | src/content-hashes/infrastructure/generateAssetManifest.ts:21-28 | each value is the target of the last document in iteration order whose relative path is the key |
| RegistryManifest.ManifestTargetCases | src/content-hashes/infrastructure/generateAssetManifest.ts:23-27 | under a base URL the target is the origin applied to the hashed path; otherwise an unhashed document maps to its own relative path and a 'hashFor' document to its path renamed with its target's hash |
| RegistryManifest.NormalizeDocFields | src/content-hashes/infrastructure/normalizeRegistry.ts:14-28 | normalizeDoc makes the path, each dependency's path, the source map's path and a 'hashFor' target relative, and keeps an own hash and every other field |
| RegistryManifest.NormalizedEntries | src/content-hashes/infrastructure/normalizeRegistry.ts:8-12 | one entry per registry key in iteration order: the key made relative, with its normalised document |
| RegistryManifest.NormalizeRegistryLookup | src/content-hashes/infrastructure/normalizeRegistry.ts:8-12 | the normalised record has a key exactly when some registry key is made relative to it, and holds the normalised document of the last such key |
| RegistryManifest.NormalizeKeepsLinks | src/content-hashes/infrastructure/normalizeRegistry.ts:8-28 | a 'hashFor' link survives normalisation: it points at its target's relative path, and the normalised record has an entry there |
| Batch.GetHash | src/content-hashes/infrastructure/rewriteDependencies.ts:139-143 | a document's representative hash is its resolved content hash when it has one, else the SHA-512 hash of its contents |
| Batch.AddAllMembers | src/content-hashes/infrastructure/rewriteDependencies.ts:149-156 | adding to the dependency set leaves exactly what it held and what was added, and adds nothing already there |
| Batch.AddAllDistinct | src/content-hashes/infrastructure/rewriteDependencies.ts:149-156 | the dependency set never holds a dependency twice |
| Batch.ExploreDistinct | src/content-hashes/infrastructure/rewriteDependencies.ts:150-158 | the worklist loop adds each record at most once |
| Batch.ComputeContentHash | src/content-hashes/infrastructure/rewriteDependencies.ts:138-161 | the batch hash is the digest of the document's own representative hash followed by those of the documents its worklist reaches |
| Batch.WorklistDistinct | src/content-hashes/infrastructure/rewriteDependencies.ts:149-158 | the final worklist has no repeated record, so no dependency is expanded twice |
| Batch.DigestInputIsWorklistHashes | src/content-hashes/infrastructure/rewriteDependencies.ts:147-158 | the digest input is the document's own hash, then one hash per worklist record whose target is in the registry, in worklist order |
| Batch.WorklistClosed | src/content-hashes/infrastructure/rewriteDependencies.ts:149-158 | the worklist starts with the document's own dependencies, and every record whose target is in the registry has all of the target's dependencies in it |
| Batch.WorklistOnlyReached | src/content-hashes/infrastructure/rewriteDependencies.ts:149-158 | the worklist holds nothing else: each record is one of the document's own dependencies at its own position, or a dependency of the registered target of an earlier record |
| Batch.ExploreCloses | src/content-hashes/infrastructure/rewriteDependencies.ts:150-158 | a queue closed below a position is closed throughout once the loop has run from there |
| Batch.HashesForKeys | src/content-hashes/infrastructure/rewriteDependencies.ts:129-133 | exactly the batch documents with their own 'hash' get an entry |
| Batch.HashesForLast | src/content-hashes/infrastructure/rewriteDependencies.ts:129-133 | a path's entry is the batch hash of the last own-hash document at that path |
| Batch.ComputeContentHashes | src/content-hashes/infrastructure/rewriteDependencies.ts:122-136 | a batch of fewer than two documents gets no hashes; otherwise every own-hash document gets its batch hash, the last one winning a repeated path |
| Batch.HashedTarget | src/content-hashes/infrastructure/rewriteDependencies.ts:99-101 | a reference is rewritten to its target renamed with the batch hash cut to the hash length when the target has one, else to the target's hashed path |
| Batch.StripDts | src/content-hashes/infrastructure/rewriteDependencies.ts:20 | the unescaped pattern `.d.ts$` has both dots as wildcards, so a path whose last five characters are any character, 'd', any character, 'ts' (as in 'xdxts') loses them; any other path is unchanged |
| Batch.StripDtsWildcards | src/content-hashes/infrastructure/rewriteDependencies.ts:20 | 'a.d.ts' and 'axdxts' both become 'a', while 'a.dts' is unchanged |
| Batch.DetermineReplacementPath | src/content-hashes/infrastructure/rewriteDependencies.ts:89-112 | the replacement is the chosen path (origin-applied, absolute or relative) with a '.d.ts' ending removed |
| Batch.ReplacementPathForm | src/content-hashes/infrastructure/rewriteDependencies.ts:102-108 | without a base URL a reference written with a leading '/' becomes a '/'-rooted path and any other a './', '../' or '/' path, unless it is emptied |
| Batch.ReplacementPathPrefix | src/content-hashes/infrastructure/rewriteDependencies.ts:109 | the replacement is the chosen path or that path without its last five characters |
| Batch.DependencyEditsExact | src/content-hashes/infrastructure/rewriteDependencies.ts:68-78 | exactly the dependencies whose path is in the registry are overwritten, each over its own range with its replacement path |
| Batch.RewriteDocumentDependencies | src/content-hashes/infrastructure/rewriteDependencies.ts:63-79 | the callback appends the overwrites of the document's registered dependencies, in order, to the edits |
| Batch.WithComputedHash | src/content-hashes/infrastructure/rewriteDependencies.ts:42-45 | a document with a batch hash has its content hash replaced by it; any other document is unchanged |
| Batch.BatchHashInstalled | src/content-hashes/infrastructure/rewriteDependencies.ts:42-45 | a batch document with a batch hash carries it as its own hash into the rewrite, whatever hash it had |
| Batch.RewriteDocument | src/content-hashes/infrastructure/rewriteDependencies.ts:37-58 | one turn of the loop rewrites the document into the current registry |
| Batch.RewriteDependencies | src/content-hashes/infrastructure/rewriteDependencies.ts:29-61 | the result is the registry after every batch document in turn is rewritten with the batch hashes of the starting registry |
| Batch.RewriteOneFrame | src/content-hashes/infrastructure/rewriteDependencies.ts:47-57 | one document's rewrite keeps every path, adds at most its path and source-map path, and changes no other entry |
| Batch.RewriteAllFrame | src/content-hashes/infrastructure/rewriteDependencies.ts:36-58 | rewriting a batch keeps every registry path, adds only its documents' paths and source-map paths, and leaves every other entry as it was |
| Batch.BatchHashStored | src/content-hashes/infrastructure/rewriteDependencies.ts:47-54 | a rewritten document with a batch hash is stored with that hash, since the hash update is skipped |
| RegistryRewrite.RewriteContentHash | src/content-hashes/infrastructure/rewriteDocumentContents.ts:17-29 | an own 'hash' is recomputed from the contents; a 'hashFor' hash and a missing hash are kept |
| RegistryRewrite.RewriteContentHashIdempotent | src/content-hashes/infrastructure/rewriteDocumentContents.ts:17-29 | recomputing the hash twice gives what recomputing once gives |
| RegistryRewrite.RemapSourceMaps | src/content-hashes/infrastructure/rewriteDocumentContents.ts:31-35 | the composed map keeps the registered map's content hash, holds the composition of the two maps, and otherwise is the new map |
| RegistryRewrite.UpdatedDocument | src/content-hashes/infrastructure/rewriteDocumentContents.ts:62-69 | the edited document holds the rendered edits, has its own hash recomputed from them unless the update is skipped, and keeps every other field |
| RegistryRewrite.GeneratedSourceMap | src/content-hashes/infrastructure/rewriteDocumentContents.ts:80-88 | the new source map sits at the document's source-map path, has the extension plus '.map', points back at the document with 'hashFor', and has no dependencies, no map and no base64 encoding |
| RegistryRewrite.RewriteDocumentContents | src/content-hashes/infrastructure/rewriteDocumentContents.ts:37-96 | source maps and base64 documents leave the registry unchanged; otherwise the registry gains exactly the document's path and, when a map is written, its source-map path, the document's entry holds the edited document, the map entry the generated map (composed with a registered one), and every other entry is kept |
| RegistryRewrite.SourceMapEntryHash | src/content-hashes/infrastructure/rewriteDocumentContents.ts:84-93 | the source-map entry points at its document by 'hashFor', or keeps the registered map's hash when it is composed with one |
| RegistryRewrite.RewrittenEntryContents | src/content-hashes/infrastructure/rewriteDocumentContents.ts:62-73 | without a map written, the document's entry holds the rendered edits and keeps its path, dependencies and source map |
| RegistryRewrite.IdentityEditsKeepDocument | src/content-hashes/infrastructure/rewriteDocumentContents.ts:55-73 | edits that write back what they replace, with the hash update skipped, store the document unchanged |
| Edits.MagicString.constructor | src/content-hashes/infrastructure/rewriteDocumentContents.ts:55-58 | a new edit buffer holds the original contents and no edits |
| Edits.MagicString.Overwrite | src/content-hashes/infrastructure/rewriteDependencies.ts:72-76 | an overwrite is recorded after the earlier ones and nothing else changes |
| Edits.RenderNoEdits | src/content-hashes/infrastructure/rewriteDocumentContents.ts:60-62 | a buffer without edits renders the original contents |
| Edits.RenderLength | src/content-hashes/infrastructure/rewriteDocumentContents.ts:60-62 | the rendered length is the original length plus each edit's growth |
| Edits.RenderIdentity | src/content-hashes/infrastructure/rewriteDocumentContents.ts:60-62 | edits that write back the text they replace render the original unchanged |
| Edits.RenderKeepsPrefix | src/content-hashes/infrastructure/rewriteDocumentContents.ts:60-62 | the text before the first edit is kept |
| PluginManager.FirstMatch | src/content-hashes/infrastructure/provideHashDirectoryEnv/PluginManager.ts:16-27 | a plugin found is one of the manager's plugins |
| PluginManager.FirstMatchIsFirst | src/content-hashes/infrastructure/provideHashDirectoryEnv/PluginManager.ts:16-27 | nothing is found exactly when no plugin has an extension ending the path; otherwise the plugin found has one and no plugin before it does |
| PluginManager.HashPluginManager.constructor | src/content-hashes/infrastructure/provideHashDirectoryEnv/PluginManager.ts:7-9 | a new manager keeps the plugins in order and starts with an empty cache |
| PluginManager.HashPluginManager.GetPlugin | src/content-hashes/infrastructure/provideHashDirectoryEnv/PluginManager.ts:11-28 | the answer, cached or not, is the first plugin in order with an extension ending the path; a found plugin is cached under the path and nothing else in the cache changes |
| PluginManager.HashPluginManager.GetPluginOrThrow | src/content-hashes/infrastructure/provideHashDirectoryEnv/PluginManager.ts:30-38 | the plugin found, or the error "Unable to find plugin for" followed by the path when there is none |
| PluginManager.HashPluginManager.GenerateContentHashes | src/content-hashes/infrastructure/provideHashDirectoryEnv/generateContentHashes.ts:7-10 | fails exactly when no plugin matches the document's path, and otherwise gives what that plugin generates for the document |
| PluginManager.HashPluginManager.RewriteFileContent | src/content-hashes/infrastructure/provideHashDirectoryEnv/rewriteFileContent.ts:7-10 | fails exactly when no plugin matches the document's path, and otherwise gives that plugin's rewrite of the document |
| PluginManager.FirstUnmatched | src/content-hashes/infrastructure/provideHashDirectoryEnv/rewriteDocumentHashes.ts:12 | the first document in order without a plugin, the one the lookup throws for; none exactly when every document has a plugin |
| PluginManager.RewriteDocumentHashes | src/content-hashes/infrastructure/provideHashDirectoryEnv/rewriteDocumentHashes.ts:7-21 | fails exactly when some document has no plugin, with the error naming the first such file; otherwise the result is each plugin's rewrite of its group of documents, concatenated in order of the plugins' first use |
| PluginManager.RewritePreservesDocuments | src/content-hashes/infrastructure/provideHashDirectoryEnv/rewriteDocumentHashes.ts:12-20 | when every plugin's rewrite returns its group up to order, the dispatch succeeds and returns a permutation of the documents: none is lost or duplicated |
| PluginManager.PluginsInUseExact | src/content-hashes/infrastructure/provideHashDirectoryEnv/rewriteDocumentHashes.ts:12 | the plugins used are exactly the plugins of the documents, none listed twice |
| PluginManager.DocumentsOfExact | src/content-hashes/infrastructure/provideHashDirectoryEnv/rewriteDocumentHashes.ts:13-15 | a plugin's group holds exactly the documents that plugin was found for |
| PluginManager.GroupsPartition | src/content-hashes/infrastructure/provideHashDirectoryEnv/rewriteDocumentHashes.ts:12-19 | the flattened groups are a permutation of the documents: each document lands in exactly one group, as often as it was given |
| PluginManager.DocumentsOfAbsent | src/content-hashes/infrastructure/provideHashDirectoryEnv/rewriteDocumentHashes.ts:13-15 | a plugin no document uses has an empty group |
| PluginHashes.RepresentationPathsOfParts | src/content-hashes/infrastructure/plugins/documentToContentHashes.ts:19-33 | the keyed paths are exactly the paths of the document's parts (itself, its proxy, its declaration file, recursively) and of their source maps |
| PluginHashes.DocumentToContentHashes | src/content-hashes/infrastructure/plugins/documentToContentHashes.ts:12-36 | the map keys exactly the document's representation paths, each to the hash trimmed to the hash length |
| PluginHashes.PluginContentHashes | src/content-hashes/infrastructure/plugins/createPlugin.ts:94-115 | the map keys the document, its '.map', the map's '.proxy.js' and its declaration file's paths, each to the untrimmed hash |
| PluginHashes.KeySetsAgree | src/content-hashes/infrastructure/plugins/createPlugin.ts:70-115 | for documents as the default plugin reads them, with the proxy at the map's '.proxy.js' path, both versions key the same paths |
| PluginHashes.RenameIfHashed | src/content-hashes/infrastructure/plugins/createPlugin.ts:168-172 | a document with a non-empty hash is renamed with it; one without a hash, or with the empty hash, is unchanged |
| PluginHashes.RenameAll | src/content-hashes/infrastructure/plugins/createPlugin.ts:184 | each document of the list is renamed in place by its own hash |
| PluginRewrite.RewriteContents | src/content-hashes/infrastructure/plugins/rewriteDocumentContents.ts:10-59 | edits that change nothing return the document itself; otherwise the contents are the rendered edits and a source map is present; the path, extension, dependencies and declaration file are kept, and a proxy exists after exactly when before |
| PluginRewrite.RewriteContentsKeepsPaths | src/content-hashes/infrastructure/plugins/rewriteDocumentContents.ts:44-57 | rewriting never moves a file: every part, the proxy included, keeps its path and extension |
| PluginRewrite.IdentityCallbackKeepsDocument | src/content-hashes/infrastructure/plugins/rewriteDocumentContents.ts:21-25 | a callback whose overwrites write back what they replace leaves the document as it was |
| PluginRewrite.FileReplacementPath | src/content-hashes/infrastructure/plugins/rewriteFileContent.ts:23-28 | a relative hashed path ending in '.d.ts' loses that ending, even under a base URL; otherwise a base URL gives the origin-applied unhashed path, and no base URL the relative hashed path |
| PluginRewrite.FileReplacementRelative | src/content-hashes/infrastructure/plugins/rewriteFileContent.ts:12-28 | without a base URL a non-empty replacement starts with '.' or '/' |
| PluginRewrite.FileContentEditsExact | src/content-hashes/infrastructure/plugins/rewriteFileContent.ts:19-31 | exactly the references with a truthy hash are overwritten, each over its own range with its replacement path |
| PluginRewrite.NoHashesNoEdits | src/content-hashes/infrastructure/plugins/rewriteFileContent.ts:20-22 | a document none of whose references has a hash records no overwrite |
| PluginRewrite.RewriteFileDependencies | src/content-hashes/infrastructure/plugins/rewriteFileContent.ts:14-33 | the callback appends the overwrites of the references with a truthy hash, in order, to the edits |
| PluginRewrite.RewriteFileContent | src/content-hashes/infrastructure/plugins/rewriteFileContent.ts:35-51 | the document and its declaration file are each rewritten with the reference callback; paths and dependencies are kept |
| PluginRewrite.UnhashedReferencesKeepDocument | src/content-hashes/infrastructure/plugins/rewriteFileContent.ts:35-51 | a document without a declaration file none of whose references has a hash comes back unchanged |
| PluginRewrite.RewriteDocumentHashes | src/content-hashes/infrastructure/plugins/rewriteDocumentHashes.ts:11-38 | with source maps off the document is returned as is; otherwise the result is the renamed document rewritten with the sourceMappingURL callback, spread with the separately rewritten renamed declaration file: it takes the renamed path, keeps extension, dependencies and hash support, its contents and its declaration file's contents get the overwrites computed for their renamed paths, and a declaration file exists after exactly when before |
| PluginRewrite.RewriteDocumentHashesPaths | src/content-hashes/infrastructure/plugins/rewriteDocumentHashes.ts:24-36 | with source maps on, a document supporting hashes with a truthy hash comes back with the hash in its path and its declaration file's path, the latter rewritten for its hashed path; any other document keeps both paths |
| PluginRewrite.Renamed | src/content-hashes/infrastructure/plugins/rewriteDocumentHashes.ts:24 | a document supporting hashes with a truthy hash is renamed with it, keeping its contents; any other document is unchanged |
| PluginRewrite.RenamedPartsCarryHash | src/content-hashes/infrastructure/plugins/rewriteDocumentHashes.ts:24 | every part of a renamed document, its proxy and declaration file included, carries the hash in its path |
| PluginRewrite.PluginFileEdits | src/content-hashes/infrastructure/plugins/createPlugin.ts:125-130 | one overwrite per reference, in order, over its range with the hashed path of its target |
| PluginRewrite.PluginRewriteFileContent | src/content-hashes/infrastructure/plugins/createPlugin.ts:117-166 | the contents are the rendered overwrites of every reference; a source map is always present, generated for those edits and composed with an existing raw map; path, extension and dependencies are kept; the proxy and declaration file are present exactly when they were and are each rewritten the same way, recursively (`RewrittenFile`: their contents, maps, paths and their own parts) |
| PluginRewrite.OverwriteReferences | src/content-hashes/infrastructure/plugins/createPlugin.ts:125-130 | the loop appends one overwrite per reference, in order, each with replaceFileHash of the reference's path and hash |
| SrcSets.CandidateUrl | src/content-hashes/infrastructure/plugins/parseSrcSets.ts:16-20 | the URL is the first whitespace-separated token of the trimmed candidate; trimming it again changes nothing |
| SrcSets.ParseSrcSets | src/content-hashes/infrastructure/plugins/parseSrcSets.ts:11-29 | one entry per comma-separated candidate, in order, each built from that candidate |
| SrcSets.SplitPartsOccur | src/content-hashes/infrastructure/plugins/parseSrcSets.ts:12-13 | every comma-separated part occurs in the attribute |
| SrcSets.TokenOccurs | src/content-hashes/infrastructure/plugins/parseSrcSets.ts:14-16 | the first token of the trimmed candidate occurs in the candidate, after its leading whitespace |
| SrcSets.UrlOccurs | src/content-hashes/infrastructure/plugins/parseSrcSets.ts:16-17 | every candidate's URL occurs in the attribute, so indexOf never gives -1 |
| SrcSets.UrlCharacters | src/content-hashes/infrastructure/plugins/parseSrcSets.ts:12-16 | the URL of a candidate contains neither whitespace nor commas |
| SrcSets.ParseSrcSetsPositions | src/content-hashes/infrastructure/plugins/parseSrcSets.ts:17-25 | each URL is free of whitespace and commas; its start is the offset plus the first place it occurs in the attribute, with no earlier occurrence; end − start is the URL's length |
| SrcSets.RepeatedUrlSharesPosition | src/content-hashes/infrastructure/plugins/parseSrcSets.ts:17 | two candidates with the same URL get the same position, its first occurrence |
| SrcSetExample.AttrSplit | src/content-hashes/infrastructure/plugins/parseSrcSets.ts:12-13 | an attribute of four comma-free candidates written one per line splits into exactly those candidates, each line after the first keeping its indentation |
| SrcSetExample.Parts | src/content-hashes/infrastructure/plugins/parseSrcSets.test.ts:8-11 | the example attribute has four candidates |
| SrcSetExample.Example0 | src/content-hashes/infrastructure/plugins/parseSrcSets.test.ts:17-23 | the first URL spans [100, 134) |
| SrcSetExample.Example1 | src/content-hashes/infrastructure/plugins/parseSrcSets.test.ts:24-30 | the second URL spans [144, 178) |
| SrcSetExample.Example2 | src/content-hashes/infrastructure/plugins/parseSrcSets.test.ts:31-37 | the third URL spans [188, 222) |
| SrcSetExample.Example3 | src/content-hashes/infrastructure/plugins/parseSrcSets.test.ts:38-44 | the fourth URL spans [232, 266) |
| SrcSetExample.SrcSetExample | src/content-hashes/infrastructure/plugins/parseSrcSets.test.ts:8-45 | the four-candidate attribute at offset 100 yields exactly the four URLs with spans [100,134), [144,178), [188,222) and [232,266) |
| SrcSets.ScalarValuePositions | src/content-hashes/infrastructure/plugins/parseSrcSets.ts:16-24 | for the candidate "a.png 1x" after "x😀," the URL is "a.png" at (3, 8): positions count scalar values, so the emoji counts once where `indexOf` counts two code units |
| TsConfigPaths.PathsKeys | src/content-hashes/infrastructure/plugins/resolveTsConfigPaths.ts:20-21 | the keys of `paths` (empty when it is not given), one per alias, in order |
| TsConfigPaths.StripStar | src/content-hashes/infrastructure/plugins/resolveTsConfigPaths.ts:22 | a key loses exactly a trailing '*' or '/*' and is otherwise unchanged; the result is a prefix of the key |
| TsConfigPaths.SomePrefix | src/content-hashes/infrastructure/plugins/resolveTsConfigPaths.ts:32 | true exactly when some stripped key is a prefix of the specifier |
| TsConfigPaths.IsInPaths | src/content-hashes/infrastructure/plugins/resolveTsConfigPaths.ts:31-33 | true exactly when a base URL is set, there are aliases, and some stripped key is a prefix of the specifier |
| TsConfigPaths.ResolvePath | src/content-hashes/infrastructure/plugins/resolveTsConfigPaths.ts:24-29 | None when matching is disabled; otherwise the matcher's answer for the base URL, the aliases, the main fields and the extension list |
| TsConfigPaths.InPathsExtends | src/content-hashes/infrastructure/plugins/resolveTsConfigPaths.ts:32 | a specifier in paths stays in paths when anything is appended to it |
| TsConfigPaths.CatchAllKey | src/content-hashes/infrastructure/plugins/resolveTsConfigPaths.ts:22-32 | with matching enabled, a key '*' or '/*' puts every specifier in paths |
| TsConfigPaths.DisabledMatching | src/content-hashes/infrastructure/plugins/resolveTsConfigPaths.ts:23-33 | without a base URL or without aliases nothing is in paths and nothing resolves |
| TsConfigPaths.AliasExample | src/content-hashes/infrastructure/plugins/resolveTsConfigPaths.ts:22-32 | the alias '@app/*' takes in '@app/main' and also '@application', but not 'lodash' |
| CreateReadFilePath.ReadFilePath | src/content-hashes/infrastructure/createReadFilePath.ts:7-25 | None exactly when every plugin reads nothing; otherwise the result of the first plugin, in order, that reads a document, unmodified |
| V2CreateReadFilePath.CombineDocuments | src/v2/infrastructure/createReadFilePath.ts:19-24 | the first document's path, extension, contents and encoding are kept; its hash and source map are kept when present, else taken from the second |
| V2CreateReadFilePath.SomesExact | src/v2/infrastructure/createReadFilePath.ts:32 | the kept documents are empty exactly when every plugin read nothing, and are exactly the documents some plugin read |
| V2CreateReadFilePath.SomesFirst | src/v2/infrastructure/createReadFilePath.ts:32-38 | the first kept document is the one read by the first plugin that read one |
| V2CreateReadFilePath.CombineKeepsFirst | src/v2/infrastructure/createReadFilePath.ts:19-24 | folding keeps the first document's path, extension, contents and encoding |
| V2CreateReadFilePath.CombineHash | src/v2/infrastructure/createReadFilePath.ts:21 | the folded hash is the first document's when it has one, else that of the first later document that has one, and None only when no document has one |
| V2CreateReadFilePath.CombineDependencies | src/v2/infrastructure/createReadFilePath.ts:23 | the folded dependencies are all documents' dependencies joined in order with every later duplicate under dependencyEq removed |
| V2CreateReadFilePath.ReadFilePathProperties | src/v2/infrastructure/createReadFilePath.ts:26-43 | readFilePath is None exactly when no plugin read a document; otherwise its path and contents are those of the first plugin's document |
| V2CreateReadFilePath.CombinedDependenciesDistinct | src/v2/infrastructure/createReadFilePath.ts:11-24 | the folded dependencies have pairwise distinct (specifier, path, position) keys, and every dependency of every document has its key among them |
| Javascript.StripPrefix | src/content-hashes/infrastructure/plugins/javascript.ts:38 | one leading quote is removed, and nothing else |
| Javascript.StripPostfix | src/content-hashes/infrastructure/plugins/javascript.ts:39-49 | one trailing quote is removed, and nothing else |
| Javascript.StripSpecifierInfix | src/content-hashes/infrastructure/plugins/javascript.ts:37-49 | the stripped specifier is the literal with at most one character gone from each end, and only a quote |
| Javascript.StripQuoted | src/content-hashes/infrastructure/plugins/javascript.ts:37-49 | a quoted literal loses exactly its two quotes |
| Javascript.StripUnquoted | src/content-hashes/infrastructure/plugins/javascript.ts:37-49 | a literal with no quote at either end is kept |
| Javascript.LiteralRange | src/content-hashes/infrastructure/plugins/javascript.ts:170-171 | the dependency's range is the literal's range shrunk by one at each end |
| Javascript.LiteralRangeCoversSpecifier | src/content-hashes/infrastructure/plugins/javascript.ts:170-171 | for a quoted literal the range covers exactly the unquoted specifier |
| Javascript.ResolutionExtensions | src/content-hashes/infrastructure/plugins/javascript.ts:51-63 | the extensions tried start with the file's own, and any extension outside the table is tried alone |
| Javascript.ResolutionExtensionsTable | src/content-hashes/infrastructure/plugins/javascript.ts:51-55 | '.js' tries '.js' then '.jsx', '.jsx' the reverse, '.d.ts' tries '.d.ts', '.ts' and '.js', and any other extension only itself |
| Javascript.ProxyOfMapReplacement | src/content-hashes/infrastructure/plugins/javascript.ts:65-73 | the proxy of a source map takes the hash of the module the map belongs to ('.js.map.proxy.js' gives '.js') |
| Javascript.ProxyOfAssetReplacement | src/content-hashes/infrastructure/plugins/javascript.ts:65-73 | the proxy of any other asset takes the asset's hash ('.css.proxy.js' gives '.css') |
| Javascript.PlanRead | src/content-hashes/infrastructure/plugins/javascript.ts:91-107 | unsupported exactly when no supported extension ends the compound extension; a proxy is read without source maps; a hashFor link is taken exactly for the compound extensions |
| Javascript.PlannedDocument | src/content-hashes/infrastructure/plugins/javascript.ts:105-107 | the read document is kept, or pointed at its sibling's hash when the plan says so |
| Javascript.DeclarationPointsAtModule | src/content-hashes/infrastructure/plugins/javascript.ts:99-107 | a declaration file 'x.d.ts' is read with source maps and takes its hash from 'x.js' |
| Javascript.PlainModuleKeepsHash | src/content-hashes/infrastructure/plugins/javascript.ts:91-107 | a plain '.js' module is read with source maps and keeps its own hash |
| Javascript.StylesheetUnsupported | src/content-hashes/infrastructure/plugins/javascript.ts:93-97 | a '.css' file is not read by this plugin |
| Javascript.StylesheetProxyPointsAtStylesheet | src/content-hashes/infrastructure/plugins/javascript.ts:99-107 | the module proxy of a stylesheet is read without source maps and takes the stylesheet's hash |
| Javascript.ReadFile | src/content-hashes/infrastructure/fsReadFile.ts:18-42 | the document read has the path, the contents, their SHA-512 as own hash and no dependencies; a source map at path + '.map' is expected exactly when the file is not base64, source maps are on, and it is neither a map nor a proxy |
| Javascript.TaggedLiterals | src/content-hashes/infrastructure/plugins/javascript.ts:140-149 | the standard literals, resolved by specifier, then, only for a module proxy, its export assignments' literals, resolved by base name |
| Javascript.LiteralDependency | src/content-hashes/infrastructure/plugins/javascript.ts:152-181 | a skipped specifier gives nothing; otherwise a dependency exactly when the resolver finds a file, with the unquoted specifier, the resolved path, its extension and the literal's inner range |
| Javascript.FindDependencies | src/content-hashes/infrastructure/plugins/javascript.ts:184-191 | only the dependencies of the document change |
| Javascript.ResolvedFromLiterals | src/content-hashes/infrastructure/plugins/javascript.ts:151-188 | every dependency collected comes from a literal that resolved |
| Javascript.LiteralsResolved | src/content-hashes/infrastructure/plugins/javascript.ts:151-188 | every literal that resolves yields a dependency in the list |
| Javascript.UniqResolvedProperties | src/content-hashes/infrastructure/plugins/javascript.ts:186-190 | after duplicates are removed the dependencies are distinct, each from a literal, and none is lost |
| Javascript.FindDependenciesProperties | src/content-hashes/infrastructure/plugins/javascript.ts:118-194 | a module's dependencies are distinct, each comes from one of its literals, and every literal that resolves is represented |
| Javascript.ExportAssignmentsOnlyForProxies | src/content-hashes/infrastructure/plugins/javascript.ts:140-144 | a file that is not a module proxy never resolves export assignments |
| Javascript.ReadFilePath | src/content-hashes/infrastructure/plugins/javascript.ts:89-112 | nothing exactly for an unsupported extension; otherwise the planned document with its dependencies found |
| Javascript.ReadFilePathDocument | src/content-hashes/infrastructure/plugins/javascript.ts:89-112 | a file read keeps its path and contents, is never base64, has its own SHA-512 hash exactly when its extension is not a compound one and a hashFor link to a sibling otherwise, and a proxy has no source map |
| V2Javascript.V2FileExtension | src/v2/infrastructure/plugins/javascript.ts:36-44 | the extension ends the path (unless the path ends with '/'), and it is extname's answer unless it is a compound extension |
| V2Javascript.GetFileExtension | src/v2/infrastructure/plugins/javascript.ts:36-44 | the loop returns the first compound extension ending the path, else extname of the path |
| V2Javascript.V2FileExtensionFirstMatch | src/v2/infrastructure/plugins/javascript.ts:37-41 | a compound extension is reported exactly when the path ends with one, and then it is the earliest listed one that does |
| V2Javascript.V2ProxyOfMapExample | src/v2/infrastructure/plugins/javascript.ts:33-41 | a module source map's proxy is recognised whole as '.js.map.proxy.js' |
| V2Javascript.V2DeclarationMapExample | src/v2/infrastructure/plugins/javascript.ts:33-41 | a declaration file's source map is recognised whole as '.d.ts.map' |
| V2Javascript.V2ResolutionExtensions | src/v2/infrastructure/plugins/javascript.ts:62-74 | the extensions tried are never empty, an extension outside the table is tried alone, and every one but the proxy's starts with itself |
| V2Javascript.V2ResolutionExtensionsTable | src/v2/infrastructure/plugins/javascript.ts:62-66 | '.js' tries only '.js', the map proxy tries '.js.map', '.map' and '.js', '.d.ts' tries '.d.ts' and '.ts', any other extension only itself |
| V2Javascript.V2ReadFile | src/v2/infrastructure/fsReadFile.ts:17-37 | the document read has the path, extname, the contents and their SHA-512 as own hash, no dependencies, and a source map at path + '.map' exactly when not base64 and source maps are on |
| V2Javascript.V2LiteralDependency | src/v2/infrastructure/plugins/javascript.ts:124-147 | a literal's dependency has the unquoted specifier, the path resolved from the directory, that path's extension and the range inside the quotes |
| V2Javascript.V2FindDependencies | src/v2/infrastructure/plugins/javascript.ts:109-153 | only the dependencies change, and they are one per literal, in order, with nothing skipped or deduplicated |
| V2Javascript.V2QuotedLiteral | src/v2/infrastructure/plugins/javascript.ts:125-137 | a quoted literal becomes a dependency on its unquoted text over exactly that text |
| V2Javascript.V2GateInverted | src/v2/infrastructure/plugins/javascript.ts:89-95 | as written the plugin refuses a declaration file and reads a stylesheet |
| V2Javascript.V2StylesheetRefused | src/v2/infrastructure/plugins/javascript.ts:89-95 | with the gate as intended a stylesheet is refused, its extension being '.css' |
| V2Javascript.V2ReadsCompound | src/v2/infrastructure/plugins/javascript.ts:89-95 | with the gate as intended a file with any compound extension is read |
| V2Javascript.V2ReadFilePath | src/v2/infrastructure/plugins/javascript.ts:87-103 | with the gate as intended nothing exactly for an unsupported extension; otherwise the file with its path, contents, own SHA-512 hash, a source map at path + '.map', and the dependencies found from the read document's literals: one per literal, in order, each the resolution of that literal from the file's directory with its extension list |
| V2Rewrite.RelativeHashedPath | src/v2/infrastructure/rewriteDependencies.ts:50 | the path from the referencing document's directory to the hashed path starts with '.' or '/' |
| V2Rewrite.ReplacementPath | src/v2/infrastructure/rewriteDependencies.ts:50-52 | a relative path matching '.d.ts' at its end loses that ending, even under a base URL; otherwise a base URL gives the origin-applied unhashed path, and no base URL the relative hashed path |
| V2Rewrite.DependencyEditsExact | src/v2/infrastructure/rewriteDependencies.ts:45-56 | exactly the dependencies whose hashed path differs from their own are overwritten, each over its own range with its replacement path |
| V2Rewrite.UnhashedDependenciesNoEdits | src/v2/infrastructure/rewriteDependencies.ts:49 | when no dependency's hashed path differs from its own, nothing is overwritten |
| V2Rewrite.ReplacementIsRelative | src/v2/infrastructure/rewriteDependencies.ts:50-52 | without a base URL a replacement is a prefix of the relative path and starts with '.' or '/' when not empty |
| V2Rewrite.DtsWinsOverBaseUrl | src/v2/infrastructure/rewriteDependencies.ts:52 | a '.d.ts' relative path is stripped even when a base URL is set |
| V2Rewrite.RewriteDependency | src/v2/infrastructure/rewriteDependencies.ts:46-55 | one turn of the loop appends the dependency's overwrite, if any, to the edits |
| V2Rewrite.RewriteDocumentDependencies | src/v2/infrastructure/rewriteDependencies.ts:38-57 | the callback appends the overwrites of all the document's dependencies, in order, to the edits |
| HashDirectory.Reduce | src/content-hashes/application/services/hashDirectory.ts:62-70 | the accumulator after the loop is the left fold of the reducer over the values in order |
| HashDirectory.RewriteFile | src/content-hashes/application/services/hashDirectory.ts:72-85 | the rewritten document is appended after the documents so far, and is the plugin's rewrite of the document with the hashes so far |
| HashDirectory.HashedDocuments | src/content-hashes/application/services/hashDirectory.ts:40-44 | after the fold there is one rewritten document per input document, in order, and each was rewritten with the hashes of the documents before it only |
| HashDirectory.HashedKeysDistinct | src/content-hashes/application/services/hashDirectory.ts:78 | the hash map holds each path once |
| HashDirectory.HashedHashes | src/content-hashes/application/services/hashDirectory.ts:78 | the hash map answers each path with the hash the last rewritten document to produce one gave it |
| HashDirectory.HashDirectory | src/content-hashes/application/services/hashDirectory.ts:35-60 | the hashes are those of the fold; created, deleted and unchanged are the diff of the first reading against the renamed documents; the manifest is that of the first reading with the fold's hashes |

## Left out

- SHA-512, base64url and the `crypto` digest are uninterpreted functions. The model proves what is fed to the digest, not what it returns.
- Tarjan's algorithm in src/content-hashes/infrastructure/tarjan.ts is not part of this model. Its visit test is inverted: it recurses into vertices that already have an index and reads an unset lowlink for new ones, so no strongly-connected-component property holds of it.
- The strongly-connected-component and `toposort` libraries are foreign code. The components come in as a parameter of `Toposort.SortDiGraph`.
- Source-map generation (`MagicString.generateMap`) and composition (`@ampproject/remapping`) are library behaviour. Maps are opaque values produced by parameters.
- `sourceMappingURL` detection and rewriting rest on a composite regular expression. The rewrite is a parameter.
- All file-system I/O is left out, since it is effects only. This covers reading and writing documents, directory listing, `existsSync`/`statSync` and the command line.
- Parsing and resolution libraries are left out as foreign code. These are the ts-morph syntax tree, package resolution, the tsconfig-paths matcher, `isExternalUrl` and Node's `URL` inside `applyOrigin`. Resolvers and matchers are parameters, and the string literals a parse yields are an input list.
- `findServiceWorkerRegister` depends on the syntax tree. The literals it would find are part of the input literal list.
- src/v2/infrastructure/rewriteDocumentContents.ts is not part of this model. It is superseded by the content-hashes version, and it builds its buffer from the path rather than the contents.
- v2 `getHashedPath` wraps v2 functions that are not part of this model. `V2Rewrite` takes it as a parameter.
- The v2 module resolver is treated as total, because its resolution function is not part of this model.
- Effect plumbing, logging, newtype wrappers and runtime schemas are left out, since they sequence effects or validate at run time.
- `HashDirectory.HashDirectory` takes the documents already read and sorted. Reading the directory, writing and deleting files, and logging are left out.
- `Edits.MagicString.Overwrite` records edits in call order, and the rendered string applies them left to right. An edit that is empty, out of range, or overlaps or precedes an earlier one is dropped. MagicString would accept edits in any order and throw on an invalid range.
- `Diff.DiffDocuments` compares documents by value. JavaScript `Set`s compare object identity, so duplicate equal documents count once here.
- `Diff.DiffDocuments` has no `hashes` parameter, because the source ignores it.
- `FileExtension.ExtensionIsSuffix`: the suffix property is stated only for names without '/'. `extname` of 'a.b/.map' is taken from the last segment, and the recursion then yields '.b.map', which is not a suffix.
- `PluginRewrite.PluginRewriteFileContent` requires a hash for every referenced path. Where one is missing, the source's non-null assertion passes `undefined` on into the path.
- `V2Rewrite.RewriteDocumentDependencies` requires every dependency to be registered. The source throws otherwise.
- src/content-hashes/infrastructure/ensureRelative.ts and its v2 counterpart are not part of this model. Batch, Javascript and V2Rewrite use `Paths.EnsureRelative`, the `ensureRelative` of src/content-hashes/infrastructure/plugins/rewriteFileContent.ts:12, taking the two to behave alike.
- `PathMap.RemountTarget`: the three-argument `replaceHash(from, ext, hash)` that generatePathMap.ts imports from the domain is taken to be the path-level `Hashes.ReplaceHash`. The domain's own `replaceHash` takes a document and a hash.
- `Batch.DepsOf`: the records of the hashed document and those of a registry entry at its path are treated as the same records. The source's `Set` compares dependency objects by identity, so a distinct registry copy of the document would have its dependencies added and fed again.
- Strings are sequences of Unicode scalar values, so every length, `indexOf` result, slice bound and edit position counts scalar values. JavaScript, ts-morph and MagicString count UTF-16 code units, so positions differ after any character outside the Basic Multilingual Plane: in `"x😀,a.png 1x"` the source places `a.png` at 4 and `SrcSets.ParseCandidate` at 3, as `SrcSets.ScalarValuePositions` shows. Lone surrogates cannot be represented. Contents and positions use the same unit throughout the model, so it is consistent in itself.
- `RegistryManifest.RegistryAssignments` and the other registry walks take the registry's `Map` iteration order as the parameter `paths`, the sequence of its keys. The model does not derive that order from the order of insertion.
- `Text.ReplacePatternAtEnd` treats only '.' as a regular-expression metacharacter in `new RegExp(ext + '$')`. An extension containing `[`, `(`, `*`, `+`, `?` or another metacharacter would give the source a different pattern, or make it throw. The extensions in use contain none.
- Arithmetic width is not an issue: positions and lengths are unbounded integers, and the source does no wrap-around arithmetic.

## Findings

| source | as written | input that shows it | evidently intended | confidence | as-written member | corrected member |
|---|---|---|---|---|---|---|
| src/v2/infrastructure/plugins/javascript.ts:91-95 | `if (supportedExtensions.includes(ext)) return none`: files whose extension is supported are refused, and all others are read | 'foobar.d.ts' is refused, and 'foobar.css' is read as JavaScript | refuse a file only when its extension is not supported | not executed | V2Javascript.V2GateInverted | V2Javascript.V2ReadFilePath |
