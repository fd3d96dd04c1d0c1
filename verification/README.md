# Tag-to-digest resolution for Kubernetes templates, in Dafny

This project models `k8s/resolver.py` from rules_k8s. That
tool rewrites every image tag named in a multi-document YAML template
into an immutable `registry/repository@digest` reference. Before it
does, it can publish locally assembled images, and their fresh digests
override whatever the registry would answer.

The model has three parts:

- **The document walker** (`Walker`). `Resolve` walks a loaded document:
  dict keys and values, list items, and `str` leaves. Each leaf is tried
  as a tag and, when that works, resolved. On any failure the bare
  `except` keeps the original string. Every other scalar is left as it is.
- **Cached resolution** (`Resolution`, `CachedWalk`). `TagToDigest`
  answers from the override map when the tag is there. Otherwise it asks
  the v2.2 registry whether the image exists. If it does, it fully
  qualifies that digest; if not, it falls back to v2. It then writes the
  answer back into the map. The map is threaded through as explicit
  state. The walk that `main` runs, with this map shared across
  documents, is proved equal to a pure walk with the resolver "map entry,
  else registry" fixed at the start.
- **Publishing and orchestration** (`Publisher`, `Orchestrator`).
  `Publish` validates its keyword arguments in a fixed order. It uses
  Python truthiness, so an empty string counts as absent. It reads the
  config, pairs the comma-separated digests with the layers, pushes, and
  answers `(Tag(name), repository@digest)`. `main` parses each
  `--image_spec` and publishes it, writing the answer into the override
  map. A later spec overwrites an earlier one. Only after that does it
  resolve the documents.

Some of the code's collaborators enter the model as records of total
functions (oracles):

- `Naming`: docker_name's tag parser, digest validator and
  `as_repository`.
- `Registry`: the v2.2 `exists()`/`digest()` calls and the v2 `digest()`
  call, with credentials already applied.
- `Disk`: reading files, a tarball's config, and `FromDisk(...).digest()`.
- `Pusher`: the push session.

Python's `str.split`, truthiness, `zip` and dict comprehensions are
modelled explicitly (`PyStr`, `PyDict`, `Publisher.Zip`).

The model follows the code as written:

- A dict's size is not preserved by the walk. Keys are walked too, so two
  keys that resolve alike collapse into one entry, and the last one wins.
- A failure of the v2.2 `exists()` or `digest()` call is not followed by
  the v2 fallback. The fallback runs only when `exists()` answers false.
- With `config` given and readable, `digest` given without `layer`, or
  the reverse, fails with AttributeError (`None.split`), not with a
  configuration error. Without `config`, either one alone fails earlier,
  as a layer without config. With `config` given, `layer=` (an empty
  string) together with a one-entry digest is accepted as one empty
  layer path.
- As written, the v2 fallback always raises NameError (see Findings).

## Model

| member | source | states |
|---|---|---|
| PyStr.Split | k8s/resolver.py:120-122 | `str.split(',')` gives one piece more than there are separators, and no piece holds the separator |
| PyStr.JoinSplit | k8s/resolver.py:120-122 | joining the pieces of a split with the separator gives back the original argument |
| PyStr.SplitJoin | k8s/resolver.py:120-122 | splitting a join of separator-free pieces gives back exactly those pieces |
| PyStr.SplitAtSeparator | k8s/resolver.py:155-156 | a separator after a separator-free prefix ends exactly that piece |
| PyDict.Insert | k8s/resolver.py:49-52 | storing a key in a dict: the key set gains the key, the key maps to the new value, other keys are unchanged, and keys stay distinct |
| PyDict.FromPairs | k8s/resolver.py:49-52 | a dict comprehension has distinct keys, exactly the keys given, at most as many entries as pairs, and only entries that were given |
| PyDict.FromPairsLastWins | k8s/resolver.py:49-52 | a key repeated in a comprehension holds the value paired with it last |
| PyDict.FromPairsDistinct | k8s/resolver.py:49-52 | pairs with distinct keys become the dict as they are, in order |
| PyDict.GetKeys | k8s/resolver.py:49-52 | a dict lookup succeeds exactly for its keys and answers a stored entry |
| Walker.WalkString | k8s/resolver.py:57-63 | a string changes only when it parses as a tag and the resolver succeeds, and then it becomes exactly the resolver's answer; otherwise it is kept |
| Walker.Walk | k8s/resolver.py:65-72 | dicts stay dicts (never larger), lists stay lists of the same length, strings stay strings, and any other value is returned unchanged |
| Walker.WalkList | k8s/resolver.py:54-55 | a list walks to the list of its walked items, same length, same order |
| Walker.WalkMapKeys | k8s/resolver.py:48-52 | a dict walks to a dict with distinct keys whose key set is exactly the walked keys (keys are walked too) |
| Walker.WalkMapLastWins | k8s/resolver.py:48-52 | when keys collapse, a walked key holds the walked value of the last entry whose key walks to it |
| Walker.WalkMapInjective | k8s/resolver.py:48-52 | when no keys collapse, the walked dict is the walked entries in order, so its size is preserved |
| Walker.WalkFixed | k8s/resolver.py:48-72 | a tree whose every string leaf is kept by `walk_string` walks to itself |
| Walker.WalkNoTags | k8s/resolver.py:57-72 | if no string leaf parses as a tag, walking returns the input unchanged |
| Walker.WalkWellFormed | k8s/resolver.py:48-52 | every dict in the output has distinct keys |
| Walker.WalkStringOrigin | k8s/resolver.py:48-72 | every string leaf of the output is `walk_string` of a string leaf of the input |
| Walker.WalkIdempotent | k8s/resolver.py:57-72 | if the resolver's answers never parse as tags, walking twice equals walking once |
| Walker.WalkAgree | k8s/resolver.py:57-63 | the resolver is consulted only on tags parsed from the tree's own strings: resolvers that agree there give the same output |
| Resolution.FromRegistry | k8s/resolver.py:86-99 | a registry answer (qualified by `FullyQualify`, lines 82-84) parses as a Digest and is the qualified v2.2 digest when `exists()` is true, the qualified v2 digest when it is false; a failing `exists()` fails the lookup with its error |
| Resolution.FromRegistryAsWritten | k8s/resolver.py:86-99 | as written, `exists()` false always fails with NameError for `v2_image`; otherwise the answer is the corrected lookup's |
| Resolution.AsWrittenIsCorrectedOnAsWrittenRegistry | k8s/resolver.py:77-99 | the as-written lookup and `TagToDigest` as written are the corrected ones run against `AsWrittenRegistry` |
| Resolution.TagToDigest | k8s/resolver.py:77-99 | the answer is "map entry, else the registry lookup"; a hit answers from the map and leaves it unchanged; a successful miss writes exactly that tag with the answer; a failed miss writes nothing; no write changes what any later lookup answers; cached digests stay fully qualified |
| Resolution.TagToDigestAsWritten | k8s/resolver.py:77-99 | the code as written: a hit answers from the map, and a failure leaves the map unchanged |
| Resolution.FromRegistryQualified | k8s/resolver.py:82-99 | through `FullyQualify`, a registry answer is `registry/repository@d`, with `d` taken from the v2.2 image when it exists and from v2 otherwise, and it parses as a Digest |
| Resolution.CacheHitNoRegistry | k8s/resolver.py:79-80 | on a hit the answer and the map do not depend on the registry at all |
| Resolution.V2OnlyWhenV22Missing | k8s/resolver.py:89-99 | the v2 accessor matters only when the v2.2 image reports that it does not exist |
| Resolution.MissV22 | k8s/resolver.py:89-93 | a miss on a tag the v2.2 registry has answers `registry/repo@digest` and caches that value under the tag |
| Resolution.MissFallsBackToV2 | k8s/resolver.py:95-99 | a miss on a tag the v2.2 registry lacks answers with the qualified v2 digest and caches it |
| Resolution.AsWrittenFallbackFails | k8s/resolver.py:95-96 | as written, every fallback raises NameError and caches nothing |
| Resolution.AsWrittenAgreesOutsideFallback | k8s/resolver.py:79-93 | outside the fallback, the code as written and the corrected code give the same answer and map |
| Resolution.FallbackCounterexample | k8s/resolver.py:95-99 | a registry serving only a v2 manifest: the corrected lookup resolves the tag, the code as written raises NameError |
| CachedWalk.WalkCached | k8s/resolver.py:48-72 | walking with the override map threaded through keeps each node's kind, leaves non-string scalars and the map alone, keeps a list's length, and never drops or changes a map entry |
| CachedWalk.ItemsCached | k8s/resolver.py:54-55 | the remaining list items walk to as many outputs, and no map entry is dropped or changed |
| CachedWalk.PairsCached | k8s/resolver.py:48-52 | the remaining dict entries walk to as many pairs, and no map entry is dropped or changed |
| CachedWalk.WalkCachedIsWalk | k8s/resolver.py:164 | walking with the shared override map gives the pure walk's output; the map only gains registry answers for tags the document mentions |
| CachedWalk.ItemsCachedIsWalk | k8s/resolver.py:54-55 | list items walked in order with the map threaded through give the pure walk's items |
| CachedWalk.ItemsCachedExtends | k8s/resolver.py:54-55 | walking the items in order only adds registry answers for tags the list mentions |
| CachedWalk.PairsCachedIsWalk | k8s/resolver.py:48-52 | dict entries walked value first, then key, with the map threaded through, give the pure walk's pairs |
| CachedWalk.EntryCachedIsWalk | k8s/resolver.py:50 | one dict entry: the value is walked first, then the key with the map the value left behind |
| CachedWalk.ExtendsTransparent | k8s/resolver.py:92-98 | writing registry answers into the map never changes what a lookup of any tag answers |
| CachedWalk.ExtendsTrans | k8s/resolver.py:92-98 | map extensions compose, and an extension by a subtree is one by the whole tree |
| CachedWalk.WalkCachedNoTags | k8s/resolver.py:57-63 | a document with no tag-shaped string comes back unchanged and the map is untouched, so no registry call is made |
| CachedWalk.WalkCachedQualified | k8s/resolver.py:82-84 | every digest cached during a walk is fully qualified |
| CachedWalk.WalkCachedCaches | k8s/resolver.py:79-80 | after a walk, every resolvable tag the document mentions is in the map, so later occurrences are hits |
| CachedWalk.ItemsCachedCaches | k8s/resolver.py:54-55 | a resolvable tag mentioned by a list item is cached once the items are walked |
| CachedWalk.PairsCachedCaches | k8s/resolver.py:48-52 | a resolvable tag mentioned by a dict key or value is cached once the entries are walked |
| CachedWalk.EntryCachedCaches | k8s/resolver.py:50 | a resolvable tag mentioned by an entry's value or key is cached once that entry is walked, value first |
| Publisher.Zip | k8s/resolver.py:137 | `zip` pairs items in order, as many as the shorter list has |
| Publisher.ZipUnzip | k8s/resolver.py:137 | zipping equal-length lists loses nothing: unzipping gives them back |
| Publisher.SplitArg | k8s/resolver.py:121-122 | splitting fails exactly on `None`, and the pieces join back to the argument |
| Publisher.Validate | k8s/resolver.py:104-128 | missing name first, then layer/digest without config, then missing source, then `None.split`, then a length mismatch, each exactly when its condition holds; validation succeeds exactly when the name is given, the config source reads, and the digest and layer lists are both absent or both given with equal counts; on success the config comes from `config` when given, else from the tarball, and the lists are the comma-split arguments, or empty when neither is given |
| Publisher.Publish | k8s/resolver.py:102-143 | validation errors come out unchanged; an unparsable name fails as a bad name; a failed upload fails with the registry's reason; a successful upload whose `repository@digest` parses answers exactly `(tag, repository@digest)`; conversely every answer comes from a parsed name, a pushed image and the pushed image's digest |
| Publisher.ValidationBeforeNetwork | k8s/resolver.py:104-134 | a spec that fails validation fails the same way whatever docker_name and the registry do: nothing is parsed or pushed |
| Publisher.MissingNameFirst | k8s/resolver.py:104-105 | a missing or empty name is reported before anything else, files included |
| Publisher.ConfigWinsOverTarball | k8s/resolver.py:111-116 | with both `config` and `tarball` given, the config file is read and the tarball is passed on as the legacy base |
| Publisher.PushedPairs | k8s/resolver.py:120-137 | the image `FromDisk` is given (`ImageOf`, lines 137-138): the pushed layers pair the i-th digest with the i-th layer, and the pairs give back both comma-separated arguments |
| Publisher.MismatchRejected | k8s/resolver.py:120-125 | `layer=a,b` with `digest=x` is rejected as a length mismatch, before any push |
| Orchestrator.KeyValue | k8s/resolver.py:156 | an image-spec part is accepted exactly when it holds one `=`, and key `=` value gives the part back |
| Orchestrator.KeyValues | k8s/resolver.py:156 | the parts are accepted exactly when each one is; on failure the reported part is malformed and every part before it is well formed, so it is the first bad part |
| Orchestrator.FirstUnknown | k8s/resolver.py:157 | an unknown keyword is found exactly when some key is not a `Publish` keyword |
| Orchestrator.KeywordArgs | k8s/resolver.py:155-157 | one `--image_spec` value split on `;` (`ParseImageSpec` is this applied to the split) gives keyword arguments exactly when each part holds one `=` and names a `Publish` keyword; the first malformed part is reported before any unknown key; an unknown key is reported by name; each keyword is present exactly when some part names it and holds the value of the last such part |
| Orchestrator.SpecOf | k8s/resolver.py:157 | each `Publish` keyword takes the dict's value for it, absent when the dict lacks it |
| Orchestrator.KeyValueOfEntry | k8s/resolver.py:156 | `k=v` with no `=` in `k` or `v` reads back as `(k, v)` |
| Orchestrator.SplitFormat | k8s/resolver.py:155-156 | the text of plain entries splits back into those entries |
| Orchestrator.ParseFormat | k8s/resolver.py:155-157 | parsing the text of distinct keyword entries gives each keyword its entry's value and leaves the others absent |
| Orchestrator.PublishSpecs | k8s/resolver.py:154-158 | the loop succeeds exactly when every spec publishes; otherwise it fails with the error of the first spec that fails, every earlier one having published |
| Orchestrator.Run | k8s/resolver.py:151-166 | the run succeeds exactly when every spec publishes (`PublishOne`: parse the spec, then `Publish` it, lines 155-157), then with one output per document; otherwise it fails with the first failing spec's error |
| Orchestrator.WalkDocs | k8s/resolver.py:163-165 | every document is walked, one output per input |
| Orchestrator.PublishSpecsInstalls | k8s/resolver.py:154-158 | after the loop every spec has been published, the map's keys are the old keys plus the published tags, and other entries are untouched |
| Orchestrator.PublishSpecsLastWins | k8s/resolver.py:154-158 | a tag published by several specs holds the answer of the last of them |
| Orchestrator.PublishSpecsFails | k8s/resolver.py:154-158 | one failing spec fails the whole loop |
| Orchestrator.PublishFailureAborts | k8s/resolver.py:154-166 | a failing spec aborts the run with no document output |
| Orchestrator.WalkDocsIsWalk | k8s/resolver.py:163-165 | sharing the map across documents changes no document: each is the pure walk with the map fixed before the first document |
| Orchestrator.RunResolves | k8s/resolver.py:151-166 | once publishing succeeds the run cannot fail, and every document is walked against the published overrides first, then the registry |
| Orchestrator.RunAsWritten | k8s/resolver.py:151-166 | the program as written: once publishing succeeds, every document is the pure walk in which published tags resolve to their published digests and every other tag goes to the as-written registry lookup |
| Orchestrator.WalkDocsAsWritten | k8s/resolver.py:163-165 | against the as-written registry, every document is the pure walk with "map entry, else the as-written lookup" |
| Orchestrator.PublishSpecsQualified | k8s/resolver.py:154-158 | when every answer of the publishing step is a Digest (as `Publish` ensures), every digest the publish loop installs in the override map is accepted as a Digest, so a fully qualified map stays fully qualified |
| Orchestrator.WalkDocsQualified | k8s/resolver.py:163-165 | walking the documents one after another keeps the shared override map fully qualified |
| Orchestrator.RunCacheQualified | k8s/resolver.py:151-166 | over a whole run, every digest in the override map, whether published or looked up, is fully qualified |
| Orchestrator.RunFallbackCounterexample | k8s/resolver.py:95-99 | end to end, a template naming a tag with only a v2 manifest keeps the tag as written, and gets the v2 digest once the fallback is repaired |

## Findings

| source | as written | input that shows it | evidently intended | confidence | as-written member | corrected member |
|---|---|---|---|---|---|---|
| k8s/resolver.py:95-99 | the v2 fallback calls `v2_image.FromRegistry`, but `v2_image` is never imported (lines 20-25). Every fallback raises NameError, which the walker's bare `except` turns into "leave the tag unresolved" | a tag whose v2.2 image reports `exists()` false while the registry serves a v2 manifest for it (`FallbackCounterexample`) | import the v2 `docker_image` module as `v2_image`, so the fallback resolves through the v2 accessor and caches the answer | high; not executed | Resolution.TagToDigestAsWritten | Resolution.TagToDigest |

The rest of the model (`CachedWalk`, `Orchestrator.Run`) is written
against the corrected `TagToDigest`. The program as written is the same
model run on `AsWrittenRegistry(reg)`, whose v2 access always raises
NameError (`AsWrittenIsCorrectedOnAsWrittenRegistry`). So every result
about the walk and the run also holds for the code as written
(`RunAsWritten`), and `RunFallbackCounterexample` shows the difference on a
whole run.

## Left out

- YAML parsing and dumping (`yaml.load`/`yaml.dump`, line 74): documents enter as loaded trees and leave as trees. The text format is outside the model.
- Splitting and joining the template text on `---\n`, reading the template file, argparse, and printing (lines 31-40, 43, 147, 160-166): these are I/O and text format.
- The tag and digest grammars of docker_name: they are not part of this model. Parsing is the `Naming` oracle, and `str()` of a Digest is taken to be the text it was built from.
- Credential lookup, the HTTP transport pool, `_THREADS`, and the `patched` httplib2 wrapper: these are network I/O and concurrency. They are folded into the `Registry` and `Pusher` oracles.
- Image digest computation, tarball config extraction and layer upload: these are foreign hashing and network code, given as `Disk` and `Pusher` oracles.
- The effects of `with` blocks on exit (closing images and sessions): these are resource handling with no effect on the answers.
- Python 2 `unicode` strings are modelled as a scalar the walker passes by. Python's `True == 1` key equality is not modelled: dict keys compare structurally.
- Iteration order of Python 2 dicts is hash order. The model takes it to be the entry order. When walked keys collapse, the surviving value depends on that order (`WalkMapLastWins`), so for such dicts the model shows one of the possible outputs.
- The `Registry` oracle is a fixed function of the tag for the whole run. It cannot express a tag re-pushed between two lookups or a transient failure. The results that sharing the map changes no document (`WalkCachedIsWalk`, `WalkDocsIsWalk`, `RunResolves`) rest on this. In the program, the shared map is what makes later occurrences of a tag agree with its first answer.
- `yaml.load` can return self-referential documents (an anchor inside its own alias, `&a [*a]`), and deeply nested ones hit Python's recursion limit. The walk then raises RuntimeError outside the `try` of lines 58-63 and aborts the run. A finite `Node` cannot express either case.
