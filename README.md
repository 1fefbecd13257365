# thesis_workflow ETL core, in Dafny

A verified model of the logic at the centre of the two ETL phases of the
thesis workflow.

**Fedora → ResearchSpace.** `crawl` walks a Fedora repository breadth first
along `ldp:contains` links. Each resource is fetched as RDF by `fetch_rdf`,
which sniffs the content type and retries once at the `fcr:metadata`
endpoint. The triples are transformed by `apply_rules`:
- an empty `ebucore:filename` is intercepted;
- rules that match the object exactly take precedence over wildcard rules;
- `?s`/`?o` templates are expanded;
- anything unmatched passes through.

The crawl writes the source blocks and the target lines chunk by chunk
(`flush_chunk`), plus a `files.txt` with the URLs of binaries. A downloader
reads `files.txt` back and maps each URL to a target directory and a `.jpg`
file name.

**ResearchSpace → Omeka S.** `build_sparql` renders the SELECT query from the
mapping rules, and `run_query` guards the shape of the endpoint's reply.
`main` then handles each row:
- it collects a `{property: value}` dictionary from the bindings;
- it creates or updates the Omeka item (`create_or_update_item`: the JSON
  payload over a fixed 15-entry property table, then a PATCH of the item
  found by identifier or a POST of a new one);
- it splits the row's media values on `||` into paths that are converted and
  attached.

Modules:

| module | file | models |
|---|---|---|
| `Wrappers` | wrappers.dfy | `Option`, `Result`, and `Call`: a remote request's answer or its transport error |
| `Strings` | strings.dfy | `find`, `rfind`, `split`, `rsplit`, `join`, `replace`, `strip`, `lstrip`, `rstrip`, `str(n)`, `{n:03d}` |
| `Dicts` | dicts.dfy | a Python `dict` as an insertion-ordered list of pairs (`get`, `d[k] = v`, `keys()`) |
| `Paths` | paths.dfy | POSIX `os.path.join`, `os.path.split`, `os.path.splitext`; `pathlib`'s `PurePosixPath` and its `/` |
| `FedoraRules` | fedora_rules.dfy | `load_rules`, `_derive_filename_from_uri`, `apply_rules` |
| `FedoraFetch` | fedora_fetch.dfy | `_download`, `fetch_rdf` |
| `FedoraChunks` | fedora_chunks.dfy | `PREFIX_BLOCK`, `flush_chunk` |
| `FedoraCrawl` | fedora_crawl.dfy | `crawl` |
| `FedoraAssets` | fedora_assets.dfy | the path arithmetic of `download_and_convert`; reading `files.txt` |
| `OmekaQuery` | omeka_query.dfy | `build_sparql`, `run_query` after the request |
| `OmekaItems` | omeka_items.dfy | `find_item_by_identifier` after the request, `create_or_update_item` |
| `OmekaSteps` | omeka_steps.dfy | `main` of the ResearchSpace → Omeka step |

The outside world enters as parameters:
- `FedoraFetch.Server`: the HTTP session's GET and rdflib's Turtle parser.
- `OmekaItems.Api`: the identifier search, the PATCH and the POST.
- The SPARQL endpoint, from query to converted reply (`OmekaQuery.Reply`).
- `OmekaSteps.Services.convert`: `convert_to_jpg`.

Each of these is a total function, so the same request always gets the same
answer. The Omeka API and the SPARQL endpoint answer with a `Call`, so that a
refused connection or a time-out can be told apart from a reply; it raises
out of `main`.

An RDF term has two string views: `str(t)`, used for matching, and `t.n3()`,
used for output. They are two independent fields of `FedoraRules.Term`.
Files that the source writes are returned as `(name, content)` values
(`FedoraChunks.File`), and `attach_media` calls are recorded as actions
(`OmekaSteps.Action`).

The imperative parts of the source are Dafny methods with loops, each proved
equal to a specification function:
- `crawl` (`FedoraCrawl.Crawl`/`Loop`/`Turn`/`ProcessFetched`/`RecordLines` against `Run`/`Step`/`Process`/`Record`);
- the loops of `apply_rules`, `load_rules`, `build_sparql` and `create_or_update_item`;
- the nested loops of `main`.

The properties are then proved as lemmas about those functions.

## Model

| member | source | states |
|---|---|---|
| FedoraRules.LoadRules | fedora_to_rspace/metadata_manager.py:143-154 | A document without `rules` fails. Otherwise there is one normalised rule per record, in order, and each field is `None` exactly when its key is missing. |
| FedoraRules.RelativePathSpec | fedora_to_rspace/metadata_manager.py:159 | The relative path is a suffix of the subject with no `/repo/rest/` in it. When the marker occurs, it sits immediately before that suffix; otherwise the relative path is the whole subject. |
| FedoraRules.FlatNameSpec | fedora_to_rspace/metadata_manager.py:157-162 | The flat name is the relative path, position by position, with every `/` turned into `!`, then `.jpg`. It has no `/`. Turning `!` back into `/` recovers the path when the path had no `!`. |
| FedoraRules.SimpleNameSpec | fedora_to_rspace/metadata_manager.py:161-162 | The simple name ends in `.jpg`, contains no `/`, and its stem is the suffix of the relative path that follows the path's last `/`. |
| FedoraRules.BlankFilenameMeaning | fedora_to_rspace/metadata_manager.py:180 | A filename object counts as blank exactly when, once whitespace is stripped, nothing but `"` characters is left. |
| FedoraRules.MatchingMembers | fedora_to_rspace/metadata_manager.py:186-187 | Selection keeps exactly the catalogue rules with the given predicate and `object_equals`, and is empty exactly when there is none. |
| FedoraRules.MatchingConcat | fedora_to_rspace/metadata_manager.py:186-187 | Selection keeps catalogue order: the rules selected from two stretches of the catalogue come one after the other. |
| FedoraRules.Precedence | fedora_to_rspace/metadata_manager.py:186-188 | If some rule has the predicate and `object_equals == str(o)`, exactly those rules fire. Otherwise exactly the wildcard rules for the predicate fire. |
| FedoraRules.NoPredicateNeverFires | fedora_to_rspace/metadata_manager.py:186-187 | A record without `source_predicate` is never selected. |
| FedoraRules.ExpandConstant | fedora_to_rspace/metadata_manager.py:193-196 | A template with no placeholder and no trailing whitespace is emitted unchanged. |
| FedoraRules.ExpandIsSequential | fedora_to_rspace/metadata_manager.py:193-196 | The two replacements run in sequence: a `?o` inside `s.n3()` is itself replaced by `o.n3()`. |
| FedoraRules.ExpandIsSplitJoin | fedora_to_rspace/metadata_manager.py:193-196 | Expansion is: split on `?s` and join with `s.n3()`, split on `?o` and join with `o.n3()`, then strip trailing whitespace. |
| FedoraRules.ExpandSubjectTemplate | fedora_to_rspace/metadata_manager.py:193-196 | A template made of pieces without `?` joined by `?s` expands, for a subject whose `n3()` has no `?`, to those pieces joined by `s.n3()`, with trailing whitespace stripped. |
| FedoraRules.ExpandAll | fedora_to_rspace/metadata_manager.py:190-197 | The fired rules succeed exactly when each has a template. They then give one expanded line per rule, in order. |
| FedoraRules.ExpandAllStops | fedora_to_rspace/metadata_manager.py:191-195 | The first fired rule without a template decides the error. |
| FedoraRules.TransformTripleCases | fedora_to_rspace/metadata_manager.py:174-199 | An intercepted filename gives exactly the two filename lines. Otherwise, with no fired rule the triple passes through verbatim; with fired rules there is one expanded line per rule, in order. Every successful triple gives at least one line. |
| FedoraRules.ExactBeatsWildcard | fedora_to_rspace/metadata_manager.py:186-197 | With rules `[{p, null, A}, {p, "X", B}]`, a triple `(s, p, "X")` yields only the expansion of `B`. |
| FedoraRules.TransformGraphCoversTriples | fedora_to_rspace/metadata_manager.py:174-199 | No triple is dropped: the output has at least as many lines as the graph has triples. |
| FedoraRules.TransformGraphConcat | fedora_to_rspace/metadata_manager.py:174-199 | Output order follows triple order: two stretches of triples give their lines one after the other. |
| FedoraRules.TransformGraphFailurePersists | fedora_to_rspace/metadata_manager.py:174-197 | Once a prefix of the triples fails, the whole graph fails with that error. |
| FedoraRules.TransformGraphStep | fedora_to_rspace/metadata_manager.py:174-199 | One more triple appends that triple's lines, or fails with its error. |
| FedoraRules.ExpandRules | fedora_to_rspace/metadata_manager.py:190-197 | The inner loop gives the lines of the fired rules, as `ExpandAll` specifies. |
| FedoraRules.ApplyRules | fedora_to_rspace/metadata_manager.py:165-201 | The loop of `apply_rules` computes the graph's transformation, as `TransformGraph` specifies. |
| FedoraFetch.Download | fedora_to_rspace/metadata_manager.py:112-119 | `_download` succeeds with the body exactly when the server answered with a non-error status and a content type that mentions `text/turtle`, `rdf` or `ld+json`. A transport error is reported as such. |
| FedoraFetch.FetchRdf | fedora_to_rspace/metadata_manager.py:121-135 | A fetch succeeds only at the URI asked for or at its `fcr:metadata` endpoint, and only where that URI downloads. A transport error propagates as it is. |
| FedoraFetch.FetchRdfDirect | fedora_to_rspace/metadata_manager.py:121-135 | When the URI downloads there is no retry: the fetch succeeds exactly when its body parses, with the URI itself as the effective URI, and otherwise fails with a parse error at that URI. |
| FedoraFetch.FetchRdfRetries | fedora_to_rspace/metadata_manager.py:125-131 | After an HTTP error or a non-RDF reply at a URI not already ending with `fcr:metadata`, the endpoint is tried once. The fetch succeeds exactly when the endpoint downloads and parses, and then the endpoint is the effective URI. A second download error propagates, and so does a parse failure there. |
| FedoraFetch.FetchRdfEffectiveUri | fedora_to_rspace/metadata_manager.py:122-137 | A successful fetch returns the URI that was actually downloaded and parsed. That is the URI asked for, or its `fcr:metadata` endpoint, and the endpoint only after an HTTP error or a non-RDF reply at a URI that does not already end with `fcr:metadata`. |
| FedoraFetch.NoRetryOfMetadataUri | fedora_to_rspace/metadata_manager.py:126-128 | A URI that already ends with `fcr:metadata` is not retried: its download error propagates, and a success is at that URI itself. |
| FedoraFetch.UnreachableNotRetried | fedora_to_rspace/metadata_manager.py:124-126 | A transport error is not caught for a retry and propagates. |
| FedoraFetch.MetadataUriBinary | fedora_to_rspace/metadata_manager.py:127-131 | The retry URI ends with `/fcr:metadata`, and cutting that off gives the URI without its trailing slashes. |
| FedoraChunks.FlushChunk | fedora_to_rspace/metadata_manager.py:220-241 | Nothing is produced exactly when there are no target lines. Otherwise there are exactly three artefacts, `source-NNN.ttl`, `dataset-NNN.trig` and `insert-NNN.rq`, with their contents. |
| FedoraChunks.IndentLines | fedora_to_rspace/metadata_manager.py:236 | Each line with something other than whitespace gets the prefix; the other lines are kept as they are. |
| FedoraChunks.ChunkIndexWidth | fedora_to_rspace/metadata_manager.py:224-231 | An index below 1000 is written with exactly three digits. |
| FedoraChunks.ChunkFileNameInjective | fedora_to_rspace/metadata_manager.py:224-231 | Different chunk indices give different file names. |
| FedoraChunks.ChunkNamesDisjoint | fedora_to_rspace/metadata_manager.py:224-231 | No artefact of one chunk shares a name with an artefact of another chunk. |
| FedoraChunks.DatasetLinesRoundTrip | fedora_to_rspace/metadata_manager.py:228-229 | Read back line by line, the `.trig` content is the target lines, when none of them contains a newline. |
| FedoraChunks.IndentJoined | fedora_to_rspace/metadata_manager.py:233-238 | Inside `INSERT DATA { GRAPH <g> { ... } }` the target lines appear in order, each indented by twelve spaces. |
| FedoraCrawl.SeedUriSingleSlash | fedora_to_rspace/metadata_manager.py:256 | The seed is the base without trailing slashes, exactly one `/`, then the root without leading slashes. |
| FedoraCrawl.Children | fedora_to_rspace/metadata_manager.py:274-275 | Every child enqueued is the object of an `ldp:contains` triple of the graph. |
| FedoraCrawl.ChildrenComplete | fedora_to_rspace/metadata_manager.py:274-275 | Every `ldp:contains` triple enqueues its object. |
| FedoraCrawl.StepSkipsFailedFetch | fedora_to_rspace/metadata_manager.py:267-272 | A failed fetch only pops the URI: the count, the queue's tail, the buffers and the file URLs are unchanged. |
| FedoraCrawl.StepFetched | fedora_to_rspace/metadata_manager.py:267-286 | The queue is FIFO: the popped URI leaves the front and its children join the back. The turn aborts exactly when the rules fail or the chunk size is 0. Otherwise the count grows by one, and exactly one file URL (the effective URI without `/fcr:metadata`) is appended exactly when the effective URI ends with `/fcr:metadata`. |
| FedoraCrawl.StepBoundary | fedora_to_rspace/metadata_manager.py:288-292 | At `processed % chunk == 0` the buffers, including this resource, are flushed under the current index; then both are empty and the index grows by one. Otherwise nothing is flushed and the buffers grow. |
| FedoraCrawl.ModAbs | fedora_to_rspace/metadata_manager.py:288 | For a negative chunk size, Python's `%` decides a boundary as the absolute value does. |
| FedoraCrawl.InitInv | fedora_to_rspace/metadata_manager.py:256-261 | The initial state satisfies the crawl invariant. |
| FedoraCrawl.StepInv | fedora_to_rspace/metadata_manager.py:266-292 | A turn that does not abort keeps the invariant. The chunk index is 1 + completed chunks = 1 + flushes, and the flushes are numbered 1, 2, 3, …. Every flushed chunk holds two source blocks per resource of a full chunk, and the open chunk two per resource counted since. The cap is respected, with at most one file URL per resource. |
| FedoraCrawl.RunInv | fedora_to_rspace/metadata_manager.py:266-294 | However the loop ends, the flushes carry the indices 1, 2, 3, … in turn. A normal end stopped on an empty queue or on the cap and respected the cap. It made one flush more than the completed chunks: each flush but the last holds a full chunk of source blocks, and the last holds the remaining resources. |
| FedoraCrawl.FiveResourcesThreeChunks | fedora_to_rspace/metadata_manager.py:288-294 | With chunks of 2, a crawl that ends normally after 5 resources flushes indices 1, 2, 3, holding 2, 2 and 1 resources (4, 4 and 2 source blocks). |
| FedoraCrawl.OutputFileList | fedora_to_rspace/metadata_manager.py:294-298 | `files.txt` is written, as the `\n`-join of the file URLs, exactly when the crawl ended normally with at least one file URL. |
| FedoraCrawl.FlushedFilesNames | fedora_to_rspace/metadata_manager.py:224-231 | Every chunk file carries a chunk name. |
| FedoraCrawl.ChunkNameNotFileList | fedora_to_rspace/metadata_manager.py:224-231 | No chunk file is called `files.txt`. |
| FedoraCrawl.EnqueueChildren | fedora_to_rspace/metadata_manager.py:274-276 | The loop appends the children of the graph behind the existing queue. |
| FedoraCrawl.ProcessFetched | fedora_to_rspace/metadata_manager.py:274-292 | The rest of a turn after a successful fetch (enqueue the children, buffer the source, apply the rules) computes the result that `Process` specifies. |
| FedoraCrawl.RecordLines | fedora_to_rspace/metadata_manager.py:279-292 | Buffering the target lines, counting the resource, noting a binary and flushing at a chunk boundary compute what `Record` specifies. |
| FedoraCrawl.Turn | fedora_to_rspace/metadata_manager.py:267-292 | One turn of the loop computes the result that `Step` specifies. |
| FedoraCrawl.Loop | fedora_to_rspace/metadata_manager.py:266-294 | The `while` loop and the final flush compute the outcome that `Run` specifies. |
| FedoraCrawl.Crawl | fedora_to_rspace/metadata_manager.py:255-294 | `crawl` from the seed, with `fetch_rdf` against the server and `apply_rules` with the rules, computes the outcome that `Run` specifies from the initial state. |
| FedoraAssets.TargetOf | fedora_to_rspace/digital_asset_manager.py:33-42 | A URL outside `http://datavault.ficlit.unibo.it/repo/rest/` fails with `ValueError` and nothing else. Otherwise the URL is that prefix plus the relative path. The directory is `Path(out_dir) / head` and the file `directory / name`, where `/` is `pathlib`'s join, `head` is the relative path's directory part and `name` the last component's `.jpg` name. |
| FedoraAssets.TargetFileInDir | fedora_to_rspace/digital_asset_manager.py:37-42 | The directory is a well-formed path, and the file is that directory with the `.jpg` name as one more component. |
| FedoraAssets.TopLevelTarget | fedora_to_rspace/digital_asset_manager.py:37-40 | A binary directly under the repository root is saved in `out_dir` itself. |
| FedoraAssets.TargetUnder | fedora_to_rspace/digital_asset_manager.py:37-42 | A relative directory part adds its components after those of `out_dir`, and the file adds its `.jpg` name after them. |
| FedoraAssets.JpgName | fedora_to_rspace/digital_asset_manager.py:39 | The name ends in `.jpg`, and its stem followed by the original extension is the original name. A name without `/` gives a name without `/`. |
| FedoraAssets.SplitExtOfExtension | fedora_to_rspace/digital_asset_manager.py:39 | A name with a dot after something other than dots loses exactly what follows its last dot. |
| FedoraAssets.SplitExtNoDot | fedora_to_rspace/digital_asset_manager.py:39 | A name without a dot keeps its whole self as the stem. |
| FedoraAssets.RelativePathAgrees | fedora_to_rspace/digital_asset_manager.py:37 | For a URL with no further `/repo/rest/`, the downloader's relative path is the crawler's. |
| FedoraAssets.CrawlerSimpleName | fedora_to_rspace/digital_asset_manager.py:38 | For such a URL, the crawler's simple name is the downloader's last component plus `.jpg`. |
| FedoraAssets.AgreesWithCrawler | fedora_to_rspace/digital_asset_manager.py:38-42 | The downloader's file is the target directory joined with the crawler's simple name exactly when the last component has no extension. |
| FedoraAssets.TifExample | fedora_to_rspace/digital_asset_manager.py:37-42 | `…/repo/rest/A/B/C.tif` is saved as `C.jpg` in `out_dir`'s components followed by `A`, `B`, while the crawler names it `C.tif.jpg`. |
| FedoraAssets.FileLines | fedora_to_rspace/digital_asset_manager.py:71-72 | The lines of the text as read rejoin to it. Each line is non-empty, and every line but the last ends in its only newline. |
| FedoraAssets.UniversalNewlines | fedora_to_rspace/digital_asset_manager.py:71 | Text read in text mode holds no `\r`, and a text without `\r` is read as it is. |
| FedoraAssets.LineEndRead | fedora_to_rspace/digital_asset_manager.py:71 | `\n`, `\r\n` and a lone `\r` each read as one `\n`. |
| FedoraAssets.NewlineJoin | fedora_to_rspace/digital_asset_manager.py:71 | URLs joined with any of those line ends read as their `\n`-join. |
| FedoraAssets.KeepLines | fedora_to_rspace/digital_asset_manager.py:72 | The filter keeps at most one non-empty entry per line. |
| FedoraAssets.KeepLinesConcat | fedora_to_rspace/digital_asset_manager.py:72 | The filter works line by line and keeps order. |
| FedoraAssets.ListableKept | fedora_to_rspace/digital_asset_manager.py:72 | A URL with no surrounding whitespace and no leading `#` is kept as it is, with or without its newline. |
| FedoraAssets.FileListRoundTrip | fedora_to_rspace/digital_asset_manager.py:71-72 | `files.txt` round trip (written at fedora_to_rspace/metadata_manager.py line 298): URLs joined with `\n`, `\r\n` or `\r` read back unchanged, when no URL is empty, has surrounding whitespace, starts with `#` or contains `\n` or `\r`. |
| FedoraAssets.KeptLinesOfJoin | fedora_to_rspace/digital_asset_manager.py:72 | The filter gives back the URLs from the lines of their `\n`-join. |
| OmekaQuery.PrefixLines | rspace_to_omekas/metadata_manager.py:31-32 | One `PREFIX k: <v>` per entry, in map order. |
| OmekaQuery.PrefixBlockEmpty | rspace_to_omekas/metadata_manager.py:31-32 | The prefix block is empty exactly when `prefixes` is absent or empty. |
| OmekaQuery.PrefixBlockLines | rspace_to_omekas/metadata_manager.py:31-32 | Read back line by line, the block is one `PREFIX k: <v>` per entry, in order. |
| OmekaQuery.SelectItems | rspace_to_omekas/metadata_manager.py:42-44 | One `(expr AS as)` per field, in field order. |
| OmekaQuery.SelectLineShape | rspace_to_omekas/metadata_manager.py:39-53 | The SELECT line is the subject variable, then, when there are fields, a space and their items joined by spaces. |
| OmekaQuery.WhereBodyStart | rspace_to_omekas/metadata_manager.py:40-54 | The WHERE clause always starts with `<subject_var> a <class> .`. |
| OmekaQuery.WhereItems | rspace_to_omekas/metadata_manager.py:46-51 | At most one block per field. |
| OmekaQuery.WhereItemsSingle | rspace_to_omekas/metadata_manager.py:46-51 | A field adds exactly one block when its `where` is present and non-empty, and none otherwise. |
| OmekaQuery.WhereItemsConcat | rspace_to_omekas/metadata_manager.py:42-51 | The blocks follow field order. |
| OmekaQuery.WhereBlockShape | rspace_to_omekas/metadata_manager.py:47-51 | A required field's block starts with its first pattern. Any other field's block is wrapped in `OPTIONAL {` … `}`. |
| OmekaQuery.QueryLayout | rspace_to_omekas/metadata_manager.py:37-64 | The query opens with the prefix block, then `SELECT` and the subject variable. It ends by grouping by the subject variable and ordering by `order_by`, or by the subject variable when `order_by` is absent. |
| OmekaQuery.BuildSparql | rspace_to_omekas/metadata_manager.py:30-65 | The loop over the fields and the final assembly give the query that `Query` specifies. |
| OmekaQuery.RunQuery | rspace_to_omekas/metadata_manager.py:26-28 | A reply that is a dict with `results.bindings` gives those bindings. Any other reply gives no rows. |
| OmekaItems.PropertyId | rspace_to_omekas/metadata_manager.py:90-125 | Only `dcterms:` properties have an id. |
| OmekaItems.PublishableHasColon | rspace_to_omekas/metadata_manager.py:90-132 | A property of the table is `dcterms:` plus a name without a colon, and its id is never 0 (so `if not prop_id` only skips unknown properties). |
| OmekaItems.LocalNameOfTerm | rspace_to_omekas/metadata_manager.py:132 | `prop.split(":")[1]` of a table property is its name after `dcterms:`. |
| OmekaItems.Capitalize | rspace_to_omekas/metadata_manager.py:132 | The label has the same length, the first character upper case and the rest lower case. |
| OmekaItems.BuildPayload | rspace_to_omekas/metadata_manager.py:108-135 | The loop over `fields.items()` builds the payload that `PayloadOf` specifies. |
| OmekaItems.PayloadMembers | rspace_to_omekas/metadata_manager.py:108-135 | The payload always has the identifier entry with id 10 and the `uri` argument, whatever `fields` holds. A publishable property carries the field's value with the table id and the capitalised label, or is absent. Every other member is the base payload's. |
| OmekaItems.BaseNotPublishable | rspace_to_omekas/metadata_manager.py:108-129 | No field overwrites a base member. |
| OmekaItems.PayloadKeys | rspace_to_omekas/metadata_manager.py:108-135 | The payload's keys are the base keys followed by the published properties, in field order. |
| OmekaItems.PublishedKeys | rspace_to_omekas/metadata_manager.py:122-129 | Only publishable properties are published. |
| OmekaItems.FindItem | rspace_to_omekas/metadata_manager.py:82-86 | The lookup gives the first element of a non-empty list and `None` otherwise, including when the body is not JSON. |
| OmekaItems.CreateOrUpdateItem | rspace_to_omekas/metadata_manager.py:88-155 | The payload loop, the lookup and one PATCH or POST compute what `UpsertItem` specifies. |
| OmekaItems.UpsertOutcomes | rspace_to_omekas/metadata_manager.py:137-155 | `"updated"` exactly when an item was found and its PATCH returned 200/201, under that item's id. `"created"` exactly when none was found and the POST returned 200/201 with an object, under the reply's id. `(None, None)` exactly when the chosen request returned another status. A transport error of that request raises. |
| OmekaItems.SearchUnreachable | rspace_to_omekas/metadata_manager.py:81 | A transport error of the identifier search raises out of `create_or_update_item`. |
| OmekaSteps.RowKey | rspace_to_omekas/step_manager.py:24 | The key is `r["s"]["value"]`, and a missing member raises. |
| OmekaSteps.Assignment | rspace_to_omekas/step_manager.py:28-32 | A field assigns exactly when both its property and its bound value are non-empty, and it assigns that value to that property. |
| OmekaSteps.AssignmentsAt | rspace_to_omekas/step_manager.py:27-32 | The assignment at position `i` is that of field `i`. |
| OmekaSteps.CollectFields | rspace_to_omekas/step_manager.py:25-32 | The field loop builds the dictionary that `FieldsOf` specifies. |
| OmekaSteps.FieldsOfLastWriter | rspace_to_omekas/step_manager.py:27-32 | A property is present exactly when some field assigns it, and its value is the one assigned by the last such field. |
| OmekaSteps.FieldsOfValue | rspace_to_omekas/step_manager.py:27-32 | A present property is non-empty, and its value is the bound value of a field with that property. |
| OmekaSteps.FieldsOfLastField | rspace_to_omekas/step_manager.py:27-32 | The last field that assigns a property decides its value: later fields overwrite. |
| OmekaSteps.MediaPieces | rspace_to_omekas/step_manager.py:38-44 | Only an `o:media` field with a non-empty value has pieces: its value split on `\|\|`. |
| OmekaSteps.MediaPathOfFlatName | rspace_to_omekas/step_manager.py:45 | Round trip with the crawler (fedora_to_rspace/metadata_manager.py line 160): the flat name turned back into a path is the relative path plus `.jpg`, when the path had no `!`. |
| OmekaSteps.ConvertedPaths | rspace_to_omekas/step_manager.py:44-47 | At most one path per piece, each non-empty and the conversion of one piece's candidate path. |
| OmekaSteps.ConvertedPathsAll | rspace_to_omekas/step_manager.py:46-47 | When every conversion succeeds there is one path per piece, in order. |
| OmekaSteps.ConvertedPathsNone | rspace_to_omekas/step_manager.py:46-47 | When no conversion gives a path, nothing is attached. |
| OmekaSteps.MediaPlan | rspace_to_omekas/step_manager.py:38-47 | Every attached path is the non-empty conversion of a piece of an `o:media` field. |
| OmekaSteps.AttachCalls | rspace_to_omekas/step_manager.py:48 | One `attach_media` call per path, in order, with the same item and the row's `dcterms:title`. |
| OmekaSteps.Attachments | rspace_to_omekas/step_manager.py:37-48 | (Corrected guard.) Media are attached only to a saved item, under its id, and all of them are attached when it was saved. |
| OmekaSteps.FailedSaveStillAttaches | rspace_to_omekas/step_manager.py:35-48 | As written, a failed save `(None, None)` still attaches media, to the pair itself; the corrected guard attaches nothing. |
| OmekaSteps.RowResults | rspace_to_omekas/step_manager.py:23-48 | One result per row, in order, each that row's outcome as written. |
| OmekaSteps.RowResultsCorrected | rspace_to_omekas/step_manager.py:23-48 | One result per row, in order, each that row's outcome with the corrected guard. |
| OmekaSteps.RowOutcomesAgree | rspace_to_omekas/step_manager.py:35-48 | As written and corrected, a row raises alike and saves alike. A saved item gets one call per planned path in both, to the pair as written and to the id when corrected; a failed save gets those calls as written and none when corrected. |
| OmekaSteps.RunCorrectedAttachesSavedItems | rspace_to_omekas/step_manager.py:35-48 | With the corrected guard every media call goes to a saved item's id, and the run raises exactly as the run as written does. |
| OmekaSteps.RunResultsFrom | rspace_to_omekas/step_manager.py:23-48 | Every effect of the loop comes from a row handled without an exception. |
| OmekaSteps.ProcessRow | rspace_to_omekas/step_manager.py:24-48 | The body of the row loop computes the outcome as written that `RowOutcome` specifies: a raised key or save error, or the save followed by one `attach_media` call per planned path, each given the `(id, status)` pair as the item. |
| OmekaSteps.MediaLoop | rspace_to_omekas/step_manager.py:38-47 | The media loop computes the paths that `MediaPlan` specifies. |
| OmekaSteps.ConvertPieces | rspace_to_omekas/step_manager.py:44-47 | The loop over one value's pieces computes what `ConvertedPaths` specifies. |
| OmekaSteps.ProcessRows | rspace_to_omekas/step_manager.py:18-48 | `main` sends the query; a transport error of the endpoint raises before any row. Otherwise the outcome is the one `Run` specifies for the query's rows, as written. |
| OmekaSteps.HandleRows | rspace_to_omekas/step_manager.py:23-48 | The row loop computes the outcome that `Run` specifies. |
| OmekaSteps.RunAfterCrash | rspace_to_omekas/step_manager.py:23-48 | Once a row raises, later rows have no effect. |
| OmekaSteps.RunCompletes | rspace_to_omekas/step_manager.py:23-48 | The loop ends normally exactly when every row is handled without an exception. |
| OmekaSteps.RunPrefix | rspace_to_omekas/step_manager.py:23-48 | The effects of the first rows stay at the front of all effects. |
| Strings.SplitPiecesAvoidSeparator | fedora_to_rspace/metadata_manager.py:159-161 | No piece of `split(sep)` contains the separator. |
| Strings.SplitLastIsSuffix | fedora_to_rspace/metadata_manager.py:159 | The last piece of a split (`[-1]`) is a suffix of the string. |
| Strings.SplitLastPreceded | fedora_to_rspace/metadata_manager.py:159 | When the separator occurs, the last piece directly follows an occurrence of it. |
| Strings.SplitJoin | fedora_to_rspace/metadata_manager.py:228 | Splitting a join recovers the parts, when no part contains the separator's first character. |
| Strings.JoinSplit | rspace_to_omekas/step_manager.py:44 | Joining the pieces of a split gives back the string. |
| Strings.ReplaceCharAt | fedora_to_rspace/metadata_manager.py:160 | Replacing one character by another acts position by position. |
| Strings.ReplaceCharRoundTrip | fedora_to_rspace/metadata_manager.py:160 | Replacing `a` by `b` and back is the identity when `b` did not occur. |
| Strings.ReplaceIsJoinSplit | fedora_to_rspace/metadata_manager.py:194-195 | `s.replace(pat, rep)` is `rep.join(s.split(pat))`. |
| Strings.ReplaceAtFirst | fedora_to_rspace/metadata_manager.py:194-195 | Text before the first occurrence is kept, the occurrence becomes `rep`, and the rest is replaced in turn. |
| Strings.RSplitOnceHeadOfSuffix | fedora_to_rspace/metadata_manager.py:285 | When the string ends with the separator, `rsplit(sep, 1)[0]` removes exactly that suffix. |
| Strings.RStrip | fedora_to_rspace/metadata_manager.py:196 | `rstrip` removes exactly the trailing run of the given characters. |
| Strings.ZeroPad | fedora_to_rspace/metadata_manager.py:224 | `{idx:03d}` is all digits, at least three wide, and exactly three wide when the number has at most three digits. |
| Strings.ZeroPadValue | fedora_to_rspace/metadata_manager.py:224 | The padded form, read back as a number, is the number it was made from. |
| Strings.ZeroPadInjective | fedora_to_rspace/metadata_manager.py:224 | Distinct numbers pad to distinct strings. |
| Strings.DecimalRoundTrip | fedora_to_rspace/metadata_manager.py:278 | `str(n)`, read back as a number, is `n`. |
| Paths.PathJoin | rspace_to_omekas/step_manager.py:45 | An absolute second part replaces the first. Otherwise the result is the first part, then one `/` unless the first is empty or already ends with one, then the second part. |
| Paths.PathSplit | fedora_to_rspace/digital_asset_manager.py:38 | The tail is what follows the last `/`. The head is what precedes it, with trailing slashes removed unless it is all slashes. |
| Paths.PathSplitTailIsLastSegment | fedora_to_rspace/digital_asset_manager.py:38 | `os.path.split(p)[1]` equals `p.split("/")[-1]`. |
| Paths.SplitExt | fedora_to_rspace/digital_asset_manager.py:39 | Stem and extension rejoin to the name. A non-empty extension starts with its only dot. |
| Paths.ParsePath | fedora_to_rspace/digital_asset_manager.py:40 | `PurePosixPath(s)` is rooted exactly when `s` starts with `/`. A string is one of its components exactly when it is a piece of `s` between slashes that is neither empty nor `.`. |
| Paths.Components | fedora_to_rspace/digital_asset_manager.py:40 | The kept pieces are exactly the given pieces that are neither empty nor `.`. |
| Paths.ComponentsSingle | fedora_to_rspace/digital_asset_manager.py:40 | One piece is kept exactly when it is neither empty nor `.`. |
| Paths.ComponentsConcat | fedora_to_rspace/digital_asset_manager.py:40 | Filtering a concatenation filters each half, so the kept pieces keep their order. |
| Paths.ParseCollapses | fedora_to_rspace/digital_asset_manager.py:40 | `PurePosixPath("a//./b")` is the relative path with components `a` and `b`. |
| Paths.ParsePathWellFormed | fedora_to_rspace/digital_asset_manager.py:40 | No parsed component is empty, `.`, or holds `/`. |
| Paths.JoinPath | fedora_to_rspace/digital_asset_manager.py:40-42 | `a / b`: a rooted `b` replaces `a`. Otherwise the components of `b` follow those of `a`, and well-formed paths join to a well-formed path. |
| Paths.ParsePathStr | fedora_to_rspace/digital_asset_manager.py:40-42 | Parsing the string of a well-formed path gives the path back. |
| Paths.ParseComponent | fedora_to_rspace/digital_asset_manager.py:42 | A non-empty name other than `.` without `/` parses as a one-component relative path. |
| Paths.ParseEmpty | fedora_to_rspace/digital_asset_manager.py:40 | The empty string parses as the empty relative path, so joining it changes nothing. |
| Paths.ParseRelative | fedora_to_rspace/digital_asset_manager.py:40 | The `/`-join of components parses back as those components. |
| Paths.ParseRooted | fedora_to_rspace/digital_asset_manager.py:40 | `/` followed by the `/`-join of components parses back as the rooted path of those components. |
| Dicts.PutEachLastWriter | rspace_to_omekas/step_manager.py:30-32 | After a sequence of assignments, a key is present exactly when some assignment wrote it, with the value of the last one. |
| Dicts.Put | rspace_to_omekas/metadata_manager.py:129 | `d[k] = v`: `k` maps to `v`, every other key keeps its value, an existing key keeps its position and a new key goes last. |

## Left out

- HTTP transport, authentication and sessions (`build_session`, `session.get`, `requests.*`, `SPARQLWrapper`). They are the parameters `Server.get`, `Api` and the endpoint. Each request is answered the same way every time, and a time-out is a transport error. A transport error raises; which exception class it is is not modelled.
- rdflib: Turtle parsing and serialisation are the parameter `Server.parse` and the `turtle` field of a graph. `str(t)` and `t.n3()` are independent fields of a term. The `o_str is None` branch of `apply_rules` is not modelled: every rdflib term is an `Identifier`, so that branch cannot be taken.
- The `mime_lookup` pass of `apply_rules` (fedora_to_rspace/metadata_manager.py:167-172): it has no effect on the output.
- FedoraChunks.FlushChunk: the insert query is modelled as the prefix block, the header, the indented lines and the footer. The column layout that `textwrap.dedent` gives the whole query is not proved; only the order and the indentation of the target lines inside it are. `Indent` treats only `\n` as a line break; `textwrap.indent` splits with `str.splitlines`, which also breaks after `\r`, `\v`, `\f`, `\x1c`–`\x1e`, `\x85`, U+2028 and U+2029, so a target line holding one of those (rdflib's `n3()` escapes `\r` but not the others) would be indented piece by piece in the program and as one line here.
- YAML and JSON loading, module-level configuration reads, `mkdir`, and file writes. Writes are returned `(name, content)` values.
- Image conversion (PIL, `convert_to_jpg`): it is the parameter `Services.convert`. The internals of `attach_media` are not modelled: the `is_file` check, the media-existence GET, the upload POST (whose transport error would raise out of `main`), and the default title `path.stem`. Its calls are recorded as actions.
- The downloader's thread pool, its HTTP GET and its image conversion (fedora_to_rspace/digital_asset_manager.py:44-56, 74-82). Only the path arithmetic and the `files.txt` filter are modelled.
- orchestrator.py, fedora_to_rspace/step_manager_fedora_rs.py and validate_performance.py: process wrappers, CLI and timing.
- Logging, `print`, `time.perf_counter`, argument parsing.
- FedoraCrawl.Crawl: the loop is bounded by a `fuel` count of turns. With `max_res == 0` and a cycle of `ldp:contains` links the source loops forever; the model then ends with `OutOfFuel`.
- OmekaItems.Capitalize: ASCII case mapping only; Python's `capitalize` also maps non-ASCII letters.
- OmekaItems.FindItem: JSON numbers are integers; a float id is not distinguished.
- Paths.PathJoin: POSIX `os.path.join` only; Windows drives and `\` separators are not modelled.
- FedoraAssets.TargetOf: `pathlib` is modelled as POSIX `PurePosixPath`. A path that starts with exactly two slashes, which `pathlib` keeps as the distinct root `//`, is treated as rooted at `/`. `mkdir` and the file system (symbolic links, `..` resolution) are not consulted; `..` is kept as a component, as `pathlib` does.
- FedoraRules.LoadRules: a catalogue entry is a map from keys to strings. A YAML `null` is read as a missing key, which is what `r.get(key)` makes of it. A non-string value, such as a numeric `object_equals` that can never equal `str(o)`, cannot be written.
- FedoraCrawl.Children: a graph's triples are a sequence, and children are enqueued in its order. rdflib's `triples()` iterates in an order of its own, which the model takes as given.
- OmekaSteps.ProcessRow: a row that raises is modelled as ending the run with the effects of the earlier rows. The partial effects of the failing row itself (a POST that was sent before the exception) are not recorded.

## Findings

| source | as written | input that shows it | evidently intended | confidence | as-written member | corrected member |
|---|---|---|---|---|---|---|
| rspace_to_omekas/step_manager.py:35-37 | `item_id = create_or_update_item(...)` binds the whole `(id, status)` pair, so `if item_id:` is always true, and the pair is what is passed to `attach_media` as the item (line 48) | a row whose PATCH or POST answers with a status outside {200, 201}: the call returns `(None, None)`, a non-empty tuple, and the row's media are still converted and attached | test the id component, and pass the id | not executed | OmekaSteps.AttachmentsAsWritten (used by OmekaSteps.RowOutcome and OmekaSteps.Run; exhibited by OmekaSteps.FailedSaveStillAttaches) | OmekaSteps.Attachments (used by OmekaSteps.RowOutcomeCorrected and OmekaSteps.RunCorrected; related by OmekaSteps.RowOutcomesAgree) |
