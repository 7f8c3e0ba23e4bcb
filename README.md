# entityfactspicturesharvester in Dafny

A Dafny model of the per-record logic of `entityfactspicturesharvester`. The tool reads
line-delimited EntityFacts sheets. For each sheet with a depiction, it downloads the
picture and the thumbnail into a directory as `image_<GND id>.<ext>` and
`thumbnail_<GND id>.<ext>`.

The model covers:

- **`PyStr`**: Python's `str.rfind` for one character and the substring test `sub in s`.
  It also gives the "last split" view of a string around a character, which the
  proofs use in place of index arithmetic.
- **`Json`**: decoded JSON values, plus Python's `key in v` and `v[key]` on them. Only a
  dict yields a value. A str or list can make the test false. A str, list, number, bool
  or null can also make the test or the subscript raise a `TypeError`. Exceptions are
  the `Raise` case of `Outcome`. A skip (`return None`) is `Skip`.
- **`Extractor`**: `get_depiction_json`. The GND identifier is the text after the last
  `/` of `@id`, and only when that `/` is past index 0. The depiction is passed on
  untouched.
- **`Resolver`**: `get_picture_url` and `get_thumbnail_url`. Both extensions are cut
  with `rfind` exactly as the code cuts them. The model also proves that no extension
  contains a `.`. From that it follows that file names are injective in
  (identifier, extension), and that image and thumbnail names never collide.
- **`Pipeline`**: a sequential abstraction of `run`/`do_harvesting`. The extractor
  stream stops at the first malformed line or exception. Each content pipeline
  resolves, fetches and writes each tuple in arrival order. A non-200 status drops the
  tuple. A transport failure ends only that pipeline. The destination directory is a
  map from path to bytes. HTTP is the function parameter `fetch`.

Behaviours of the code a reader might not expect, which the model keeps:

- The thumbnail extension is cut at the **last** `?` of the text after the last `.`
  (`rfind`, line 128).
- A thumbnail URL with no `?` past index 0 of that text is **skipped** (lines 129-136).
- The identifier may be **empty**, when `@id` ends in `/` (`GndIdEmptyIff`).
- A `/` or `.` at index 0 counts as absent, because every guard is `> 0`.
- A non-string `@id` always raises `AttributeError` on `.rfind`. A non-dict sheet or
  depiction skips or raises `TypeError`, as Python's `in` decides.

## Model

| member | source | states |
|---|---|---|
| `PyStr.RFind` | entityfactspicturesharvester/entityfactspicturesharvester.py:49 | `rfind`: -1 or an index holding the character, with no occurrence after it |
| `PyStr.RFindPositive` | entityfactspicturesharvester/entityfactspicturesharvester.py:49-50 | the guard `rfind(c) > 0` holds iff `c` occurs somewhere past index 0 |
| `PyStr.RFindSplits` | entityfactspicturesharvester/entityfactspicturesharvester.py:49-51 | cutting at `rfind` gives `head + [c] + tail` with no `c` in `tail` |
| `PyStr.RFindOfLastSplit` | entityfactspicturesharvester/entityfactspicturesharvester.py:83-85 | conversely, any split around the last `c` sits where `rfind` points |
| `PyStr.LastSplitUnique` | entityfactspicturesharvester/entityfactspicturesharvester.py:92 | a string has only one split around its last `c` |
| `PyStr.Contains` | entityfactspicturesharvester/entityfactspicturesharvester.py:43 | str `in`: true for the empty needle and for the whole string, false for a needle longer than the string |
| `Json.Lookup` | entityfactspicturesharvester/entityfactspicturesharvester.py:43-47 | `key in v` / `v[key]`: a value only from a dict holding the key; a dict never raises; a str raises iff it contains the key; a list raises iff it holds the key as an element; null, a bool or a number always raises; any exception is a `TypeError` |
| `Extractor.GetDepictionJson` | entityfactspicturesharvester/entityfactspicturesharvester.py:40-71 | a tuple only for a dict sheet with a string `@id` and a `depiction`; the depiction is passed on unchanged; the identifier is the tail after the last `/`, which lies past index 0, so it has no `/` |
| `Extractor.GetDepictionJsonOutcome` | entityfactspicturesharvester/entityfactspicturesharvester.py:43-63 | for a dict sheet: it raises (`AttributeError`) iff `@id` is present but not a string; it yields a tuple iff `@id` is a string with a `/` past index 0 and `depiction` is present; otherwise it skips |
| `Extractor.ScalarSheetRaises` | entityfactspicturesharvester/entityfactspicturesharvester.py:43 | a sheet that is null, a bool or a number raises `TypeError` at the first `in` test, so it ends the extractor stream |
| `Extractor.GndIdEmptyIff` | entityfactspicturesharvester/entityfactspicturesharvester.py:49-51 | the identifier is empty exactly when `@id` ends in `/` |
| `Resolver.GetPictureUrl` | entityfactspicturesharvester/entityfactspicturesharvester.py:74-99 | the url is the depiction's `@id` unchanged, the id is passed through, and the name is `image_` + id + `.` + the text after the url's last `.` (past index 0) |
| `Resolver.PictureUrlOutcome` | entityfactspicturesharvester/entityfactspicturesharvester.py:75-90 | for a dict depiction: it raises iff `@id` is not a string; it yields a target iff `@id` is a string with a `.` past index 0; otherwise it skips |
| `Resolver.GetThumbnailUrl` | entityfactspicturesharvester/entityfactspicturesharvester.py:102-149 | a target only from a dict depiction whose `thumbnail` is a dict with `@id` equal to the url; the id is passed through |
| `Resolver.ThumbnailFileNameShape` | entityfactspicturesharvester/entityfactspicturesharvester.py:119-138 | the thumbnail name is `thumbnail_` + id + `.` + ext, where the url is `head . ext ? query`, the `.` is the last one, the `?` is the last one after it, and both are past index 0 |
| `Resolver.ThumbnailCutsSplit` | entityfactspicturesharvester/entityfactspicturesharvester.py:119-130 | the pieces the code cuts form such a thumbnail split |
| `Resolver.ThumbnailSplitFound` | entityfactspicturesharvester/entityfactspicturesharvester.py:119-130 | conversely, for any thumbnail split the code's two `rfind` cuts land exactly on it |
| `Resolver.ThumbnailUrlFoundIff` | entityfactspicturesharvester/entityfactspicturesharvester.py:103-136 | for a dict depiction: it yields a target iff `thumbnail` is a dict whose `@id` is a string that admits a thumbnail split |
| `Resolver.ThumbnailUrlOutcome` | entityfactspicturesharvester/entityfactspicturesharvester.py:111-119 | for a dict depiction: a dict `thumbnail` raises iff its `@id` is present but not a string, and then with `AttributeError`; a null, bool or number `thumbnail` raises `TypeError` |
| `Resolver.ThumbnailUrlSkips` | entityfactspicturesharvester/entityfactspicturesharvester.py:103-136 | it skips when `thumbnail` is missing, when a `thumbnail` dict lacks `@id`, or when the string `@id` has no thumbnail split |
| `Resolver.ThumbnailQueryExample` | entityfactspicturesharvester/entityfactspicturesharvester.py:128-138 | `http://host/path/thumb.jpg?size=100` gives `thumbnail_<id>.jpg` |
| `Resolver.ThumbnailWithoutQueryExample` | entityfactspicturesharvester/entityfactspicturesharvester.py:128-136 | `http://host/path/thumb.jpg` (no query string) is skipped |
| `Resolver.FileName` | entityfactspicturesharvester/entityfactspicturesharvester.py:92 | the name starts with the prefix, and a dot-free ending is exactly the text after the name's last `.` |
| `Resolver.Resolve` | entityfactspicturesharvester/entityfactspicturesharvester.py:223-224 | the content type picks the resolver; only a dict depiction resolves, and the target keeps the tuple's identifier |
| `Resolver.ResolvedNameShape` | entityfactspicturesharvester/entityfactspicturesharvester.py:83-138 | both resolvers name the file prefix + id + `.` + ext with no `.` in ext |
| `Resolver.FileNameInjective` | entityfactspicturesharvester/entityfactspicturesharvester.py:92 | with dot-free extensions, `prefix + id + "." + ext` determines id and ext |
| `Resolver.PrefixesNeverCollide` | entityfactspicturesharvester/entityfactspicturesharvester.py:26-27 | an `image_` name never equals a `thumbnail_` name |
| `Resolver.ResolvedNamesDistinct` | entityfactspicturesharvester/entityfactspicturesharvester.py:138 | two resolved targets with the same name have the same content type and the same identifier |
| `Pipeline.JoinPath` | entityfactspicturesharvester/entityfactspicturesharvester.py:175 | `os.path.join`: a relative name ends the path and the directory starts it; an absolute name replaces it |
| `Pipeline.JoinPathInjective` | entityfactspicturesharvester/entityfactspicturesharvester.py:175 | joining one directory with two different relative names gives two different paths |
| `Pipeline.ResolvedNameRelative` | entityfactspicturesharvester/entityfactspicturesharvester.py:175 | resolved names are relative, so the join keeps them under the directory |
| `Pipeline.RetrieveContent` | entityfactspicturesharvester/entityfactspicturesharvester.py:152-188 | a write of exactly the fetched bytes iff the status is 200; a raise iff the transport fails; a skip otherwise |
| `Pipeline.Process` | entityfactspicturesharvester/entityfactspicturesharvester.py:173-188 | a tuple that does not resolve writes nothing; a resolved one is written iff its fetch returns 200, to the directory joined with its name, with the fetched bytes, yielding its identifier; it raises iff the fetch's transport fails |
| `Pipeline.WriteContentToFile` | entityfactspicturesharvester/entityfactspicturesharvester.py:198-207 | after the write the path holds exactly the bytes, other files are unchanged, and the identifier is returned |
| `Pipeline.FaultFreePrefix` | entityfactspicturesharvester/entityfactspicturesharvester.py:230-234 | the tuples before the first one on which the pipeline raises: none of them raises, and the one after them does |
| `Pipeline.Harvest` | entityfactspicturesharvester/entityfactspicturesharvester.py:216-236 | no file is lost; the identifiers reported processed are exactly those of the tuples fetched with 200 before the first exception, in arrival order; the pipeline ends with that exception, or with the upstream outcome when none occurs |
| `Pipeline.FetchedIdsMembers` | entityfactspicturesharvester/entityfactspicturesharvester.py:225-228 | an identifier is among the fetched ones iff some tuple with that identifier resolves and is fetched with 200 |
| `Pipeline.HarvestReportsEveryFetch` | entityfactspicturesharvester/entityfactspicturesharvester.py:222-233 | every reported identifier belongs to a tuple fetched with 200, and every such tuple before the first exception is reported, whatever was skipped before it |
| `Pipeline.FaultFreeLines` | entityfactspicturesharvester/entityfactspicturesharvester.py:268-269 | the lines before the first malformed line or raising sheet: none of them faults, and the one after them does |
| `Pipeline.ExtractAll` | entityfactspicturesharvester/entityfactspicturesharvester.py:268-269 | the stream is exactly the tuples the sheets before the first fault yield, in order, followed by that fault's error (none when no line faults) |
| `Pipeline.YieldedTuplesMembers` | entityfactspicturesharvester/entityfactspicturesharvester.py:268-269 | a tuple is among the yielded ones iff some line is a sheet on which `get_depiction_json` yields it |
| `Pipeline.ExtractAllComplete` | entityfactspicturesharvester/entityfactspicturesharvester.py:268-269 | a sheet that yields a tuple reaches the pipelines, whatever lines were skipped before it, unless an earlier line aborts the stream |
| `Pipeline.Harvester` | entityfactspicturesharvester/entityfactspicturesharvester.py:266-288 | the directory holds the existing files plus both pipelines' files; existing files nobody wrote keep their content |
| `Pipeline.ProcessPathsDistinct` | entityfactspicturesharvester/entityfactspicturesharvester.py:173-176 | two writes to one path come from the same content type and the same GND identifier |
| `Pipeline.HarvestOnlyWritesFetched` | entityfactspicturesharvester/entityfactspicturesharvester.py:222-228 | every file a pipeline leaves is untouched or holds the 200 body of a tuple that resolved to that path; skipped tuples and non-200 fetches write nothing |
| `Pipeline.HarvestStopsAtFault` | entityfactspicturesharvester/entityfactspicturesharvester.py:230-236 | the first exception ends the pipeline: its files and processed ids are those of the tuples before it, and it reports that exception |
| `Pipeline.HarvestKeepsEverySuccess` | entityfactspicturesharvester/entityfactspicturesharvester.py:198-207 | with distinct ids and no exception, every fetched tuple's file holds exactly its bytes and its id is reported processed |
| `Pipeline.HarvestFileCount` | entityfactspicturesharvester/entityfactspicturesharvester.py:222-228 | with distinct ids, no exception and no name already taken, one new file per processed id |
| `Pipeline.ExtractedFromSheets` | entityfactspicturesharvester/entityfactspicturesharvester.py:268-269 | every tuple sent downstream comes from a sheet on which `get_depiction_json` yields it |
| `Pipeline.ExtractStopsAtFault` | entityfactspicturesharvester/entityfactspicturesharvester.py:268-270 | a malformed line or a raising sheet aborts the stream: the tuples are those of the earlier lines, then that error |
| `Pipeline.ExtractAllValid` | entityfactspicturesharvester/entityfactspicturesharvester.py:268-269 | when every sheet yields a tuple, the stream is exactly those tuples, in order, with no error |
| `Pipeline.PipelinesWriteDisjointFiles` | entityfactspicturesharvester/entityfactspicturesharvester.py:272-286 | the picture and thumbnail pipelines never write the same path, so the directory does not depend on the order of their writes |
| `Pipeline.EveryFileTracesToASheet` | entityfactspicturesharvester/entityfactspicturesharvester.py:266-288 | every new file comes from an extracted sheet whose URL resolved and was fetched with 200, and holds those bytes |
| `Pipeline.SingleSheetRun` | entityfactspicturesharvester/entityfactspicturesharvester.py:272-288 | for one valid sheet, each content type writes its bytes, writes nothing when it skips, or fails alone; the other type's outcome plays no part |
| `Pipeline.AllSheetsHarvested` | entityfactspicturesharvester/entityfactspicturesharvester.py:266-288 | N valid sheets with distinct ids, all resolved and fetched, leave exactly N image files, N thumbnail files, 2N files in all, and both pipelines complete |

## Left out

- `json.loads` (line 41): a line is either an already decoded `Json` value or
  `Malformed`, which raises `JsonDecodeError`. JSON numbers are kept as integers,
  because no number is ever inspected.
- Reading standard input (`push_input`, lines 210-213), argument parsing (lines
  240-258), and building the User-Agent header from the host name (lines 262-264).
  These are I/O and environment.
- HTTP transport (lines 159-167): the request headers, the 60-second timeout and
  `response.close` are not modelled. `fetch` is a deterministic function from URL to a
  status and body, or to a transport failure.
- `RetrieveContent`: does not model the `UnicodeDecodeError` that line 161 can raise
  when it decodes a non-200 body that is not UTF-8. It is only there to build a log
  message, and every non-200 response is a skip in the model. In the program that
  exception ends the pipeline, just as a transport failure does.
- `WriteContentToFile`: the write always succeeds. Filesystem errors from
  `open`/`write` (lines 202-204) are not modelled, so the model has no pipeline-fatal
  write failure.
- The Rx layer (lines 32-33, 177-180, 222-236, 266-288) is not modelled: `publish`/
  `connect`, the two `ThreadPoolScheduler(2)` pools and the concurrent completion
  order. Each pipeline is modelled as a fold over the tuples in arrival order. Order
  between the two pipelines is covered by `PipelinesWriteDisjointFiles`. The order of
  writes inside one pipeline is arrival order, and with distinct identifiers no write
  overwrites another (`HarvestKeepsEverySuccess`). In the program a pool has two
  workers, so the fold does not capture every interleaving. When tuple k's fetch
  raises, the other worker may already have written and reported any number of later
  tuples. An earlier tuple whose fetch has not returned when the subscription ends is
  not written. One already inside `write_content_to_file` is written but not reported.
  A tuple whose fetch is still queued on the pool when the pipeline's subscription
  ends is never fetched or written. The subscription can end by the tuple's own
  exception or by an upstream error. `Harvest` and `HarvestStopsAtFault` describe only
  the arrival-order run, and keep every tuple before the fault.
- `eprint` logging and thread names (throughout): these are diagnostics only. The
  "PROCESSED" lines are the `processed` sequence. The "done" line corresponds to a
  pipeline ending with no error.
- `setup.py`: packaging metadata only.
