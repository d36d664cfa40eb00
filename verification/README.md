# Static large objects and the replication probe, in Dafny

This project models two parts of an OpenStack Swift tree and proves
properties of them.

**The static large object (SLO) middleware** (`common/middleware/slo.py`).
A client uploads a JSON manifest with `?multipart-manifest=put`. The manifest
lists the segments that make up one large object: each segment's path, etag
and size. The middleware does four things:

- **Validates the manifest.** `parse_input` checks its structure. The
  handler then checks each segment's size and compares its declared size
  and etag with a HEAD of the segment.
- **Stores the manifest.** It stores a rewritten manifest with the total
  size in its content type. It then replaces the object server's etag
  with the quoted digest of the segment etags.
- **Expands a manifest for deletion.** On `?multipart-manifest=delete`,
  `get_segments_to_delete_iter` expands the manifest, and any nested
  manifests, into the names to delete.
- **Routes requests.** `__call__` decides which requests go to these
  handlers, which are refused, and which pass through.

**The replication probe** (`test/probe/test_replication_servers_working.py`).
The probe works out which device each object server serves. It walks every
device's tree and picks the node with the most directories. It records that
node's baseline: the files, without `.pending` ones, and the directories. It
then wipes the node and polls, for up to 60 seconds, until every baseline
entry is back. Next it deletes every sub-directory of each partition and
checks, for up to 60 seconds, that replication does not bring them back
while each partition's `hashes.pkl` is still there. Finally it deletes
`hashes.pkl` and polls again until the baseline is back. Of these last
steps only the check that the sub-directories stay deleted is modelled; the
final poll is the same convergence check as the first.

JSON values, HEAD and GET responses, directory trees, ring devices and clock
readings are all plain datatypes. Whatever the code learns from the outside
world is an argument: the decoder, the responses and the readings.

| file | module | what it holds |
|---|---|---|
| results.dfy | `Results` | `Option` and `Result` |
| strings.dfy | `Strings` | `lstrip`, `endswith`, ASCII `lower`, `"%d"`, Python 2's `int(unicode)` |
| slo_manifest.dfy | `SloManifest` | decoded JSON, `parse_input`, the segments of a manifest, `int()` of a size |
| slo_put.dfy | `SloPut` | `handle_multipart_put` from the header checks to the stored manifest |
| slo_delete.dfy | `SloDelete` | `get_segments_to_delete_iter` |
| slo_dispatch.dfy | `SloDispatch` | `__call__` and the Etag rewrite of `handle_slo_put` |
| fs_tree.dfy | `FsTree` | `collect_info` over a directory tree, and the wipe of a device |
| replication.dfy | `Replication` | `find_max_occupancy_node`, the baseline, convergence, the poll |
| topology.dfy | `Topology` | `os.path.join`, port→device resolution, the check that deleted partition sub-directories stay deleted |

## Model

| member | source | states |
|---|---|---|
| SloManifest.ParseInput | common/middleware/slo.py:153-173 | The body is refused as not JSON exactly when the decoder fails. It is accepted exactly when the decoded value is a list of dicts, each with exactly the keys path, etag and size_bytes and a path that still holds a '/' after its leading slashes are removed. The two non-list empty iterables, `""` and `{}`, are also accepted. An accepted value is returned unchanged. |
| SloManifest.Segments | common/middleware/slo.py:257-261 | One segment per manifest element, in upload order. Each carries the element's path, etag and size_bytes, the path without its leading slashes, and what `int()` makes of the size. |
| SloManifest.ToInt | common/middleware/slo.py:260-263 | `int()` of a size raises OverflowError exactly for ±Infinity. An integer is returned as it is. null, a list or a dict raise TypeError. |
| SloManifest.SizeStringRoundTrip | common/middleware/slo.py:260-263 | A size sent as a decimal string reads back as the same integer. |
| Strings.IntFromShowInt | common/middleware/slo.py:261 | Python 2's `int(u'…')` of `"%d" % n` gives n back, for every integer n. |
| Strings.ArabicIndicDigits | common/middleware/slo.py:261 | `int(u'١٢')` is 12: Unicode decimal digits count as their ASCII digit. |
| Strings.SignBlankDigits | common/middleware/slo.py:261 | `int(u'\xa0- 12')` is -12. Unicode whitespace around the number and blanks after the sign are allowed. |
| Strings.LoneSignRefused | common/middleware/slo.py:261 | `int(u'- ')` raises ValueError: a sign with no digit after it is not a number. |
| Strings.IntRefusesStray | common/middleware/slo.py:261-263 | `int()` raises ValueError, and the manifest is refused, whenever the string holds anywhere a character that is not whitespace, a sign or a decimal digit once digits are mapped to ASCII, such as `12a`, `1.5` or `0x10`. |
| Strings.IntFromString | common/middleware/slo.py:261 | Python 2's `int(u'…')` in base 10: Unicode whitespace and decimal digits are first mapped to ASCII, then a sign, optional blanks and at least one digit are read. Its contract is stated by Strings.IntFromShowInt, Strings.IntRefusesStray and the three lemmas above. |
| Strings.LStripSpec | common/middleware/slo.py:168 | `lstrip('/')` removes exactly the leading run of slashes. The result is a suffix of the input that does not start with a slash. |
| Strings.LStripIdempotent | common/middleware/slo.py:299 | Stripping a path that is already stripped changes nothing. |
| Strings.Lower | common/middleware/slo.py:243 | `lower()` keeps the length, replaces every ASCII capital by its small letter, and keeps every other character. |
| Strings.LowerSpells | common/middleware/slo.py:243 | For a word of small letters, `s.lower()` equals it exactly when `s` spells that word in any mixture of cases. |
| Strings.LowerIsChunked | common/middleware/slo.py:242-244 | The transfer encoding counts as chunked exactly when it spells `chunked` in any mixture of cases. |
| SloPut.HandleMultipartPutShape | common/middleware/slo.py:236-245 | An oversized declared length is refused before anything else. A request that passes the header checks and `parse_input` gets exactly the segment processing of its uploaded segments. A request refused earlier never reaches the segment cap or the HEADs. |
| SloPut.HandleMultipartPut | common/middleware/slo.py:222-329 | The handler from the header checks to the manifest handed on for storage. Its contract is stated by SloPut.HandleMultipartPutShape and SloPut.PutAccepted. |
| SloPut.ProcessSegments | common/middleware/slo.py:248-329 | The handler after `parse_input`: the segment cap, the segment loop, the problem list and the stored manifest. Its contract is stated by SloPut.TooManySegmentsRejected, SloPut.ProcessAccepted, SloPut.ProcessRejectedIffProblems, SloPut.ProcessRejectsFirstBadSegment and SloPut.BadSizesNeverStored. |
| SloPut.TooManySegmentsRejected | common/middleware/slo.py:248-250 | More segments than the cap are refused, whatever their sizes and HEAD results. |
| SloPut.Read | common/middleware/slo.py:245 | `read(n)` returns a prefix of the body, at most n characters long. It returns the whole body when n is negative or at least the body's length. |
| SloPut.SegmentProblems | common/middleware/slo.py:283-311 | A segment adds at most two problem entries. It adds none exactly when its HEAD succeeded with the declared size and the declared etag. |
| SloPut.SegmentProblemsSpec | common/middleware/slo.py:283-311 | Each entry names the segment's path. A failed HEAD gives exactly one entry, carrying its status. Otherwise there is a Size Mismatch entry exactly when the lengths differ and an Etag Mismatch entry exactly when the etags differ, in that order. |
| SloPut.PutLoop | common/middleware/slo.py:257-311 | The loop over the segments. It stops only with InvalidSize, SegmentTooSmall or an uncaught exception, naming a segment it had reached. It stores at most one record per segment. SloPut.PutLoopRejects and SloPut.PutLoopAccepts state what it computes. |
| SloPut.PutLoopRejects | common/middleware/slo.py:257-268 | The loop fails on the first segment whose size `int()` refuses or rejects as too small, or whose null etag reaches the digest. Its error names that segment. |
| SloPut.PutLoopAccepts | common/middleware/slo.py:257-307 | When no segment stops the loop, the loop's total, records, problems and digested etags are the segment-by-segment sums and lists. |
| SloPut.AllPassIff | common/middleware/slo.py:257-290 | No segment stops the loop exactly when every size parses, obeys the minimum-size rule, and no null etag is digested. |
| SloPut.ProcessAccepted | common/middleware/slo.py:257-322 | A stored manifest fits the cap, obeys the size rule, and every HEAD matched. It has one record per segment, in upload order, each with the segment's path, size, etag, content type and sub-manifest flag. Its total is the sum of the sizes, carried in the content type as `;swift_bytes=`. Every etag went into the digest, in order. |
| SloPut.PutAccepted | common/middleware/slo.py:222-329 | A successful upload passed the header checks and `parse_input`, and stores what ProcessAccepted describes for its uploaded segments. |
| SloPut.ProcessRejectedIffProblems | common/middleware/slo.py:283-315 | For a manifest within the cap, with acceptable sizes and no null etag, the upload is refused exactly when some segment's HEAD failed or disagreed. The refusal lists every problem, segment by segment. |
| SloPut.ProcessRejectsFirstBadSegment | common/middleware/slo.py:257-268 | The first segment with a bad size, or a null etag reaching the digest, decides the outcome, whatever comes after it. |
| SloPut.BadSizesNeverStored | common/middleware/slo.py:260-268 | A manifest whose sizes break the rules is never stored and never gets a problem list. |
| SloPut.LoneSmallSegmentRejected | common/middleware/slo.py:264-268 | A one-segment manifest below the minimum size is refused. |
| SloPut.MinimumRuleShape | common/middleware/slo.py:264-265 | The minimum binds every segment except the last, and a lone segment too. |
| SloPut.SwiftBytesReadBack | common/middleware/slo.py:322 | The content type starts with the base type, and the total reads back from its `swift_bytes` parameter. |
| SloDelete.DeleteSegments | common/middleware/slo.py:340-382 | A path without a container and object is not a manifest. Otherwise the loop yields what the queue traversal defines, and every name it yields is the root manifest's or is listed in some manifest body. |
| SloDelete.Step | common/middleware/slo.py:347-382 | One turn of the loop: the buffer check, then a yield, an expansion, a skip or a stop. Its contract is stated by SloDelete.StepShape; the turn lemmas that follow unfold it case by case. |
| SloDelete.Run | common/middleware/slo.py:347-382 | The whole traversal of a queue: it yields at most one name per turn, and an empty queue finishes at once. SloDelete.FinishedYieldsEveryPlainEntry and SloDelete.ManifestAndSegmentsDeleted state what every finished traversal deletes. |
| SloDelete.BufferBoundEnforced | common/middleware/slo.py:348-350 | More entries queued than the bound stops the traversal before anything more is yielded. |
| SloDelete.LeafYielded | common/middleware/slo.py:381-382 | A plain segment at the head of the queue is yielded, and the rest of the queue carries on unchanged. |
| SloDelete.MissingManifestSkipped | common/middleware/slo.py:378-379 | A sub-manifest whose GET answers 404 is dropped, as already deleted. |
| SloDelete.ManifestRequeuedAfterChildren | common/middleware/slo.py:366-377 | A manifest's segments are queued behind the waiting entries, and the manifest itself is queued again after them as a plain entry. |
| SloDelete.FormerManifestRequeued | common/middleware/slo.py:366-377 | An object that is no longer a manifest is queued again as a plain entry. |
| SloDelete.FetchFailureIsServerError | common/middleware/slo.py:366-380 | A manifest body that is not JSON, or a failed GET other than 404, stops the traversal as a server error. |
| SloDelete.LeavesDrain | common/middleware/slo.py:347-382 | A queue of plain segments within the bound is yielded in order, and the traversal finishes. |
| SloDelete.FlatManifestDeletesSegmentsThenManifest | common/middleware/slo.py:344-382 | A manifest of plain segments yields every segment in manifest order, then the manifest itself. |
| SloDelete.OverfullManifestRefused | common/middleware/slo.py:347-371 | A manifest listing more segments than fit in the buffer is refused before any is yielded. |
| SloDelete.NestedManifestOrder | common/middleware/slo.py:347-382 | The queue is served in arrival order. A nested manifest's segments and the nested manifest come after the root's later entries and after the root itself. |
| SloDelete.StepShape | common/middleware/slo.py:347-382 | A turn that yields yields the head's name and drops it; an expansion keeps every waiting entry in front of what it adds; a stop is never a finished traversal; a plain head within the bound is always yielded. |
| SloDelete.FinishedYieldsEveryPlainEntry | common/middleware/slo.py:331-382 | For every queue and every fuel, a traversal that finishes has yielded the name of every plain entry of its queue, however manifests are expanded on the way. |
| SloDelete.ManifestAndSegmentsDeleted | common/middleware/slo.py:331-382 | For every queue headed by a manifest that is still one, a traversal that finishes has yielded the manifest's own name and the name of every plain segment it lists. |
| SloDispatch.Dispatch | common/middleware/slo.py:406-433 | A request goes to the PUT handler exactly when it is a manifest PUT of an object. It goes to the delete handler exactly when it is a manifest DELETE of an object with a valid UTF-8 path. A refusal is 400 or 412. |
| SloDispatch.ReservedHeaderIff | common/middleware/slo.py:415-429 | X-Static-Large-Object is refused with 400 exactly on object requests that are neither a manifest PUT nor a manifest DELETE. |
| SloDispatch.PassThroughIff | common/middleware/slo.py:411-433 | A request passes through exactly when it is not an object request, or is an object request that is neither a manifest operation nor carries the reserved header. |
| SloDispatch.HeaderOnlyGuardsPlainObjects | common/middleware/slo.py:416-429 | The reserved header makes no difference to non-object requests or to manifest operations. |
| SloDispatch.RefusedWithoutHeader | common/middleware/slo.py:392-394 | Without the reserved header, a request is refused only as a manifest DELETE whose path is not valid UTF-8 (412). |
| SloDispatch.QuotedEtag | common/middleware/slo.py:180 | The large object's etag is the hex digest between double quotes. |
| SloDispatch.LowerIsEtag | common/middleware/slo.py:186 | A header is the etag header exactly when its name spells `etag` in any mixture of cases. |
| SloDispatch.RewriteEtag | common/middleware/slo.py:185-188 | Only the first header named etag, in any case, is replaced, by `Etag` with the large object's etag. Later etag headers and all other headers stay as they were. With no etag header, nothing changes. |
| FsTree.CollectInfo | test/probe/test_replication_servers_working.py:30-48 | One file list and one directory list per path, in order. Each is the top-down walk of that tree, and it holds exactly the names of the files, or of the directories, below it, with one entry per file or directory. |
| FsTree.WalkFilesIff | test/probe/test_replication_servers_working.py:43-44 | The walk lists a file name exactly when a file of that name lies anywhere below. |
| FsTree.WalkDirsIff | test/probe/test_replication_servers_working.py:43-45 | The walk lists a directory name exactly when a directory of that name lies anywhere below. |
| FsTree.WalkFilesCount | test/probe/test_replication_servers_working.py:43-44 | The file list has one entry per file in the tree, duplicates included. |
| FsTree.WalkDirsCount | test/probe/test_replication_servers_working.py:43-45 | The directory list has one entry per directory in the tree, duplicates included, so its length, which `find_max_occupancy_node` compares, is the number of directories. |
| FsTree.Wipe | test/probe/test_replication_servers_working.py:143-146 | The wipe succeeds exactly when every top-level entry is a directory. The top is left empty, as the following assertion demands, exactly when the wipe succeeds. Otherwise it stops at the first plain file, which is left along with everything after it. |
| Replication.FindMaxOccupancyNode | test/probe/test_replication_servers_working.py:51-66 | Returns the first index whose list is longest, or 0 when there are no lists. |
| Replication.FirstMaxUnique | test/probe/test_replication_servers_working.py:58-66 | There is only one such first index, so the chosen node is well defined. |
| Replication.DropPending | test/probe/test_replication_servers_working.py:123-126 | The baseline never holds more names than the node's files. Replication.DropPendingSpec states its membership and multiplicity. |
| Replication.DropPendingSpec | test/probe/test_replication_servers_working.py:123-126 | A name is in the baseline exactly when it is one of the node's files and does not end in `.pending`. Every other name is kept as often as it occurs. |
| Replication.DropPendingAppend | test/probe/test_replication_servers_working.py:124-126 | Filtering a concatenation is concatenating the filtered parts, so order is kept. |
| Replication.DropPendingIdempotent | test/probe/test_replication_servers_working.py:124-126 | Filtering the baseline again removes nothing. |
| Replication.FirstMissing | test/probe/test_replication_servers_working.py:155-159 | Reports no entry exactly when every baseline name is listed again. Otherwise it reports the first baseline name, in baseline order, that is not listed. |
| Replication.Check | test/probe/test_replication_servers_working.py:153-160 | One attempt: every baseline file, then every baseline directory. Its contract is stated by Replication.CheckIff. |
| Replication.CheckIff | test/probe/test_replication_servers_working.py:155-160 | An attempt passes exactly when every baseline file and directory is listed again. A failing attempt names a missing baseline entry. |
| Replication.ConvergedMonotone | test/probe/test_replication_servers_working.py:203-207 | Listing more entries never undoes convergence. |
| Replication.EmptyBaselineConverges | test/probe/test_replication_servers_working.py:203-207 | An empty baseline has converged from the start. |
| Replication.BaselineOfItself | test/probe/test_replication_servers_working.py:123-127 | A node has converged on its own listing once `.pending` files are set aside. |
| Replication.Poll | test/probe/test_replication_servers_working.py:148-164 | The poll passes at the first attempt whose check holds. It gives up at the first failing attempt more than 60 seconds after the start. Every earlier attempt failed within the time. When the readings are at least a second apart and start after the beginning, 62 attempts always suffice to end it. |
| Topology.LastMatchingDeviceSpec | test/probe/test_replication_servers_working.py:107-109 | A node's device is found exactly when some ring entry listens on its port. It is the device of the last such entry. |
| Topology.Resolve | test/probe/test_replication_servers_working.py:104-110 | The corrected device resolution: each node gets its own device or the resolution fails. Its contract is stated by Topology.ResolveSpec. |
| Topology.ResolveAsWritten | test/probe/test_replication_servers_working.py:104-110 | The loop as written, with `device` carried from one node to the next. Topology.ResolveAgrees and Topology.StaleDeviceReused state its behaviour. |
| Topology.ResolveSpec | test/probe/test_replication_servers_working.py:104-110 | The corrected resolution succeeds exactly when every node has a device, and then gives each node the path of its own device. Otherwise it names the first node without one. |
| Topology.ResolveAgrees | test/probe/test_replication_servers_working.py:104-110 | Where every node has a device, the loop as written finds the same paths as the corrected resolution. |
| Topology.StaleDeviceReused | test/probe/test_replication_servers_working.py:104-110 | As written, a node with no ring entry gets the previous node's device. The corrected resolution reports that node. |
| Topology.PathJoin | test/probe/test_replication_servers_working.py:110 | `os.path.join`. Its contract is stated by Topology.JoinEntries and Topology.SlashResets. |
| Topology.JoinEntries | test/probe/test_replication_servers_working.py:110 | Joining entry names onto a path puts exactly one `/` before each. |
| Topology.SlashResets | test/probe/test_replication_servers_working.py:184-185 | A bare `'/'` component throws away everything joined before it. |
| Topology.FirstDirectory | test/probe/test_replication_servers_working.py:179-186 | The check fails exactly when some visited path is a directory. It then reports the first such path, in visiting order. |
| Topology.StaleCheckAsWritten | test/probe/test_replication_servers_working.py:178-186 | The check as written. Its contract is stated by Topology.StaleCheckAsWrittenIgnoresNode. |
| Topology.StaleCheck | test/probe/test_replication_servers_working.py:178-186 | The check as intended. Its contract is stated by Topology.StaleCheckSpec. |
| Topology.StaleCheckAsWrittenIgnoresNode | test/probe/test_replication_servers_working.py:179-186 | As written, the check tests `/<entry>` at the file system root, the same for every node. |
| Topology.StaleCheckSpec | test/probe/test_replication_servers_working.py:179-186 | The corrected check tests `<node>/objects/<partition>/<entry>`. It passes exactly when none of those is a directory. |
| Topology.StaleDirectoryMissed | test/probe/test_replication_servers_working.py:179-186 | When a partition still holds a directory, the check as written passes and the corrected one reports the directory. |

## Left out

- WSGI, swob and the environment copies made for subrequests are left out. A HEAD or GET response is a record of the fields the code reads. `split_path` is reduced to whether it succeeded and the parts it returned.
- The `split_path` pass-through of `handle_multipart_put` (slo.py:232-235) is not modelled, because `__call__` already passes those requests through. SloDispatch.Dispatch models that as `splitOk`.
- `json.loads` is the parameter `decode`, which returns a Json value or None.
- `json.dumps` of the stored records and the resulting `CONTENT_LENGTH` are left out. The stored manifest is a list of records.
- SloPut.HandleMultipartPut: the MD5 digest is left out. The stored manifest carries `etagParts`, the etags fed to `update` in order. `hexdigest()` is the argument of SloDispatch.QuotedEtag.
- `last_modified`, the clock read by `datetime.now()` and its formatting are left out: records carry no time.
- `mimetypes.guess_type` is the request field `guessedType`.
- The response format chosen from the Accept header (slo.py:252-254, 313-315, 397-399) is left out. The problem list is a list of (path, reason) values and is not rendered as text, JSON or XML.
- `quote()` of the problem path is left out. A problem names the path structurally.
- The HEAD status line is reduced to its integer status code.
- The error responses' bodies and classes are constructors of `PutError`, `Outcome` and `Route`. The HTTP status each maps to is stated in comments.
- `config_true_value` of X-Static-Large-Object is reduced to a boolean `isSlo`.
- The configuration defaults (1000 segments, 2 MiB manifest, 1 MiB minimum segment; slo.py:213-218) are left out: `Config` is a parameter.
- MAX_BUFFERED_SLO_SEGMENTS is the parameter `maxBuffered`, because common/constraints.py is not part of this model.
- SloDelete.DeleteSegments: the bulk deleter that consumes the names, and the deletions it performs while the generator runs, are left out. GET responses are a fixed function. A manifest that lists itself would then be expanded forever, so the traversal takes a step budget and reports `Suspended` when it runs out.
- SloDelete.Step: a manifest body that is JSON but not a list of dicts with a `name` (a TypeError or KeyError in the source) is not representable. The body is either a list of entries or undecodable.
- The UTF-8 encoding and decoding of names and paths is left out: names are Unicode strings throughout. `check_utf8` is the request field `pathValidUtf8`.
- SloPut.EtagMatches: a non-ASCII etag is compared as Unicode on both sides. The source compares a Unicode manifest etag with a byte-string header, which fails for non-ASCII bytes.
- SloManifest.Truncate: finite JSON floats are reals. Float rounding and overflow when decoding large numbers are left out.
- Strings.IntFromString follows the Unicode 5.2 tables of a wide Python 2.7 build. Narrow builds, with surrogate pairs, are left out.
- The probe's process handling (starting and killing servers and replicators), swiftclient uploads, `readconf` and `int()` of `bind_port` are left out. A node is its devices root and its port.
- `time.sleep(1)` is left out. Replication.Poll takes the clock readings as a sequence; `SleepsBetween` states that they are at least a second apart.
- The probe's removal of partition sub-directories (lines 167-173) and of `hashes.pkl` (lines 192-194) are left out. Only the check that follows the first removal (lines 176-190) is modelled, in Topology.
- Symbolic links, permissions and `os.walk` errors are left out. A tree is a value, and `os.listdir` order is the order of a directory's children.
- Ring entries that are None (removed devices) are left out.

## Findings

| source | as written | input that shows it | evidently intended | confidence | as-written member | corrected member |
|---|---|---|---|---|---|---|
| test/probe/test_replication_servers_working.py:104-110 | `device` is assigned only when a ring entry matches the node's port, and is used after the loop regardless. A node without a match silently reuses the previous node's device, or raises UnboundLocalError for the first node. | Two nodes where only the first node's port is in the ring. | Each node resolves to its own device, or the probe fails on the node that has none. | not executed | Topology.StaleDeviceReused | Topology.ResolveSpec |
| test/probe/test_replication_servers_working.py:183-185 | `os.path.join(test_node, 'objects', directory, '/', input_dir)` contains the component `'/'`, which resets the join, so the path tested is `/<input_dir>` at the file system root. | A partition directory that still holds a sub-directory `x`, with no `/x` at the root. The check passes. | `os.path.join(test_node, 'objects', directory, input_dir)`. | not executed | Topology.StaleDirectoryMissed | Topology.StaleCheckSpec |
