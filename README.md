# Embedded worksheet JSON sync, modelled in Dafny

The worksheet viewer keeps a copy of its question data as a JavaScript literal inside each
HTML page: `const worksheetJSONData = {...};`. The development script
`dev-tools/sync-json.js` regenerates that copy from the external JSON file. These are its two
functions:

- `syncJSONToHTML` finds the first `const worksheetJSONData = {` in the page. It scans
  forward with a brace counter to pick an end offset. It then writes back the text before
  the marker, `const worksheetJSONData = `, the re-serialized JSON, `;`, and the text from
  the end offset on. It returns false when the marker is missing or anything throws.
- `syncAllWorksheets` runs that function over a fixed list of two (JSON, HTML) pairs, in
  order. It skips a pair when either file does not exist and counts the calls that return
  true.

Files:

- `wrappers.dfy`: `Option`.
- `string_search.dfy` (module `StringSearch`): `indexOf`, the first occurrence of a pattern
  or -1, as a function with a recursive reference definition.
- `sync_json.dfy` (module `SyncJson`):
  - the brace counter as a function `Depth` over offsets;
  - the end offset the loop chooses, as `ScanEnd`, and lemmas that characterise it without
    recursion;
  - the splice `Sync`;
  - one call against a file system (`SyncFile`, and the method `SyncJsonToHtml`, which runs
    the brace-counting `for` loop of lines 30-39 as a `while` loop with `break`, and is proved to
    compute `SyncFile`);
  - worked examples on two pages, `const worksheetJSONData = {"a":1};rest` (a flat literal)
    and `const worksheetJSONData = {"w":{"b":1}};rest` (a nested literal);
  - a corrected scan (see Findings).
- `sync_batch.dfy` (module `SyncBatch`): the fixed list, the batch as an in-order fold
  `RunBatch`, the method `SyncAllWorksheets` with its counting loop proved to compute
  `RunBatch`, and lemmas about the fold.

The file system is the value `Disk(files, readOnly)`. `existsSync(p)` is `p in files`, and
`readFileSync(p)` is `files[p]`. `writeFileSync` throws for a path in `readOnly`. The script
catches that, returns false and leaves the files unchanged. Otherwise the write replaces
the file's contents. `JSON.parse` followed by `JSON.stringify(value, null, 2)` is the
parameter `reformat: string -> Option<string>`, which is `None` where parsing throws.

The brace scan starts one character after the marker's `{`, with the counter at 0, so that
brace is never counted. It stops only at a `}` that takes the counter from 1 to 0; a `}` that
takes it to -1 does not stop it. The code has no failure for an unclosed literal: when no `}`
stops the scan, the end offset stays just past the marker and the rewrite goes ahead. The
code writes its own `;` and keeps the old text from the end offset on, so an old `;` after
the literal stays.

## Model

| member | source | states |
|---|---|---|
| `StringSearch.IndexFrom` | dev-tools/sync-json.js:21 | The search behind `indexOf`, from offset `i`: -1 only when the pattern occurs nowhere at or after `i`. Otherwise it is an offset at or after `i` where the pattern occurs, with no occurrence between `i` and it. |
| `StringSearch.IndexOf` | dev-tools/sync-json.js:21 | `indexOf` is -1 exactly when the marker does not occur anywhere. Otherwise it is an offset where the marker occurs, with no occurrence before it. |
| `StringSearch.IndexOfIsFirst` | dev-tools/sync-json.js:21 | Any occurrence with no occurrence before it is the one `indexOf` returns, so only the first occurrence is ever used. |
| `SyncJson.MarkerIsPrefixAndBrace` | dev-tools/sync-json.js:18-42 | The searched marker is the written assignment prefix followed by `{` (27 and 26 characters). |
| `SyncJson.Delta` | dev-tools/sync-json.js:31-33 | The change one character makes to `braceCount`: +1 exactly for `{`, -1 exactly for `}`, 0 for anything else. |
| `SyncJson.Depth` | dev-tools/sync-json.js:28-33 | `braceCount` after the scan has read the characters from its start up to `j`. It starts at 0 and moves by at most one per character read, so its magnitude never exceeds the number of characters read. |
| `SyncJson.Closes` | dev-tools/sync-json.js:32-36 | The break condition at offset `k`: the character is `}`, and the counter was exactly 1 before it, so it drops to 0. |
| `SyncJson.FirstCloser` | dev-tools/sync-json.js:30-39 | Having reached offset `i` without breaking, the loop ends either with `endIndex` at its initial value or strictly after `i` and within the text. |
| `SyncJson.ScanEnd` | dev-tools/sync-json.js:28-39 | Bounds: `startIndex + startMarker.length <= endIndex <= htmlContent.length`. |
| `SyncJson.FirstCloserFinds` | dev-tools/sync-json.js:30-39 | The loop's result, stated without its recursion. It is the initial value when no later `}` brings the counter to 0. Otherwise it is one past such a `}`, with none between. |
| `SyncJson.ScanEndIsFirstCloser` | dev-tools/sync-json.js:31-37 | The end offset is one past the FIRST `}` at which the counter drops to exactly 0. |
| `SyncJson.ScanEndWithoutCloser` | dev-tools/sync-json.js:29-39 | The end offset keeps its initial value if and only if no `}` ever brings the counter to 0. |
| `SyncJson.ScanEndStopsOnClosingBrace` | dev-tools/sync-json.js:31-37 | When the loop breaks, it breaks on a `}` read at counter 1, which leaves the counter at 0. No earlier `}` left the counter at 0, so a `{` or a `}` that takes the counter negative never stops it. |
| `SyncJson.DepthWithoutOpenBrace` | dev-tools/sync-json.js:28-33 | Over text with no `{`, the counter, which starts at 0, never rises above 0. |
| `SyncJson.FlatTailNeverCloses` | dev-tools/sync-json.js:29-39 | If no `{` follows the marker, the end offset stays just past the marker. |
| `SyncJson.ScanSkipsMarkerBrace` | dev-tools/sync-json.js:28-36 | Starting past the marker's `{` makes the loop break where the depth counted from that brace returns to 1, not to 0. |
| `SyncJson.ScanEndShift` | dev-tools/sync-json.js:30-39 | The scan reads only the text after its start. Scanning `p + t` from the end of `p` ends exactly `|p|` characters later than scanning `t` from its start. |
| `SyncJson.Sync` | dev-tools/sync-json.js:21-45 | The splice fails (the source returns false) exactly when the marker does not occur in the page. |
| `SyncJson.Splice` | dev-tools/sync-json.js:42-45 | The new text, piece by piece: the page before `startIndex` verbatim, the assignment prefix, the serialized JSON, `;`, and every character from `endIndex` on verbatim. It also gives the output's length. |
| `SyncJson.SyncSplice` | dev-tools/sync-json.js:21-45 | For the first marker occurrence `s`, the sync's output is the splice at `s`, ending at the scan's end offset. That offset lies between the end of the marker and the end of the text. |
| `SyncJson.SyncRewritesFirstMarker` | dev-tools/sync-json.js:21-43 | The output begins with the page's text up to the first marker, and that text contains no occurrence of the marker. |
| `SyncJson.SyncOfMarkedPage` | dev-tools/sync-json.js:21-45 | On a page that begins with the marker, the output is the new block followed by what is left of the text after the marker, from the scan's end on. |
| `SyncJson.FlatObjectNotReplaced` | dev-tools/sync-json.js:28-45 | Trace: `const worksheetJSONData = {"a":1};rest` becomes the new block followed by the old `"a":1};rest`. |
| `SyncJson.NestedObjectCutShort` | dev-tools/sync-json.js:28-45 | Trace: `const worksheetJSONData = {"w":{"b":1}};rest` stops after the inner `}`. The new block is followed by `};rest`. |
| `SyncJson.SyncFile` | dev-tools/sync-json.js:9-57 | Whatever happens, the set of files and the read-only set stay the same, and no file other than the HTML file changes. A call that returns false changes nothing. |
| `SyncJson.SyncFileSucceeds` | dev-tools/sync-json.js:10-56 | The call returns true exactly when these hold: both files exist, the JSON parses, the marker occurs and the HTML file is writable. The HTML file then holds the spliced text. |
| `SyncJson.SyncJsonToHtml` | dev-tools/sync-json.js:9-57 | The method computes exactly `SyncFile`: the returned flag and the file system afterwards. Its brace-counting loop keeps the counter equal to `Depth`, and the break offset equal to `ScanEnd`. |
| `SyncJson.SyncCorrected` | dev-tools/sync-json.js:29 | The corrected splice fails exactly when the marker is missing, just as the source does. |
| `SyncJson.ScanFromBraceIsBalanced` | dev-tools/sync-json.js:28-39 | A scan started AT a `{` that breaks ends at the `}` matching that brace, with the depth positive in between. |
| `SyncJson.SyncCorrectedReplacesLiteral` | dev-tools/sync-json.js:28-39 | The corrected scan starts at the marker's `{`. When it breaks, the removed text runs from that `{` to its matching `}`: the depth is positive throughout and 0 at the end. |
| `SyncJson.NestedObjectReplacedWhenCorrected` | dev-tools/sync-json.js:28-45 | With the correction, the nested trace loses the whole old literal, and only the old `;rest` follows the new block. |
| `SyncJson.SyncCorrectedSameOutcome` | dev-tools/sync-json.js:21-45 | The correction changes only the text written, never whether the call succeeds. |
| `SyncBatch.Attempt` | dev-tools/sync-json.js:69-75 | A pass succeeds only when both files exist. A pass that does not succeed leaves the files unchanged. |
| `SyncBatch.RunBatch` | dev-tools/sync-json.js:67-77 | The loop over the list as an in-order fold: each entry runs on the files the previous one left. The batch never creates or deletes a file and never changes which files are read-only. |
| `SyncBatch.RunBatchBounded` | dev-tools/sync-json.js:67-78 | `0 <= successCount <= worksheets.length`. |
| `SyncBatch.RunBatchAppend` | dev-tools/sync-json.js:68-77 | Entries run in list order. Running `a + b` means running `a`, then running `b` on the files `a` left behind, and adding the two counts. |
| `SyncBatch.RunBatchWritesOnlyHosts` | dev-tools/sync-json.js:68-76 | A file that is not one of the list's HTML files keeps its contents. No file appears or disappears. The read-only set is unchanged. |
| `SyncBatch.RunBatchAllSkipped` | dev-tools/sync-json.js:69-75 | If none of the HTML files exists, every entry is skipped: the count is 0 and nothing changes. |
| `SyncBatch.PartialFailure` | dev-tools/sync-json.js:67-77 | Two entries, the first host lacking the marker, the second ready to sync: the count is exactly 1 and the second host is rewritten. |
| `SyncBatch.SyncAllWorksheets` | dev-tools/sync-json.js:59-80 | The method's counting loop over the fixed list computes `RunBatch` on that list, so the count it reports is at most the list's length. |

## Findings

| source | as written | input that shows it | evidently intended | confidence | as-written member | corrected member |
|---|---|---|---|---|---|---|
| dev-tools/sync-json.js:29 | The scan starts at `startIndex + startMarker.length`, one past the marker's own `{`, so the counter never counts the brace that opens the literal. | `const worksheetJSONData = {"w":{"b":1}};rest` keeps `};rest` after the new block. `const worksheetJSONData = {"a":1};rest` keeps `"a":1};rest`. Either way the page is left with a syntax error. | Start the scan at `startIndex + startMarker.length - 1`, so the whole old literal, up to the `}` matching the marker's `{`, is replaced. | not executed | `SyncJson.NestedObjectCutShort` | `SyncJson.SyncCorrectedReplacesLiteral` |

`SyncCorrected` fixes only the start offset. When no matching `}` exists, it keeps the
source's silent fallback. On a single call, it succeeds on exactly the same inputs
as `Sync` (`SyncCorrectedSameOutcome`). That does not carry over to every batch. A later entry
may read a page an earlier entry rewrote, and the two splices write different text, so
they can leave a different number of markers behind. The fixed list is not such a batch:
its two HTML files are distinct and neither is the JSON file read, so the second entry reads
nothing the first one wrote. This argument is not stated as a lemma.

The batch (`SyncFile`, `SyncJsonToHtml`, `SyncAllWorksheets`) models the script as written,
so it uses `Sync`.

## Left out

- File I/O is modelled as the `Disk` value. These are not modelled:
  - read failures of a file that exists, such as a directory or a permission error;
  - text encodings;
  - a write that fails after writing part of the file.
- `JSON.parse` and `JSON.stringify` are library code that is not visible here. Together they
  are the opaque parameter `reformat`, so the JSON text format itself is not modelled.
- A string is modelled as a sequence of characters. JavaScript indexes UTF-16 code units.
  Every offset in the script is relative to the same string, and braces are single units,
  so only the absolute offset values differ.
- Console output is not modelled, including the summary line's
  `successCount/worksheets.length`. `SyncAllWorksheets` returns the count instead.
- The unused `endMarker` at line 19 has no behaviour.
- The top-level call `syncAllWorksheets()` at line 83 is not modelled: it runs the script.
- image-zoom.js and json-question-loader.js are not part of this model. They are DOM and
  event glue: modal creation, listeners, `fetch`, and rendering through an uninspected
  tracker object.
