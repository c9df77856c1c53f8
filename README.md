# video-downloader: the download bookkeeping and the Douyin glue

This project models the two pieces of logic in the Tauri back end of `video-downloader`:

- **The chunked downloader** (`Downloader`, src-tauri/src/downloader.rs).
  - The constructor derives the file extension from `content-type`, rewrites the save path to `<parent>/<stem><ext>`, reads the file size and range support from the probe, and takes the worker count from the caller's `chunk_count`, 4 when none is given.
  - `download` either streams the whole body (`plain_download`) or cuts the size into byte ranges in a planning loop and runs one `chunk_download` worker per range.
  - Every worker writes each received piece at a running offset, then adds the piece's length to a shared progress counter.
- **The Douyin glue** (src-tauri/src/douyin.rs).
  - `get_id_from_url` appends `?` to the caller's URL and extracts an id with the pattern `/[video|user]+/(?P<aweme_id>\S+)[/|\?]+`.
  - It normalises titles and play URLs and fills in JSON defaults.
  - `get_save_path` names each saved file.
  - The two search commands turn fetch results into answers or errors.
  - `douyin_get_all_video_info` pages through a user's videos with a retry budget.

Modules:

- `Wrappers`: `Option` and `Result`.
- `Strings`: the `str` operations the program uses: `replace`, `split(..)[0]`, `trim`, `{}` formatting of numbers.
- `Paths`: Rust's `Path` on `/`-separated paths: `parent`, `file_name`, `file_stem`, `join`.
- `Downloader`:
  - the extension table;
  - the file as a byte sequence with positional writes, through a `Disk` that may fail or write short;
  - the planner (a method with its loop, proved against a closed form);
  - the `Downloader` class, whose `progress` field the worker loop updates;
  - end-to-end lemmas, which show that with a healthy disk and a server that honours ranges, both paths leave the resource at the front of the file.
- `Douyin`:
  - the regex, as a leftmost-first search with a proof that it finds the leftmost match and the longest group there;
  - `GetIdFromUrl`, a method, because the source mutates the caller's string;
  - the normalisation functions and the JSON defaults;
  - the search commands, as functions of their fetch results;
  - the paging loop, a method over a sequence of page outcomes.

In these places the code does something other than one would expect, and the model follows the code:

- **Planner ranges.** The ranges are inclusive at both ends, so `(0,250)`, `(251,500)`, … leave no gap. A description of the planner as losing a byte at each boundary does not match the code.
- **Planner range count.** The planner returns `T/(T/count) + 1` ranges, not `count`. For 1000 bytes and 4 workers that is 5 ranges, the last `(1001,1250)` (`PlanExample`, `PlanOutnumbersWorkers`). It also requires `1 <= count <= T`.
- **Ranges past the end.** When `T mod (T/count)` is 0 or 1, the last range starts at or past the end of the file. Section 2.1 of RFC 7233 calls such a range unsatisfiable. The server answers 416 with a body of its own, which the request does not treat as an error. The worker writes that body beyond the resource and counts it, so the counter can end above `T` (`BeyondBytes`, `PlanBeyondBytes`, `ChunkedDownloadReassembles`).
- **Progress counter.** The counter counts bytes received, not bytes written: failed and short writes still count (`ReceiveBody`, `FailingDiskKeepsFile`).
- **Chunked result.** The chunked path reports success whatever its workers did (`Download`).
- **Empty id.** The id is empty when the pattern does not match, and also when the group consists only of slashes (`SlashOnlyGroup`), so "empty exactly when there is no match" does not hold.

## Model

| member | source | states |
|---|---|---|
| Downloader.FirstArm | src-tauri/src/downloader.rs:71-90 | the arm found is the first whose pattern equals the text; none is found iff no pattern equals it |
| Downloader.MatchArms | src-tauri/src/downloader.rs:71-90 | the first arm whose pattern equals the text decides the value; with no such arm the default arm does |
| Downloader.ExtensionForType | src-tauri/src/downloader.rs:71-90 | the extension of the first listed type equal (case-sensitively) to the text, and `.mp4` when none is; always a dot plus a name |
| Downloader.ExtensionFor | src-tauri/src/downloader.rs:70-92 | a missing header or one that is not visible ASCII gives `.mp4`; a readable header gives its type's extension; the result is always a listed extension or `.mp4` |
| Downloader.ExtensionExamples | src-tauri/src/downloader.rs:73-75 | `video/mp4` gives `.mp4` and `video/MP2T` gives `.ts` |
| Downloader.ExtensionCaseSensitive | src-tauri/src/downloader.rs:85-89 | `IMAGE/PNG` gets the default `.mp4`, not `.png` |
| Downloader.HeaderText | src-tauri/src/downloader.rs:71 | a header has a text iff all its bytes are visible ASCII or tabs, and then the text has those bytes as characters |
| Downloader.ChunkCountOrDefault | src-tauri/src/downloader.rs:108-111 | the given worker count, or 4 when none is given |
| Paths.RewriteSavePath | src-tauri/src/downloader.rs:94-105 | the new path keeps the parent directory and stem and takes the detected extension; it is again a valid save path |
| Paths.RewriteIdempotent | src-tauri/src/downloader.rs:94-105 | rewriting an already rewritten path with the same extension changes nothing |
| Paths.RewriteInDirectory | src-tauri/src/downloader.rs:94-105 | `dir/stem.was` (also `/stem.was` in the root) is a valid save path and becomes `dir/stem.ext` |
| Paths.OneSeparatorValid | src-tauri/src/downloader.rs:94-96 | a directory name, one `/` and a non-empty file name make a path whose parent and file name exist |
| Paths.StemOfStemAndExtension | src-tauri/src/downloader.rs:96-100 | the stem of `<stem><ext>` is `<stem>` again |
| Paths.FileNameSplit | src-tauri/src/downloader.rs:94-99 | a path is its directory prefix followed by its file name, which has no `/` |
| Paths.FileName | src-tauri/src/downloader.rs:94-99 | the file name is a suffix of the path without `/`; when it is shorter than the path a `/` comes right before it |
| Paths.ParentSplit | src-tauri/src/downloader.rs:94-95 | a path without `/` has the empty parent; otherwise the path is the parent, `/` and the file name, or `/` followed by the file name for an entry of the root |
| Paths.FileStem | src-tauri/src/downloader.rs:96-100 | the stem is a prefix of the name; when shorter it ends at the name's last dot, which is not its first character; when the whole name, no dot follows the first character |
| Paths.JoinPath | src-tauri/src/downloader.rs:101-105 | an absolute name is the result; otherwise the directory, then the name, with one `/` between them exactly when the directory is non-empty and does not already end in `/` |
| Paths.LastIndexOf | src-tauri/src/downloader.rs:94-99 | the index found holds the character and none follows it; none found means the character is absent |
| Downloader.Downloader.constructor | src-tauri/src/downloader.rs:59-128 | savepath is the rewritten path; filesize is the content length; the worker count is defaulted; range support holds iff `Accept-Ranges` is present; the counter starts at 0 |
| Downloader.Downloader.DownloadedSize | src-tauri/src/downloader.rs:138-140 | the current value of the progress counter |
| Downloader.WriteOutcome | src-tauri/src/downloader.rs:22-40 | a write fails iff the disk refuses it, and never reports more bytes than it was given |
| Downloader.Overlay | src-tauri/src/downloader.rs:33-40 | after a positional write the data is at its offset, every other byte is kept, a gap reads as zeros, and an empty write changes nothing |
| Downloader.File.WriteAt | src-tauri/src/downloader.rs:33-40 | the file becomes the old file with the accepted prefix of the data written at the offset |
| Downloader.ApplyWritesAppend | src-tauri/src/downloader.rs:160-169 | applying two runs of writes is applying the first, then the second |
| Downloader.FailingDiskKeepsFile | src-tauri/src/downloader.rs:163-166 | when every write fails the file never changes |
| Downloader.Flatten | src-tauri/src/downloader.rs:160-169 | the concatenated pieces have as many bytes as were received |
| Downloader.WriteTracePlacement | src-tauri/src/downloader.rs:181-193 | the k-th write carries the k-th piece at the start offset plus the lengths of the earlier pieces |
| Downloader.StreamLandsContiguously | src-tauri/src/downloader.rs:181-193 | on a healthy disk a worker's bytes lie back to back from its start and nothing below the start changes |
| Downloader.Downloader.ReceiveBody | src-tauri/src/downloader.rs:158-169 | the final offset is start plus the bytes received; the counter grows by exactly the bytes received, whatever the writes did; the file is the write trace applied; an error iff the stream failed |
| Downloader.Downloader.PlainDownload | src-tauri/src/downloader.rs:151-171 | one request without a range, written from offset 0, with the counter and result as for any worker |
| Downloader.Downloader.ChunkDownload | src-tauri/src/downloader.rs:173-195 | one request with the range's header, written from the range's start |
| Downloader.RangeHeader | src-tauri/src/downloader.rs:178 | `bytes=`, the decimal start, `-`, the decimal end: digits everywhere after the prefix except the one `-` |
| Downloader.RangeHeaderRoundTrip | src-tauri/src/downloader.rs:178 | the Range header `bytes=<start>-<end>` reads back as exactly that range |
| Strings.DecimalRoundTrip | src-tauri/src/downloader.rs:178 | a number formatted in decimal reads back as the same number |
| Strings.Decimal | src-tauri/src/downloader.rs:178 | the decimal form is one or more digits without a leading zero |
| Downloader.PlannedRanges | src-tauri/src/downloader.rs:206-215 | the closed form of the plan: `T/cs + 1` ranges, the first `(0, cs)` |
| Downloader.PlanRanges | src-tauri/src/downloader.rs:206-215 | the planning loop, for `1 <= count <= T`, yields exactly the closed-form ranges for chunk size `T / count` |
| Downloader.PlanContiguous | src-tauri/src/downloader.rs:207-215 | the first range is `(0, cs)`, each later one starts right after the previous end, and none is empty |
| Downloader.PlanShape | src-tauri/src/downloader.rs:206-215 | there are `T/cs + 1` ranges, range i ends at `(i+1)*cs`, all ends but the last are within T, and the last end exceeds T |
| Downloader.PlanDisjoint | src-tauri/src/downloader.rs:211-215 | earlier ranges end before later ones start, so no byte is asked for twice |
| Downloader.PlanCovers | src-tauri/src/downloader.rs:211-215 | every byte below T lies in a range |
| Downloader.PlanOutnumbersWorkers | src-tauri/src/downloader.rs:206-215 | there is always at least one range more than the worker count |
| Downloader.PlanLastRangeBeyond | src-tauri/src/downloader.rs:211-215 | the last range starts at `T + 1` exactly when the chunk size divides T, and at or past the end of the file (naming no byte of it) exactly when `T mod cs <= 1`; otherwise it starts within the file |
| Downloader.PlanStartsWithin | src-tauri/src/downloader.rs:211-215 | when `T mod cs >= 2`, every planned range starts inside the file |
| Downloader.PlanBeyondBytes | src-tauri/src/downloader.rs:206-229 | when `T mod cs >= 2` no byte is received for a range past the end; otherwise at least the whole answer to the last range is |
| Downloader.PlanExample | src-tauri/src/downloader.rs:206-215 | 1000 bytes with 4 workers give `(0,250) (251,500) (501,750) (751,1000) (1001,1250)` |
| Downloader.Downloader.Download | src-tauri/src/downloader.rs:197-230 | size 0 gives `Ok(false)` with nothing changed; without range support the plain path and its result, whatever the worker count; otherwise `Ok(true)` with the counter and file those of all planned workers |
| Downloader.ContiguousRangesReassemble | src-tauri/src/downloader.rs:173-195 | workers for contiguous ranges from 0, on a healthy disk and a server that answers each satisfiable range with its slice, leave the resource at the front of the file up to the last end (or its size); they receive those bytes plus whatever the server sends for the unsatisfiable ranges |
| Downloader.ChunkedDownloadReassembles | src-tauri/src/downloader.rs:206-229 | the chunked path puts the whole resource at the front of the file; the counter ends at T plus the bytes received for ranges that start at or past the end of the file |
| Downloader.PlainDownloadReassembles | src-tauri/src/downloader.rs:151-171 | the plain path puts the whole resource at the front of the file and receives exactly its size |
| Douyin.WithQueryMark | src-tauri/src/douyin.rs:85-87 | the URL afterwards has a `?`; it is unchanged if it had one and gains exactly one at the end otherwise |
| Douyin.ClassRun | src-tauri/src/douyin.rs:88 | the run of class characters `v i d e o \| u s r` from a position is maximal |
| Douyin.NonSpaceRun | src-tauri/src/douyin.rs:88 | the run of non-space characters from a position is maximal |
| Douyin.LastDelim | src-tauri/src/douyin.rs:88 | the last `/`, `\|` or `?` after the first character of the run, or none |
| Douyin.Matches | src-tauri/src/douyin.rs:88 | the meaning of the pattern at a position: `/`, one or more class characters, `/`, one or more non-space characters forming the group, then a delimiter |
| Douyin.MatchAt | src-tauri/src/douyin.rs:88 | the attempt at one position: a result only where the text has a character |
| Douyin.MatchAtCorrect | src-tauri/src/douyin.rs:88-89 | the attempt at a position finds a match iff the pattern matches there, and then the one with the longest group |
| Douyin.FirstFrom | src-tauri/src/douyin.rs:89 | the leftmost scan: the first position holding a match (here, where the engine finds one), with none before it; or none in the whole range |
| Douyin.Search | src-tauri/src/douyin.rs:88-89 | nothing is found iff the pattern matches nowhere; otherwise the leftmost match and, at its start, the longest group |
| Douyin.Capture | src-tauri/src/douyin.rs:89-93 | there is no group iff the pattern matches nowhere |
| Douyin.IdOf | src-tauri/src/douyin.rs:89-95 | the id has no `/`; it is the group without its slashes; it is empty iff there is no match or the group is all slashes |
| Douyin.GetIdFromUrl | src-tauri/src/douyin.rs:84-96 | the caller's URL gets its `?` in place and the id is the one read from the updated URL |
| Douyin.ShareUrlGroup | src-tauri/src/douyin.rs:88-91 | in `pre/kind/group?query`, with a prefix where no match can start (after each `/` in it the class run ends inside it, and not at a `/` unless empty) and a query without delimiters, the group is all of `group`, delimiters included |
| Douyin.ShareUrlId | src-tauri/src/douyin.rs:88-95 | `…/video/<id>?<query>` gives `<id>` |
| Douyin.ShareUrlIdTrailingSlash | src-tauri/src/douyin.rs:88-95 | `…/video/<id>/?<query>` also gives `<id>` |
| Douyin.SharePrefix | src-tauri/src/douyin.rs:88 | `https://<host>/share` is such a prefix when the host has no `/` and does not start with a class character |
| Douyin.SharePagePrefix | src-tauri/src/douyin.rs:88 | `https://www.iesdouyin.com/share` is such a prefix |
| Douyin.SharePageId | src-tauri/src/douyin.rs:84-95 | the share page `https://www.iesdouyin.com/share/video/<id>/?<query>` gives `<id>` |
| Douyin.SlashOnlyGroup | src-tauri/src/douyin.rs:88-95 | `…/video//?` matches with group `/`, yet the id is empty |
| Douyin.SingleTitle | src-tauri/src/douyin.rs:132-141 | never empty; the unquoted title cut before its first `@`, or `无标题: <id>` when that cut is empty |
| Douyin.ListTitle | src-tauri/src/douyin.rs:291-302 | never empty; the unquoted text cut before its first `#` and then its first `@`, or `无标题<id>` when that is empty |
| Douyin.SingleTitleStable | src-tauri/src/douyin.rs:132-141 | normalising a title that did not fall back leaves it unchanged |
| Douyin.ListTitleStable | src-tauri/src/douyin.rs:291-302 | normalising a list title that did not fall back leaves it unchanged |
| Douyin.PlayUrl | src-tauri/src/douyin.rs:143-147 | has no `"`; equals the unquoted URL when neither `playwm` nor `ratio=720p` occurs in it |
| Douyin.PlayUrlIsRewrite | src-tauri/src/douyin.rs:143-147 | the URL is the two left-to-right replacements applied to the unquoted text; the final quote removal changes nothing |
| Douyin.PlayUrlBySplitJoin | src-tauri/src/douyin.rs:143-147 | each replacement is splitting at the pattern and joining with the replacement |
| Douyin.PlayUrlSinglePass | src-tauri/src/douyin.rs:146 | the rewrite is one pass: `playwmwm` becomes `playwm` |
| Strings.ReplaceAll | src-tauri/src/douyin.rs:146-147 | a replacement as long as the pattern keeps the length of the text |
| Strings.Split | src-tauri/src/douyin.rs:135-136 | at least one piece, none longer than the text |
| Strings.Join | src-tauri/src/douyin.rs:135-136 | the joined text starts with the first piece |
| Strings.ReplaceAllIsJoinOfSplit | src-tauri/src/douyin.rs:146-147 | `replace` is `split` followed by `join` with the replacement |
| Strings.ReplaceAbsent | src-tauri/src/douyin.rs:146-147 | replacing a pattern that never occurs changes nothing |
| Strings.ReplaceWithItself | src-tauri/src/douyin.rs:146-147 | replacing a pattern with itself changes nothing |
| Strings.SplitJoinRoundTrip | src-tauri/src/douyin.rs:135-136 | joining the pieces of a split with the pattern gives the text back |
| Strings.ReplaceKeepsAbsent | src-tauri/src/douyin.rs:143-147 | replacing cannot introduce a character that neither the text nor the replacement holds |
| Strings.Without | src-tauri/src/douyin.rs:128-130 | removing a character leaves none of it, no more characters than before, and only characters of the text |
| Strings.WithoutIsReplace | src-tauri/src/douyin.rs:128-130 | removing a character is replacing it with the empty string |
| Strings.WithoutAbsent | src-tauri/src/douyin.rs:128-130 | removing a character that does not occur changes nothing |
| Strings.WithoutEmpty | src-tauri/src/douyin.rs:91 | nothing is left after removing a character iff every character was that one |
| Strings.BeforeFirst | src-tauri/src/douyin.rs:135-136 | the text before the first occurrence of the character: a prefix without it, ending where it occurs, or all of the text |
| Strings.SplitAtFirst | src-tauri/src/douyin.rs:135-136 | splitting at the first occurrence gives the text before it, then the split of the rest |
| Strings.Trim | src-tauri/src/douyin.rs:389 | the trimmed text is the original minus its leading and trailing white space, with white space at neither end |
| Strings.TrimTrimmed | src-tauri/src/douyin.rs:389 | text with no white space at either end is its own trim |
| Douyin.SaveName | src-tauri/src/douyin.rs:388-389 | the name is the text before the first `#` of the title with the leading white space dropped and only white space dropped after it; it has no `#` and no white space at either end |
| Douyin.SaveNameIdempotent | src-tauri/src/douyin.rs:388-389 | the name of a name is the name itself |
| Douyin.GetSavePath | src-tauri/src/douyin.rs:386-392 | ends in `.mp4` directly after the name; lies under the save directory unless the name is absolute, in which case it is the name plus `.mp4`; the final component has no `#`; for a non-empty name without `/` the final component is the name plus `.mp4` and its stem is the name |
| Paths.FileNameAfterSeparator | src-tauri/src/douyin.rs:389 | after a directory part that is empty or ends in `/`, a name without `/` is the file name |
| Paths.FileNameWithin | src-tauri/src/douyin.rs:389 | after a directory ending in `/`, the file name lies within what follows |
| Douyin.SingleItem | src-tauri/src/douyin.rs:128-151 | the item's id, title, play URL and cover are the normalised fields |
| Douyin.SingleResult | src-tauri/src/douyin.rs:157-190 | the author with a count of 1; one item; cursor 0; no more pages |
| Douyin.UserInfoFrom | src-tauri/src/douyin.rs:242-259 | a missing `aweme_count` gives 0; a present one is kept modulo 65536, and exactly when it is below 65536 |
| Douyin.ListItem | src-tauri/src/douyin.rs:290-310 | unquoted id, play URL (not rewritten) and cover; the list title of the description |
| Douyin.VideoListFrom | src-tauri/src/douyin.rs:274-317 | `max_cursor` defaults to 0 and `has_more` to false, also when the list is missing or empty; otherwise one item per entry, in order |
| Douyin.Message | src-tauri/src/douyin.rs:46-69 | every error shows a non-empty text |
| Douyin.MessagesDistinct | src-tauri/src/douyin.rs:46-69 | no two errors share a message |
| Douyin.SingleSearch | src-tauri/src/douyin.rs:101-194 | a failed redirect is a network error; an empty id is "video not found"; the result is Ok iff the id is non-empty and the item request succeeds, and is then the single result |
| Douyin.MultiSearch | src-tauri/src/douyin.rs:322-352 | the errors in the order of the source; the user is looked up by id, and the first page asked for with cursor 0 and the user's video count |
| Douyin.AllVideoInfo | src-tauri/src/douyin.rs:357-384 | the loop stops at the first page without more or at the fifth failure overall; each request uses the cursor left by the previous success; the successful pages are emitted once each, in order |
| Douyin.FiveFailuresStop | src-tauri/src/douyin.rs:376-380 | five failures in a row end the loop at the fifth |
| Douyin.BudgetNotRefilled | src-tauri/src/douyin.rs:359-381 | a success in between does not refill the budget: the fifth failure overall still ends the loop |

## Left out

- HTTP and JSON. Requests, redirects and decoding are inputs:
  - a `Server` function answers by the Range header;
  - the search commands receive the resolved URL and the API answers, keyed by request URL;
  - `Value::to_string` rendering and escaping are taken as given strings, and `as_u64`/`as_bool`/`is_array` results as options.
- Concurrency. Workers are modelled as running one after another in range order, so interleavings of pieces from different workers are not modelled. This also drops `tokio::spawn`, `join_all`, and the `RwLock` held across each write.
- Polling loops, `sleep`, the floating-point percentage and `window.emit` events inside the download commands. `douyin_single_download` and `douyin_muplit_download` are only Downloader construction, `download` and these event loops, so they are not modelled beyond `Download` and `GetSavePath`.
- Real file I/O. `OpenOptions` and `write_at`/`seek_write` are a `Disk` function deciding how much of each write is accepted. The `cfg(any(linux))` variant of the write function cannot be compiled and is not modelled.
- The probe request and its failures. `Downloader.Downloader.constructor` requires a content length and a valid save path instead of modelling the panics. `Paths.ValidSavePath` restricts paths to `/`-separated ones without empty or `.` components. Windows path rules are not modelled.
- Client construction failures (`SystemError` in `douyin_muplit_search`, panics in `douyin_single_search`). Source files outside downloader.rs and douyin.rs (main.rs, the front end) are not part of this model.
- `Downloader.Downloader.ReceiveBody`: offsets and the counter are unbounded naturals, so the `u64` overflow of `offset += len` and `*size += len` is not modelled, nor that of the planner's `end += chunk_size` (downloader.rs:212).
- `Downloader.Downloader.Download`: it requires `1 <= chunk_count <= T` on the chunked path instead of modelling the division by zero (count 0) and the endless planning loop (count above T).
- `Douyin.AllVideoInfo`: it requires the outcome sequence to contain a stopping point. A server that always answers `has_more = true` keeps the source looping forever.
- The getters `total_size`, `chunk_count`, `get_save_path` and `is_support_range` are the class's constant fields. `downloaded_size` is `DownloadedSize`.
