# twitter-list-downloader, modelled in Dafny

The downloader polls Twitter for new statuses of configured users and lists
and saves the photos, videos and animated GIFs attached to them. This project
models the two functions that do the work in `index.js`:

- `getMaxStatuses` is the cursor pagination over a timeline endpoint. It sends
  `since_id` (the watermark) and `max_id` (the cursor) when they are truthy. It
  appends every accepted page and moves the cursor to the page's last id. It
  stops on an empty page, or on a page that ends on the cursor.
- `saveStatuses` is a pure planning function. From a batch of statuses, the
  options and the set of paths that exist before the batch, it returns:
  - the new watermark (`latestTweetId`);
  - the files it creates, in issue order, each a download URL or an empty
    dry-run placeholder;
  - the text it appends to `_retweets.txt`;
  - or, when a video without variants makes the `forEach` throw, the writes
    issued before the throw.

Modules:

| module | file | what |
|---|---|---|
| `Wrappers` | wrappers.dfy | `Option` |
| `Tweets` | tweets.dfy | statuses, media, variants; unwrapping retweets and quotes |
| `Decimal` | decimal.dfy | decimal numerals for the `index + 1` in file names |
| `Paths` | paths.dfy | `path.join` and POSIX `path.extname` |
| `Pagination` | pagination.dfy | `getMaxStatuses`: the request loop, with a fuel bound |
| `Timeline` | timeline.dfy | an endpoint that serves a timeline with inclusive `max_id`, and what the loop collects from it |
| `Variants` | variants.dfy | the `reduce` that picks a video variant |
| `Watermark` | watermark.dfy | the `latestTweetId` scan |
| `Resolve` | resolve.dfy | per-attachment decisions: options and defaults, type filter, file name, extension, URL, directory |
| `Save` | save.dfy | the walk over the attachments against the pre-batch filesystem, and `saveStatuses` |

Modelling decisions:

- **The API.** The API is a total function from a request (`since_id`,
  `max_id`) to a page.
- **Fuel.** Nothing bounds the loop for an arbitrary API, so a run carries
  `fuel`, the number of requests it may make. `finished` says whether the run
  stopped by itself.
- **File checks.** The model assumes that the `existsSync` checks of files
  (line 201) see the filesystem as it was before the batch: no file the
  batch opens becomes visible to a later check of the same batch. This is
  an assumption, not a property of the program (see "## Left out").
- **Directories.** `mkdirSync` is synchronous, and the model tracks the
  directories it creates. The check of the retweet directory at line 228
  therefore sees the directories the batch created.

Behaviours of `index.js` that the model makes explicit:

- The loop does not filter statuses by timestamp.
- The loop does not deduplicate. Against an endpoint whose `max_id` is
  inclusive, the status at each page boundary is collected twice
  (`Timeline.BoundaryCollectedTwice`).
- Because consecutive pages share a status, a timeline of `n >= 2` statuses
  in pages of `count` takes `2 + (n - 2) / (count - 1)` requests
  (`Timeline.RequestsClosedForm`): five for 600 statuses in pages of 200,
  not `ceil(600 / 200) + 1 == 4` (`Timeline.SixHundredInPagesOfTwoHundred`).
- The watermark keeps the **earliest** status with the latest date on a tie
  (the comparison is a strict `>`).
- Statuses without media count toward the watermark.
- When an original and a retweet of it arrive in the same batch, both copies
  are written (`Save.OriginalAndRetweetInOneBatch`), under the file-check
  assumption above. The "already in the base folder" check at line 200 only
  works across batches.

## Model

| member | source | states |
|---|---|---|
| Tweets.Canonical | index.js:159-160 | The tweet used is the retweeted status, else the quoted one, else the status itself. It differs from the status exactly when the status is a retweet or a quote. |
| Pagination.RequestFor | index.js:126-130 | A request carries `since_id` exactly when the watermark is present and non-empty, and `max_id` exactly when the cursor is; each carries the value given. |
| Pagination.MaxIdOnlyAfterFirstPage | index.js:123-136 | The first request carries no `max_id`. A later one carries `max_id` exactly when the previous page's last id is non-empty. |
| Pagination.Accepted | index.js:134-138 | A page is kept when it is non-empty and its last id differs from the cursor; otherwise the loop breaks. Definition used by `Paginate`. |
| Pagination.Paginate | index.js:125-140 | The loop as a recursion on the remaining requests: request with the current cursor, keep an accepted page and move the cursor to its last id, stop otherwise. Its properties are the rows below. |
| Pagination.PaginateAnswers | index.js:125-140 | Every page a run keeps is the API's answer to the request built from the watermark and the cursor in force: the previous page's last id, or none at first. Every kept page is non-empty and does not end on its cursor. |
| Pagination.PaginateStops | index.js:125-140 | A run makes at most `fuel` requests. A run that did not finish used all of its fuel. A run that finished did so because the API's next answer was empty or ended on the cursor. |
| Pagination.FuelBeyondFinishIsIrrelevant | index.js:125-140 | Once a run finishes by itself, more fuel gives the same pages, so the fuel bound does not change a run that terminates. |
| Pagination.PaginateConcatenates | index.js:134-136 | The statuses a run returns are its kept pages, concatenated in request order. |
| Pagination.GetMaxStatuses | index.js:122-141 | The loop returns the concatenation of the pages of the run, and says whether it stopped by itself. Loop invariants connect each iteration to the recursive definition. |
| Timeline.TimelineComplete | index.js:122-141 | Against an endpoint serving a timeline with unique, non-empty ids and a page size of at least two, with the requests it needs allowed, the loop stops by itself. A status is collected exactly when it is in the timeline. |
| Timeline.BoundaryCollectedTwice | index.js:130-136 | With an inclusive `max_id`, the status at the first page boundary appears at least twice in the result: the loop does not deduplicate. |
| Timeline.ServedFinishes | index.js:125-140 | Against an endpoint serving the timeline, a run finishes by itself exactly when it may make at least `Requests(|t|, count)` requests. |
| Timeline.RequestsClosedForm | index.js:125-140 | The number of requests of a complete run is `n + 1` for `n <= 1` statuses and `2 + (n - 2) / (count - 1)` otherwise, because each page after the first starts at the previous page's last status. |
| Timeline.SixHundredInPagesOfTwoHundred | index.js:125-140 | For 600 statuses in pages of 200, four requests do not finish the run and five do. |
| Timeline.ServedCollects | index.js:134-136 | The run returns the first page followed by one window per later request, each window starting at the previous cursor. |
| Timeline.CollectedIsTimeline | index.js:134-136 | The overlapping windows together hold exactly the statuses of the timeline. |
| Decimal.ParseNatToString | index.js:173 | The decimal numeral of `index + 1` reads back as the same number. |
| Decimal.NatToStringInjective | index.js:173 | Different numbers render as different numerals. |
| Paths.Join | index.js:197-198 | A joined path starts with the directory and ends with the file name. |
| Paths.Extname | index.js:178 | The extension is empty or starts with `.`. It is a proper suffix of the last path component and contains no later `.` or `/`. It is empty exactly when that component has no `.`, has one only in first position, or is `..`. |
| Variants.Pick | index.js:184-190 | Each `reduce` step keeps a candidate, meaning the first variant or an mp4 one. No candidate seen so far has a higher bitrate, and every earlier candidate has a strictly lower one. |
| Variants.BestVariant | index.js:184-190 | The chosen variant is the earliest candidate of maximal bitrate. Only the first variant or an mp4 variant can be chosen. |
| Variants.BestVariantUrl | index.js:184-190 | The URL is an mp4 variant's whenever some mp4 variant has a higher bitrate than the first. |
| Watermark.Scan | index.js:163-166 | The scan from position `i` with the pick so far returns none only for an empty batch, and otherwise a position whose date no status exceeds and that every earlier status undercuts. |
| Watermark.LatestIndex | index.js:155-166 | There is no pick for an empty batch. Otherwise the pick is a status whose canonical tweet has the latest date, and every earlier status is strictly older (ties keep the first). |
| Watermark.LatestTweetId | index.js:155-166 | The returned id is undefined for an empty batch. Otherwise it is the canonical id of the first status with the latest date. |
| Watermark.WatermarkIgnoresMedia | index.js:158-168 | Batches whose canonical tweets agree on id and date, position by position, get the same watermark, whatever their media. |
| Resolve.Configure | index.js:144-145 | The output path overrides the base directory, which defaults to `./out/{folderName}/`. The retweets path overrides the retweet directory, which defaults to `Join(baseDir, "retweets")`. |
| Resolve.Allowed | index.js:147-153 | Photos, videos and GIFs are enabled unless their option is `false`; any other type is never downloaded. Definition used by the filter at line 170. |
| Resolve.AllTypesByDefault | index.js:147-153 | With no media-type options, exactly the three known types are downloaded. |
| Resolve.FileBase | index.js:173 | A file base starts with the author's screen name and ends with an underscore and the 1-based media index in decimal. |
| Resolve.FileBaseInjective | index.js:173 | File bases of different media indexes of one tweet stay different when each is followed by a string that is empty or starts with a non-digit. |
| Resolve.FileNamesDistinct | index.js:173-193 | Two attachments of one tweet that are both written get different file names: the extension and `_blank` start with `.` or `_`. |
| Save.Attachments | index.js:158-169 | The attachments of a batch are exactly the valid (status, media index) pairs of its statuses. |
| Save.Walk | index.js:169-224 | The walk never writes to a path that existed before the batch. It throws exactly when some attachment is an enabled video or GIF without variants. |
| Save.WalkWritesSound | index.js:197-217 | Every write belongs to an attachment reached before any throw whose file exists neither in the base directory nor at the target. |
| Save.WalkWritesComplete | index.js:197-217 | Every such attachment issues its write. |
| Save.WalkLinesSound | index.js:219-221 | Every log line is `{author of the outer status}` plus the file name of a written attachment of a retweet. |
| Save.WalkLinesComplete | index.js:219-221 | Every written attachment of a retweet contributes its log line. |
| Save.WalkWritesInOrder | index.js:197-217 | A walk that does not throw issues one write per fresh attachment, in visiting order, and nothing else. |
| Save.WalkLinesInOrder | index.js:219-221 | A walk that does not throw gathers one log line per fresh attachment of a retweet, in visiting order, and nothing else. |
| Save.WalkDirsSound | index.js:195 | Without a throw, a directory is created only as the target of some enabled attachment. |
| Save.WalkDirsComplete | index.js:195 | Without a throw, the target directory of every enabled attachment is created. |
| Save.RenderAppend | index.js:220 | Rendering distributes over concatenation: appending one line at a time with `+=` yields the rendering of all lines in order. |
| Save.Render | index.js:220 | The log text is empty exactly when there are no lines. |
| Save.LineText | index.js:220 | Each log line is non-empty and ends in a newline. |
| Save.Fresh | index.js:197-201 | An attachment is written when its type is enabled, it has a source, and neither `{baseDir}/{name}` nor `{dir}/{name}` existed before the batch. Definition used by the rows below. |
| Save.SaveStatuses | index.js:143-235 | `saveStatuses` throws exactly when some attachment is an enabled video or GIF without variants. Otherwise it returns the watermark. It never writes over an existing path. It appends to `{retweetDir}/_retweets.txt` exactly when retweets are logged and the retweet directory existed before or was created by the batch. |
| Save.WritesFollowMedia | index.js:170-213 | Every write comes from an enabled attachment of the batch. Its path is `{dir}/{file base}{ext}` with `_blank` in a dry run: `dir` is the retweet directory for a retweet and the base directory otherwise, and `ext` is the URL's extension for a photo and `.mp4` otherwise. It is a placeholder exactly in a dry run. Otherwise it downloads the photo at `:orig`, or the chosen variant of a video or GIF, which has at least one. |
| Save.SaveWrites | index.js:197-217 | Every write belongs to a new attachment reached before any throw. When the batch completes, every new attachment is written, and the writes are exactly one per new attachment, in visiting order (`FreshWrites`). |
| Save.SaveLogLines | index.js:219-230 | When the log is appended, its lines are exactly those of the new attachments of retweets in the batch: one line per such attachment, in visiting order (`RetweetLines`), so a status that occurs twice in the batch is logged twice. |
| Save.RerunWritesNothing | index.js:197-201 | Once the files of a run exist, running the same batch again writes nothing, logs no line, and ends the same way with the same watermark. |
| Save.DisabledTypeNeverWritten | index.js:147-153 | No attachment of a disabled type is ever written. |
| Save.WritesLandInTargets | index.js:171-201 | Every write goes to the base directory for an original, or to the retweet directory for a retweet. It uses the file name of an attachment of the batch. Neither the base-directory copy nor the target existed before. |
| Save.PhotosOnlyComplete | index.js:176-180 | A batch with only photos always completes. |
| Save.OriginalAndRetweetInOneBatch | index.js:200-201 | In any batch holding an original and a retweet of it that completes, each enabled attachment of the original whose file exists in neither directory is written both to the base directory and to the retweet directory. |
| Save.OriginalAndRetweetPhotos | index.js:176-201 | A batch of an original with only photos and a retweet of it always completes, and each photo whose file exists in neither directory is written to both directories. |

## Left out

- The driver, lines 1-118, is not modelled. It covers reading the config and metadata, the `lists/show` lookup, writing the metadata file, and the `Promise.all` concurrency.
- HTTPS downloads, stream piping and write errors are left out. A write is modelled as the path and what would be written to it.
- Parsing `created_at` with luxon is left out. A status carries its date already parsed, as an instant and an ISO calendar date, so invalid dates are not modelled.
- Paths.Join: does not normalise `.` and `..` segments or repeated separators the way `path.join` does. The set of existing paths is assumed to be spelled the way the program spells them.
- Only whether `mkdirSync` runs for a directory is modelled. Recursive creation of its ancestors and errors from it are not.
- Media type strings that name properties of `Object.prototype` are not modelled. Such strings read as enabled in `allowedMediaTypes`. Every other unknown type is modelled as disabled.
- Missing `bitrate` fields are not modelled. Every variant carries an integer bitrate. A missing `video_info` is treated like an empty list of variants.
- Pagination.Paginate: bounded by `fuel`. A run that never stops for the API at hand shows up as `finished == false`, not as divergence.
- Timeline.Serves: the modelled endpoint does not apply `since_id`. Its timeline is taken as already cut at the watermark.
- The caller's reset of the watermark to `undefined` after an empty batch (line 75) is not modelled. Only the value `saveStatuses` returns is.
- The batch's own files are assumed invisible to its later file checks at line 201. For `fs.createWriteStream` on Node 15 and later that holds, since the stream opens its file on a later tick, after the synchronous `forEach` ends. `fs.writeFile` in a dry run (line 203) starts opening its file at once on another thread, so a later check of the same batch may see it. In a dry run the program may then skip the retweet's copy. The check of the retweet directory at line 228 is not affected: `mkdirSync` is synchronous and its directories are modelled.
- Save.OriginalAndRetweetInOneBatch: holds under the assumption above. In a dry run the real program may write only the first copy, depending on thread timing.
- Rate limits, API errors and rejected promises from `twitter.get` are not modelled.
