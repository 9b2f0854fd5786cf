# Investor portal exports, modelled in Dafny

This project models the export feature of the ATM Group investor portal and
the small request-handling pieces around it.

**The export flow.** A caller asks for an export of the properties matching
the request's filters. The query is not restricted to the caller's own
properties, so empty filters export every property.
- The API puts a `generateExport` job on a queue and answers 202 with the
  job's id.
- A worker fetches the properties and writes either a PDF (a title, then one
  seven-line block per property) or a CSV file (one row per property).
- For a PDF it stores an export record. The record is marked `completed` and
  carries the file path, a random 64-hex-character download token, and an
  expiry one hour ahead.
- A status endpoint reports the record's status. While the link is valid it
  also returns a download URL.
- A download endpoint serves the file to whoever presents an unexpired
  token.
- A cleanup script deletes expired completed records and their files.

**The supporting pieces.**
- The Bearer-token and role middleware.
- The HTTP error-response mapper.
- The front end's properties reducer.

**How the model is written.**
- The export records live in `ExportJobModel.ExportJobCollection`, a class
  whose `records` sequence keeps MongoDB's insertion order.
  - A lookup returns the first match and a delete removes the first match.
  - Every state change is stated as `records == F(old(records), …)`, where
    `F` is a pure function over sequences. The properties are proved as
    lemmas about those functions.
  - The unique indexes on `jobId` and `downloadToken` are the store invariant
    `ValidStore`.
  - Saving a token that another job's record already holds is the
    duplicate-key error. The worker swallows it and the store is left
    unchanged.
- The file system is `Storage.Disk`, a map from path to artifact plus the set
  of paths whose unlink fails.
- The queue is `ExportQueue.JobQueue`. It appends jobs and hands out the
  decimal ids "1", "2", … of a counter.
- The clock (milliseconds), the random token bytes and the fetched property
  list are parameters.

The model follows the code as written, including these behaviours:
- The CSV branch writes its file but never creates or updates a record. CSV
  exports therefore never become downloadable.
- No code path ever writes status `failed`. A failing fetch is rethrown, and
  a failing metadata save is logged and swallowed.
- `enqueueExport` forwards only `userId` and `filters` and drops `format`. So
  every job submitted through the API takes the CSV branch
  (`ExportLifecycle.SubmitThenProcess`).
- The status endpoint offers the URL only while `expiresAt > now`. The
  download endpoint refuses only when `expiresAt < now`. At the expiry instant
  the file is still served though no URL is shown.
- A record with a token but no expiry is served by download, since a missing
  date is never "less than" now. Status gives it no URL.
- Both 404 cases of the download endpoint are distinct replies:
  "Invalid or expired download link" and "File not found".

## Model

| member | source | states |
|---|---|---|
| ExportJobModel.ValidStore | backend/models/ExportJob.js:4-8 | the unique indexes as a store invariant: every record has a nonempty jobId, no two records share a jobId, and no two share a present token |
| ExportJobModel.NewExportJob | backend/models/ExportJob.js:3-10 | a record created without a status is `pending`; jobId, userId and both timestamps are the given ones |
| ExportJobModel.FirstIndex | backend/controllers/exportController.js:22 | the index found matches, every earlier record does not, and none is found iff no record matches |
| ExportJobModel.FindByJobId | backend/controllers/exportController.js:22 | `findOne({jobId})` finds nothing iff no record has that jobId; a found record is stored and has it |
| ExportJobModel.FindByToken | backend/controllers/exportController.js:44 | `findOne({downloadToken})` finds nothing iff no record holds that token; a found record is stored and holds it |
| ExportJobModel.FindByJobIdUnique | backend/models/ExportJob.js:4 | under the unique jobId index, looking up a stored record's jobId returns exactly that record |
| ExportJobModel.FindByTokenUnique | backend/models/ExportJob.js:8 | under the unique token index, looking up a stored record's token returns exactly that record |
| ExportJobModel.DeleteFirst | backend/workers/cleanupExpiredExports.js:22 | deleting an absent job leaves the store as it was; deleting a present one removes exactly one record |
| ExportJobModel.RemoveAtPreservesValid | backend/models/ExportJob.js:4-8 | removing any record keeps jobIds present and unique and tokens unique |
| ExportJobModel.DeletePreservesValid | backend/workers/cleanupExpiredExports.js:22 | deleting by jobId keeps the store valid; afterwards a record is stored iff it was stored before and has another jobId |
| ExportJobModel.UpsertCompleted | backend/workers/exportWorker.js:65-76 | the save fails iff a record of another job already holds the token; on success an existing record is updated in place, otherwise one is added |
| ExportJobModel.TokenHeldByOther | backend/models/ExportJob.js:8 | the duplicate-key condition of the unique token index: a record of another job already holds the token; `UpsertCompleted` fails exactly when it holds and `FreshTokenAccepted` shows a fresh token never triggers it |
| ExportJobModel.AfterCompletionSave | backend/workers/exportWorker.js:65-81 | the store after the completion save: the upsert's result, or the store as it was when the duplicate-key error is caught and logged; `UpsertEffect` and `RedeliveryKeepsOneRecord` state its contents and `ExportJobCollection.FindOneAndUpdateCompleted` performs it |
| ExportJobModel.FreshTokenAccepted | backend/workers/exportWorker.js:62-76 | a token no record holds is always saved |
| ExportJobModel.Complete | backend/workers/exportWorker.js:67-74 | the updated record carries the update document's jobId, userId, `completed`, path, token and expiry; it keeps its creation time and takes `now` as its update time |
| ExportJobModel.UpsertUpdatesExisting | backend/workers/exportWorker.js:65-75 | updating the job's existing record keeps the store valid and leaves every other job's record as it was |
| ExportJobModel.UpsertInsertsNew | backend/workers/exportWorker.js:65-75 | inserting the first record of a job with a fresh token keeps the store valid |
| ExportJobModel.UpsertEffect | backend/workers/exportWorker.js:62-76 | after a successful save the store is valid; the job has a record that is `completed` with the path, token and expiry written together; records of other jobs are unchanged |
| ExportJobModel.RedeliveryKeepsOneRecord | backend/workers/exportWorker.js:65-76 | saving the same job twice leaves one record for it, carrying the second save's values |
| ExportJobModel.ExportJobCollection.FindOneAndUpdateCompleted | backend/workers/exportWorker.js:65-81 | the store becomes the upsert's result, or stays as it was when the duplicate-key error is raised; validity is kept |
| ExportJobModel.ExportJobCollection.DeleteOne | backend/workers/cleanupExpiredExports.js:22 | the store becomes the old store minus the job's record; validity is kept |
| ExportQueue.JobQueue.Add | backend/controllers/exportController.js:9-12 | the job is appended under the next counter id, which no queued job already has |
| Hex.HexEncode | backend/workers/exportWorker.js:62 | hex-encoding yields two lower-case hex digits per byte |
| Hex.HexRoundTrip | backend/workers/exportWorker.js:62 | decoding the hex text of bytes gives the bytes back |
| Hex.HexEncodeInjective | backend/workers/exportWorker.js:62 | distinct random byte strings give distinct tokens |
| Decimal.NatToDecimal | backend/workers/exportWorker.js:47 | a number in a template literal is a nonempty string of decimal digits |
| Decimal.IntToDecimal | backend/workers/exportWorker.js:50-51 | a price in a template literal is nonempty and starts with `-` iff it is negative |
| Decimal.DecimalRoundTrip | backend/controllers/exportController.js:9-15 | reading the decimal text of a queue counter gives the counter back |
| Decimal.DistinctDecimals | backend/controllers/exportController.js:9-15 | distinct counter values give distinct job ids |
| Paths.Basename | backend/controllers/exportController.js:54 | the basename holds no separator and is a suffix of the path |
| Paths.BasenameOfJoin | backend/workers/exportWorker.js:38 | the basename of `dir/name` is `name` when the name holds no separator |
| Paths.JoinPath | backend/workers/exportWorker.js:38 | `path.join(dir, name)` as `dir/name`; `BasenameOfJoin` shows the name is recovered as its basename |
| ExportArtifacts.StreetText | backend/workers/exportWorker.js:48 | the street, or `''` when the address or street is missing |
| ExportArtifacts.CountryText | backend/workers/exportWorker.js:49 | the country, or `''` when the address or country is missing |
| ExportArtifacts.PropertyBlock | backend/workers/exportWorker.js:47-53 | each property renders as exactly seven lines |
| ExportArtifacts.PdfBlocks | backend/workers/exportWorker.js:46-55 | the property blocks together are seven lines per property |
| ExportArtifacts.PdfBlockAt | backend/workers/exportWorker.js:46-55 | lines 7i to 7i+6 of the blocks are property i's block, numbered `Property #i+1`, in input order |
| ExportArtifacts.PdfLayout | backend/workers/exportWorker.js:43-55 | the document is the title `Property Export` followed by property i's block at line 1+7i, for every i |
| ExportArtifacts.PdfLineAt | backend/workers/exportWorker.js:46-55 | line 1+7i+k of the document is line k of property i's block, for every property i and k below 7 |
| ExportArtifacts.PdfLines | backend/workers/exportWorker.js:43-55 | the whole document: the title, then each property's block in input order; `PdfLayout` and `PdfLineAt` state its length and where each line sits, `PdfBlockText` what each line shows |
| ExportArtifacts.PropertyBlockText | backend/workers/exportWorker.js:47-53 | a block reads `Property #<i+1>`, then `Address: `, `Country: `, `Purchase Price: `, `Current Value: `, `Status: `, `Property Type: ` each followed by the property's value |
| ExportArtifacts.LineText | backend/workers/exportWorker.js:43-53 | the text one `doc.text` call shows: the title, `Property #<n>` or `Caption: value`; `PropertyBlockText` and `PdfBlockText` state it line by line |
| ExportArtifacts.ShowNumber | backend/workers/exportWorker.js:50-51 | a number interpolated into a template literal: its decimal text, or `undefined` when missing; `Decimal.IntToDecimal` states the decimal text, `PdfBlockText` where it appears |
| ExportArtifacts.ShowText | backend/workers/exportWorker.js:52-53 | a string interpolated into a template literal: the string, or `undefined` when missing; `PdfBlockText` states where it appears |
| ExportArtifacts.PdfBlockText | backend/workers/exportWorker.js:43-53 | the page shows `Property Export`, then `Property #<i+1>`, `Address: <street or ''>`, `Country: <country or ''>` and the four `Caption: <value>` lines for property i |
| ExportArtifacts.RenderPdf | backend/workers/exportWorker.js:43-55 | the loop that writes one block per property produces exactly the specified document |
| ExportArtifacts.WriteCsvRows | backend/workers/exportWorker.js:95-104 | one row per property, in input order, each the property's column mapping |
| ExportArtifacts.CsvRowOf | backend/workers/exportWorker.js:96-103 | the row object written for a property: street and country with `''` fallbacks, the other four fields as they are; `WriteCsvRows` writes one per property and `PdfAgreesWithCsv` ties it to the PDF |
| ExportArtifacts.PdfAgreesWithCsv | backend/workers/exportWorker.js:46-104 | the PDF's Address and Country lines of property i carry the same text as CSV row i |
| Storage.Disk.WriteFile | backend/workers/exportWorker.js:40 | writing a path sets that path's content and changes no other file |
| Storage.Disk.Unlink | backend/workers/cleanupExpiredExports.js:19-21 | unlink succeeds iff the file exists and is deletable; only then is the file gone |
| Storage.Disk.Exists | backend/workers/cleanupExpiredExports.js:19 | `fs.existsSync`: the path is a file on the disk; `CleanupExpiredExports.SweepOne` tests it before unlinking, and its ensures tie the removal to `HasFile` over the disk's paths |
| ExportWorker.ExportFileName | backend/workers/exportWorker.js:38 | the file name is eleven characters longer than the job id and holds a `/` iff the job id does |
| ExportWorker.ExportPath | backend/workers/exportWorker.js:38 | the file name joined to the export directory; `ExportPathExtension` and `ExportPathBasename` state its shape |
| ExportWorker.ExportPathExtension | backend/workers/exportWorker.js:37-86 | the path is `exportDir/export_<id>.pdf` for format `pdf` and `exportDir/export_<id>.csv` for any other or missing format; it ends in `.pdf` or `.csv` accordingly |
| ExportWorker.ExportPathBasename | backend/workers/exportWorker.js:38 | the export path's basename is its file name, the name a download is served under |
| ExportWorker.TokenShape | backend/workers/exportWorker.js:62 | the token of 32 random bytes is 64 hexadecimal characters |
| ExportWorker.TokenOf | backend/workers/exportWorker.js:62 | the token has two hexadecimal characters per random byte |
| ExportWorker.CompletionOf | backend/workers/exportWorker.js:62-74 | the update document of a finished PDF job: its id, user, export path, hex token and `now` plus one hour |
| ExportWorker.CsvRows | backend/workers/exportWorker.js:95-104 | one CSV row per property, in input order |
| ExportWorker.ProcessExportJob | backend/workers/exportWorker.js:22-112 | a fetch error is rethrown and changes nothing; a PDF job writes the document and saves the completion record (a save error is swallowed); any other job writes the CSV file and leaves every record unchanged |
| ExportController.EnqueueExport | backend/controllers/exportController.js:6-18 | replies 202 `Export job enqueued` with a new job id; queues exactly `{userId, filters}` without a format |
| ExportController.LinkOffered | backend/controllers/exportController.js:28 | a link is offered when the record is `completed`, its token is present and nonempty, and `expiresAt > now`; `StatusOfStoredJob` states the iff |
| ExportController.GetExportStatus | backend/controllers/exportController.js:20-40 | the reply is "not found" iff no record has the jobId |
| ExportController.StatusOfStoredJob | backend/controllers/exportController.js:27-35 | a stored job's status is returned unchanged; the URL is present iff completed, a nonempty token and `expiresAt > now`; it is the download prefix followed by the token |
| ExportController.DownloadExportFile | backend/controllers/exportController.js:42-59 | the link is refused iff no record holds the token or its `expiresAt < now`; a served file exists, is the record's path and goes out under its basename |
| ExportController.UnknownTokenRejected | backend/controllers/exportController.js:44-47 | a token no record holds is refused |
| ExportController.DownloadOfStoredToken | backend/controllers/exportController.js:44-54 | a stored token is refused iff expired; otherwise a missing file is "not found" and an existing one is served under its basename |
| ExportController.ExpiryInstantDisagreement | backend/controllers/exportController.js:28-45 | at `now == expiresAt` status gives no URL while download still serves the file |
| ExportController.TokenWithoutExpiry | backend/controllers/exportController.js:28-45 | a token without an expiry gets no URL from status but is served by download |
| ExportController.DownloadIgnoresStatus | backend/controllers/exportController.js:44-47 | changing a record's status never changes the download decision |
| CleanupExpiredExports.Expired | backend/workers/cleanupExpiredExports.js:12-15 | the query's condition: status `completed` and a present `expiresAt` strictly before now |
| CleanupExpiredExports.HasFile | backend/workers/cleanupExpiredExports.js:19 | the record has a nonempty `filePath` and that file exists |
| CleanupExpiredExports.UnlinkFails | backend/workers/cleanupExpiredExports.js:19-25 | the existing file cannot be removed, so the error is caught and the record kept |
| CleanupExpiredExports.PathRemovedBy | backend/workers/cleanupExpiredExports.js:19-20 | the file one iteration removes: the record's set, existing, deletable path, or none; `SweepOne` performs it and `SweptStep` adds it to the swept paths |
| CleanupExpiredExports.SweptRecords | backend/workers/cleanupExpiredExports.js:17-27 | the store after the loop has processed the selected records in order; `SweptRecordsMembers` and `SweepOutcome` state its contents |
| CleanupExpiredExports.SweptPaths | backend/workers/cleanupExpiredExports.js:17-21 | the files the loop removes; `SweptPathsExact` and `SweepRemovesExpiredFiles` state which |
| CleanupExpiredExports.ExpiredSelection | backend/workers/cleanupExpiredExports.js:12-15 | selects exactly the records that are `completed` with a present `expiresAt < now`, and no more records than the store holds |
| CleanupExpiredExports.SweptRecordsMembers | backend/workers/cleanupExpiredExports.js:17-27 | the loop's result keeps the store valid and holds exactly the records not deleted by any iteration |
| CleanupExpiredExports.SweepOutcome | backend/workers/cleanupExpiredExports.js:12-27 | after the sweep a record remains iff it was not expired, or its unlink threw |
| CleanupExpiredExports.SecondSweepSelectsOnlyFailures | backend/workers/cleanupExpiredExports.js:12-22 | a second sweep at the same instant selects only records whose unlink failed; after an error-free sweep it selects nothing |
| CleanupExpiredExports.SweptPathsBounds | backend/workers/cleanupExpiredExports.js:19-21 | only existing, deletable files are removed; a missing file is skipped |
| CleanupExpiredExports.SweptPathsExact | backend/workers/cleanupExpiredExports.js:19-21 | a path is removed iff it is the set, existing, deletable `filePath` of some processed record |
| CleanupExpiredExports.SweepRemovesExpiredFiles | backend/workers/cleanupExpiredExports.js:12-21 | the sweep removes exactly the existing, deletable files of the expired completed records |
| CleanupExpiredExports.SweptStep | backend/workers/cleanupExpiredExports.js:17-27 | processing one more selected record deletes it unless its unlink throws, and adds its removed file, if any, to the removed paths |
| CleanupExpiredExports.SweepOne | backend/workers/cleanupExpiredExports.js:18-25 | one iteration: the file is removed when it has a path and exists; the record is deleted unless the unlink throws, in which case both stay |
| CleanupExpiredExports.CleanupExpiredExports | backend/workers/cleanupExpiredExports.js:7-30 | the loop leaves exactly the swept store and removes exactly the swept files; an unlink error skips that record's delete and the loop goes on |
| ExportLifecycle.CompletedPdfExportWindow | backend/workers/exportWorker.js:62-76 | after a PDF job completes, status offers `prefix+token` strictly before now+1h and download serves `export_<id>.pdf` up to and including it; afterwards both refuse |
| ExportLifecycle.SubmitThenProcess | backend/controllers/exportController.js:9-12 | a job submitted through the API is processed as CSV: the CSV file is written and no record is created |
| ExportLifecycle.SweptJobIsGone | backend/workers/cleanupExpiredExports.js:17-23 | a record the sweep deleted is "not found" by status and its token is refused by download |
| Auth.Split | backend/middleware/auth.js:11 | splitting gives at least one piece and no piece holds the separator |
| Auth.JoinSplit | backend/middleware/auth.js:11 | joining the pieces of a split with the separator gives the string back |
| Auth.SplitAfterWord | backend/middleware/auth.js:11 | a word followed by the separator is the first piece, and the remaining text splits on its own |
| Auth.TokenOfHeader | backend/middleware/auth.js:11 | the checked token holds no space |
| Auth.StartsWith | backend/middleware/auth.js:7 | `startsWith('Bearer ')`: the header begins with the prefix; `VerifyJwt` answers 401 whenever it fails and `BearerToken` reads the token after it |
| Auth.BearerToken | backend/middleware/auth.js:11 | the token is the first space-free piece after `Bearer `, and the whole rest when it holds no space |
| Auth.VerifyJwt | backend/middleware/auth.js:5-19 | proceeds iff a header starting with `Bearer ` is present and its token verifies; the decoded claims become the user; otherwise 401 with the header or token message |
| Auth.RequireRole | backend/middleware/auth.js:22-29 | allowed iff a user is attached and its role is in the list; otherwise 403 |
| ErrorHandler.StatusOrDefault | backend/middleware/errorHandler.js:8 | the status code when truthy, else 500; never 0 |
| ErrorHandler.MessageOrDefault | backend/middleware/errorHandler.js:9 | the message when truthy, else `An unexpected error occurred`; never empty |
| ErrorHandler.DetailOf | backend/middleware/errorHandler.js:16-19 | the detail for one validation issue: its `param` as field and its `msg` as message; `ErrorResponseFor` states one detail per issue, in order |
| ErrorHandler.ErrorResponseFor | backend/middleware/errorHandler.js:2-38 | status is the truthy status code or 500, message the truthy message or the default; a validation array forces 400, `Validation failed` and one detail per issue in order; production masks 500 messages; details appear iff the errors are an array; stack iff not in production |
| PropertiesSlice.Reduce | frontend/src/features/propertiesSlice.js:25-35 | pending sets `loading`, fulfilled `succeeded` with the payload as items, rejected `failed` with the message as error; each case keeps the other fields; any other action changes nothing |
| PropertiesSlice.ReduceAll | frontend/src/features/propertiesSlice.js:25-35 | the state after dispatching the actions in order; `ReduceAllFields` states its fields |
| PropertiesSlice.ReduceAllFields | frontend/src/features/propertiesSlice.js:25-35 | after any action sequence, items are the last fulfilled payload, status the last lifecycle status and error the last rejection's message, each falling back to the start state |
| PropertiesSlice.FailedHasError | frontend/src/features/propertiesSlice.js:32-35 | from the initial state, status `failed` always comes with a stored error |
| PropertiesSlice.PropertiesStore.constructor | frontend/src/features/propertiesSlice.js:17-21 | the store starts `idle` with no items and no error |
| PropertiesSlice.PropertiesStore.Pending | frontend/src/features/propertiesSlice.js:25-27 | status becomes `loading`; items and error unchanged |
| PropertiesSlice.PropertiesStore.Fulfilled | frontend/src/features/propertiesSlice.js:28-31 | status becomes `succeeded` and items the payload; error unchanged |
| PropertiesSlice.PropertiesStore.Rejected | frontend/src/features/propertiesSlice.js:32-35 | status becomes `failed` and error the message; items unchanged |

## Left out

- The BullMQ queue, Redis connections and job delivery are not modelled. The queue is an append that hands out counter ids, and a job is processed by calling the worker with it.
- Retries are not modelled.
- Mongoose connections and queries are not modelled. `Property.find(filters)` is an input result, either a property list or an error message, so the `filters || {}` default is not modelled.
- Database errors other than the duplicate-key error on `downloadToken` are not modelled.
- The controllers' 500 "Server error" catch paths are not modelled.
- The userId is a plain string. ObjectId casting and `ref` validation are not modelled.
- MongoDB's treatment of missing tokens in a unique index is not modelled. Any number of records may lack a token.
- `cleanupExpiredExports` deletes by `_id`; the model deletes by the unique `jobId`, which picks out the same record.
- `crypto.randomBytes` and `Date.now` are parameters.
- Mongoose's `createdAt` and `updatedAt` take the same `now` as the worker.
- PDF layout (font sizes, alignment, `moveDown`) is not modelled, and neither are fast-csv's header line and quoting. The model keeps the logical lines and rows.
- Numbers are rendered by an integer-to-decimal function. Floating-point prices are not modelled.
- Stream `finish` callbacks and their ordering are not modelled. The record is saved right after the PDF is written, and the CSV branch's completion callback only logs.
- The creation of the export directory is not modelled.
- Failures while writing an export file are not modelled. Every write succeeds and its completion callback runs, so a failed PDF write that would skip the record save is not captured.
- Path normalisation in `path.join` and `path.basename` is not modelled. Joining is `dir + "/" + name`, and the basename is the text after the last `/`.
- JSON `null` values are not modelled. An absent field is `None`, and an absent number or text renders as `undefined`.
- The internals of `jwt.verify` (signature, secret, expiry) are not modelled. It is a function parameter from token to optional claims.
- express-validator chains, route wiring and the server set-up are not modelled.
- The User and Property schemas, the placeholder controllers and services, and the React components are not modelled.
- `fetchProperties`, whose payload is a fixed placeholder list, is not modelled. The reducer takes any payload.
- Concurrent workers and the race between sweep and download are not modelled. The store is used sequentially.
- Logging (`console.log`, `console.error`) is not modelled.
