# PaperViz translation service: the job pipeline in Dafny

The PaperViz translation service takes a paper's PDF and has it translated into
Chinese, either Chinese only (`mono`) or bilingual side by side (`dual`). The
translation engine is pdf2zh_next. A client submits a job over HTTP, polls its
status, and can cancel it. A Celery worker runs the job:

1. fetch the PDF, guarding against server-side request forgery;
2. validate it;
3. stream the engine's events, writing throttled progress;
4. pick the output file and upload it to R2;
5. classify any failure as terminal or retryable.

Every stage writes the job's row in the `paper_translations` table. The
internal status names are narrowed to the five values the table accepts.

This project models that core and proves properties about it. There is one
module per source file:

| module | file | form |
|---|---|---|
| `Exceptions` | `exceptions.py` | the exception hierarchy as a datatype |
| `R2Storage` | `services/r2_storage.py` | pure functions and lemmas |
| `SupabaseClient` | `services/supabase_client.py` | pure functions, plus the class `RecordStore` |
| `TranslateTask` | `tasks/translate.py` | functions, plus methods against the store |
| `Api` | `main.py` | functions, plus methods against the store |
| `Py` | none | helper: the Python `str` operations the code relies on |
| `Wrappers` | none | helper: `Option`/`Result` |

- **`R2Storage`.** `_is_internal_ip` works on IPv4 networks as 32-bit
  bit-vectors. `urlparse(url).hostname` is modelled far enough to say which
  host a URL names. `download_pdf` is a first-success walk over a plan of up to
  three attempts.
- **`SupabaseClient`.** `RecordStore` holds the table as a `map` that every
  upsert replaces. It also keeps a ghost log of the calls made. Its invariant is
  that the rows are the replay of that log over the initial table.
- **`TranslateTask`.** `_run_translation` is a `while` loop over the event
  stream, and the output choice is the candidate loop. Each method is proved
  against a specification function (`Consume`, `ChosenOutput`, `Attempt`,
  `Task`). Lemmas give the status trail one run writes and what the row holds
  afterwards.
- **`Api`.** The three endpoints are methods that read and write the store.

The surroundings are parameters:

- the HTTP and S3 answers;
- what the PDF library says about the document;
- the engine's event stream;
- the file system;
- the queue's task id;
- the clock (`now`);
- any exception that strikes part way (the soft time limit, a disk error).

## Model

| member | source | states |
|---|---|---|
| `R2Storage.AnyRangeContains` | services/r2_storage.py:39-49 | the range loop says yes exactly when some network of the list contains the address |
| `R2Storage.ParseOctet` | services/r2_storage.py:42 | an octet that parses is below 256 |
| `R2Storage.OctetRoundTrip` | services/r2_storage.py:42 | the decimal spelling of every number below 256 parses back to it and contains no dot |
| `R2Storage.ParseIPv4` | services/r2_storage.py:42 | a string parses only when it is the canonical dotted quad of some address, and then to that address |
| `R2Storage.ParseFormatRoundTrip` | services/r2_storage.py:42 | parsing the canonical dotted quad of an address gives that address back |
| `R2Storage.IsInternalIp` | services/r2_storage.py:39-49 | a string is flagged only when it is the canonical spelling of an address inside an internal range |
| `R2Storage.InternalQuadSpelling` | services/r2_storage.py:39-49 | the canonical spelling of an address is flagged exactly when the address is inside an internal range |
| `R2Storage.DotlessHostNotInternal` | services/r2_storage.py:39-49 | a host without a dot (an IPv6 literal or a plain name) is never flagged as internal |
| `R2Storage.UrlHostname` | services/r2_storage.py:63-65 | a host found in a URL is not empty and holds no '@', no '/', '?' or '#', and no tab, CR or LF |
| `R2Storage.PlainUrlHost` | services/r2_storage.py:63-65 | an `http(s)://host...` URL names its host, lower-cased |
| `R2Storage.BracketedUrlHost` | services/r2_storage.py:63-65 | an `http(s)://[h]...` URL names `h`, lower-cased |
| `R2Storage.ValidateUrl` | services/r2_storage.py:52-87 | a non-http reference passes; an http URL passes exactly when it names a host that is not internal and, with an allow-list set, is on that list |
| `R2Storage.InternalLiteralRejected` | services/r2_storage.py:72-74 | a URL whose host spells an address in any internal range is refused, whatever the allow-list says |
| `R2Storage.HostRejected` | services/r2_storage.py:72-74 | any http URL whose host is internal is refused |
| `R2Storage.LoopbackRejected` | services/r2_storage.py:32 | `http://127.0.0.1/...` is refused |
| `R2Storage.PrivateAddressRejected` | services/r2_storage.py:29 | `http://10.0.0.5/...` is refused |
| `R2Storage.MetadataEndpointRejected` | services/r2_storage.py:33 | the cloud metadata endpoint `169.254.169.254` is refused |
| `R2Storage.UnlistedHostRejected` | services/r2_storage.py:77-81 | with an allow-list set, a plain host it does not name is refused |
| `R2Storage.HostUnlisted` | services/r2_storage.py:77-81 | with an allow-list set, any http URL whose host is not on it is refused |
| `R2Storage.PublicHostAccepted` | services/r2_storage.py:60-87 | a plain host that is not internal passes when no allow-list is set or the list names it |
| `R2Storage.HostAccepted` | services/r2_storage.py:60-87 | with no allow-list, any http URL with a host that is not internal passes |
| `R2Storage.LocalhostAccepted` | services/r2_storage.py:63-87 | `http://localhost` passes with no allow-list: names are not resolved |
| `R2Storage.Ipv6LoopbackAccepted` | services/r2_storage.py:39-49 | `http://[::1]` passes with no allow-list: only IPv4 ranges are listed |
| `R2Storage.R2Key` | services/r2_storage.py:131 | the key never starts with '/', and a reference without a leading '/' is its own key |
| `R2Storage.PublicObjectUrl` | services/r2_storage.py:133 | the URL ends in '/' and the key; what comes before is the base with its trailing slashes removed: a prefix of the base that does not end in '/', followed in the base only by slashes |
| `R2Storage.Accepted` | services/r2_storage.py:124 | an HTTP answer counts exactly when it is 200 with a non-empty body, and the body is returned |
| `R2Storage.DownloadPdf` | services/r2_storage.py:101-155 | every failure of the download is a `StorageError` |
| `R2Storage.PlannedAttempts` | services/r2_storage.py:115-153 | at most three attempts; an http reference is fetched first as given; a reference with no key is only ever fetched as given |
| `R2Storage.FirstSuccess` | services/r2_storage.py:122-153 | a body is returned exactly when some attempt yields one, and it is the body of the first such attempt |
| `R2Storage.DownloadFollowsPlan` | services/r2_storage.py:101-155 | the download is refused for an http URL that fails validation; otherwise it is the first success of the plan, else "Cannot download PDF" |
| `R2Storage.RejectedUrlHasNoFallback` | services/r2_storage.py:116-120 | a refused URL makes no request: the outcome does not depend on the network or the bucket |
| `R2Storage.FailedHttpUrlBecomesKey` | services/r2_storage.py:131-133 | with a public base set, the second attempt for an http URL fetches the whole URL appended to the base |
| `R2Storage.EmptyBodyOnlyFromS3` | services/r2_storage.py:145-151 | an empty download can only come from the S3 API |
| `R2Storage.NoKeyNoDownload` | services/r2_storage.py:131-155 | a non-http reference made only of slashes fails without any request |
| `R2Storage.UploadPdf` | services/r2_storage.py:158-176 | the upload fails exactly when the put fails, with a `StorageError` naming the reason; with no public base the URL is the key |
| `R2Storage.UploadUrlNamesKey` | services/r2_storage.py:172 | the key is exactly what follows the public base and one '/' in the returned URL |
| `R2Storage.UploadedKeyIsDownloadedFromItsUrl` | services/r2_storage.py:172 | a stored key is fetched back first from the very URL the upload returned |
| `SupabaseClient.MapStatusName` | services/supabase_client.py:35 | a known status becomes one of the five table statuses; an unknown one is passed through |
| `SupabaseClient.StatusTable` | services/supabase_client.py:20-28 | the mapping name by name: queued→pending, downloading→extracting, uploading→translating, cancelled→failed, the rest unchanged |
| `SupabaseClient.MapStatusNameIdempotent` | services/supabase_client.py:20-28 | narrowing twice is narrowing once |
| `SupabaseClient.DbStatusesAreNarrowed` | services/supabase_client.py:18-28 | each status the table accepts is left alone by the mapping |
| `SupabaseClient.MapStatus` | services/supabase_client.py:31-39 | only a textual `status` is rewritten through the mapping; every other field is kept |
| `SupabaseClient.MapStatusIdempotent` | services/supabase_client.py:31-39 | `_map_status` applied twice is applied once |
| `SupabaseClient.Stamp` | services/supabase_client.py:58-59 | an upsert adds `paper_id` and `updated_at` and keeps every other field |
| `SupabaseClient.WithDefaults` | services/supabase_client.py:77-84 | an insert keeps every supplied field; a missing status becomes `pending` and a missing counter becomes 0; nothing else is added |
| `SupabaseClient.UpsertedOthers` | services/supabase_client.py:70-89 | an upsert touches only its own paper's row, and that row exists afterwards |
| `SupabaseClient.UpsertedFields` | services/supabase_client.py:58-89 | the written row holds the paper id, the time, every supplied field as given, and the narrowed status |
| `SupabaseClient.UpsertedKeeps` | services/supabase_client.py:70-89 | a supplied field, other than the three the upsert sets itself, is stored as supplied |
| `SupabaseClient.UpsertedPatchKeeps` | services/supabase_client.py:70-76 | patching an existing row keeps every field the caller did not supply |
| `SupabaseClient.UpsertedInsertDefaults` | services/supabase_client.py:77-89 | a new row gets status `pending` and zero counters where nothing was supplied |
| `SupabaseClient.UpsertedWellFormed` | services/supabase_client.py:52-89 | after any upsert every row names its paper and has a status the mapping leaves alone |
| `SupabaseClient.ReplayAppend` | services/supabase_client.py:52-95 | replaying two runs of upserts one after the other is replaying them joined |
| `SupabaseClient.FailedFields` | services/supabase_client.py:112-117 | status `failed`, and a message of at most 1000 characters that begins the given one and equals it when it is short enough |
| `SupabaseClient.CancelledFields` | services/supabase_client.py:120-125 | status `cancelled` and a cleared message |
| `SupabaseClient.ReplayOthers` | services/supabase_client.py:50-95 | upserts for one paper leave every other paper's row as it was |
| `SupabaseClient.CancelledReadsAsFailed` | services/supabase_client.py:120-125 | a cancelled job is stored as `failed` with no message |
| `SupabaseClient.FailedRowMessage` | services/supabase_client.py:112-117 | a failed job is stored as `failed` with a message of at most 1000 characters that begins the original |
| `SupabaseClient.RecordStore.constructor` | services/supabase_client.py:52-125 | a store starts with the given table and an empty log |
| `SupabaseClient.RecordStore.Upsert` | services/supabase_client.py:52-95 | the call is logged and the rows become the upserted table (unchanged when the store refuses writes), keeping the table well formed |
| `SupabaseClient.RecordStore.GetTranslation` | services/supabase_client.py:98-109 | a row exactly when the read succeeds and the paper has one; that row names the paper and has a narrowed status |
| `SupabaseClient.RecordStore.MarkFailed` | services/supabase_client.py:112-117 | one upsert of the failed fields |
| `SupabaseClient.RecordStore.MarkCancelled` | services/supabase_client.py:120-125 | one upsert of the cancelled fields |
| `TranslateTask.ValidatePdf` | tasks/translate.py:51-82 | a document is accepted exactly when it is at most 50 MiB, starts with `%PDF-`, opens, and has 1 to 100 pages; the page count is returned; every refusal is a `FileValidationError` |
| `TranslateTask.ValidationOrder` | tasks/translate.py:58-73 | size is checked first, then the signature; when either fails, the outcome does not depend on opening the document |
| `TranslateTask.SizeLimitInclusive` | tasks/translate.py:60 | exactly 50 MiB is accepted; one byte more is refused |
| `TranslateTask.ShortInputRejected` | tasks/translate.py:65-66 | fewer than five bytes is refused as not a PDF |
| `TranslateTask.PageLimitMessageNamesLimit` | tasks/translate.py:77-80 | a document over the page limit is refused with a message naming 100 |
| `TranslateTask.PathsOf` | tasks/translate.py:139-146 | the result dictionary has exactly the four output keys |
| `TranslateTask.WritesWellSpaced` | tasks/translate.py:113-121 | each progress write not forced by `progress_end` is at least two points above the previous write |
| `TranslateTask.ThrottleRule` | tasks/translate.py:115 | a progress event is written exactly when it is at least two points above the last write or is `progress_end` |
| `TranslateTask.ProgressEndMayDecrease` | tasks/translate.py:115-116 | a `progress_end` below the last write is still written, so progress can go down |
| `TranslateTask.ConsumeShape` | tasks/translate.py:101-153 | at most one write per event; an engine failure is a `TranslationError`; a successful run gives the four output paths or none |
| `TranslateTask.StopIgnoresRest` | tasks/translate.py:127-151 | nothing after an `error` or `finish` event affects the run |
| `TranslateTask.NoFinishNoPaths` | tasks/translate.py:101-153 | a stream that ends with neither `finish` nor `error` returns no output paths |
| `TranslateTask.ErrorEventRaises` | tasks/translate.py:127-137 | the first `error` event raises a `TranslationError` carrying the engine's message |
| `TranslateTask.ProgressLog` | tasks/translate.py:117-121 | one upsert per progress write, in order, with percent, current and total |
| `TranslateTask.ProgressLogKeepsStatus` | tasks/translate.py:117-121 | progress writes never change the status |
| `TranslateTask.RunTranslation` | tasks/translate.py:87-153 | the loop returns what consuming the stream gives and makes exactly its throttled writes, in order |
| `TranslateTask.ChosenOutput` | tasks/translate.py:249-264 | a file is chosen exactly when one of the two candidates of the mode is usable, and the chosen path is non-empty and exists |
| `TranslateTask.SelectOutput` | tasks/translate.py:249-264 | the candidate loop returns the chosen output exactly when there is one; otherwise it raises `TranslationError` naming the mode |
| `TranslateTask.PrefersUnwatermarked` | tasks/translate.py:249-259 | the unwatermarked file of the mode wins whenever it is usable; only the two candidates of the requested mode are ever chosen |
| `TranslateTask.NoPathsNoOutput` | tasks/translate.py:261-264 | empty output paths give no file to upload |
| `TranslateTask.DownloadingFields` | tasks/translate.py:198-207 | the first write of an attempt asks for status `downloading` and records the task id, the mode, the retry count and the start time, clearing the message and the output URL |
| `TranslateTask.TranslatingFields` | tasks/translate.py:223-232 | the write after validation asks for status `translating`, records the input's size and page count, and resets progress to 0 of the page count |
| `TranslateTask.UploadingFields` | tasks/translate.py:242-245 | the write after the engine finishes asks for status `uploading` at 95 % |
| `TranslateTask.CompletedFields` | tasks/translate.py:277-289 | status `completed`, both URL fields set to the upload's URL, its size, 100 %, progress at the page count out of the page count, the completion time, and no message |
| `TranslateTask.UploadKeyPieces` | tasks/translate.py:271 | the output key splits at '/' into `papers`, the paper id and `translated_{mode}.pdf` |
| `TranslateTask.UploadKeysDistinct` | tasks/translate.py:271 | two jobs share an output key only if they have the same paper and mode |
| `TranslateTask.FirstCatching` | tasks/translate.py:302-335 | the position of the first clause that matches the exception; no earlier clause matches |
| `TranslateTask.HandlerFor` | tasks/translate.py:302-335 | the clause chosen matches the exception |
| `TranslateTask.HandlerChoice` | tasks/translate.py:304-335 | the clauses resolve in order: validation failure, soft time limit, the service's other errors, anything else |
| `TranslateTask.ValidationFailureIsFinal` | tasks/translate.py:304-307 | a validation failure marks the job failed and is rejected on any attempt, although the retry clause would also match it |
| `TranslateTask.RetryBudget` | tasks/translate.py:314-335 | a retry is scheduled exactly when fewer than 2 retries were made and the exception is neither a validation failure nor the time limit |
| `TranslateTask.RetryFields` | tasks/translate.py:323-326 | a retry note leaves the status alone, records the next attempt's number and a message ending in the error's text |
| `TranslateTask.Handle` | tasks/translate.py:302-335 | at most one write and never a success; a rejection exactly for a validation failure; no write exactly when an unexpected exception is retried |
| `TranslateTask.RetryCountWritten` | tasks/translate.py:314-327 | `retry_count` is written exactly when a service error other than a validation failure is retried, and then as the attempt number plus one, at most the budget of 2 |
| `TranslateTask.HandlingStatus` | tasks/translate.py:302-335 | a retry writes no status; every other ending makes exactly one `mark_failed` write |
| `TranslateTask.ExhaustedMessageNamesBudget` | tasks/translate.py:319-322 | the message when retries are exhausted says 2 retries were made |
| `TranslateTask.Deliver` | tasks/translate.py:242-289 | choosing, reading and uploading the output returns and writes what the delivery specification says |
| `TranslateTask.TranslateAndDeliver` | tasks/translate.py:223-289 | translating and delivering returns and writes what the translation specification says |
| `TranslateTask.ProcessDownload` | tasks/translate.py:213-289 | everything after the download returns and writes what the specification says |
| `TranslateTask.Attempt` | tasks/translate.py:196-300 | an attempt starts with the `downloading` write and writes only its own paper's row |
| `TranslateTask.ProcessedForJob` | tasks/translate.py:213-289 | everything after the first write goes to the job's own row |
| `TranslateTask.RunAttempt` | tasks/translate.py:196-300 | the `try` body returns and writes what one attempt's specification says for the download `download_pdf` gives |
| `TranslateTask.DeliveredTrail` | tasks/translate.py:242-289 | delivery writes `uploading` and then `completed` only on success |
| `TranslateTask.TranslatedTrailCases` | tasks/translate.py:223-289 | from validation on: translating, uploading, completed on success; on failure the trail stops after translating or uploading |
| `TranslateTask.AttemptTrail` | tasks/translate.py:196-300 | a successful attempt writes downloading, translating, uploading, completed in order; a failed one stops part way and never writes completed |
| `TranslateTask.HandleFailure` | tasks/translate.py:302-335 | the `except` ladder writes and ends as the handling specification says |
| `TranslateTask.Task` | tasks/translate.py:196-335 | one run writes the attempt's writes and then at most one more, all to its own row, and succeeds exactly when the attempt does |
| `TranslateTask.TaskTouchesOwnRow` | tasks/translate.py:168-343 | one run of the Celery task leaves every other paper's row as it was |
| `TranslateTask.TranslatePaperTask` | tasks/translate.py:168-343 | the Celery task writes and ends exactly as the specification `Task` says for what `download_pdf` gives |
| `TranslateTask.TaskTrail` | tasks/translate.py:196-335 | statuses written by one run: the full trail on success; a trail stopped part way before a retry; on a final failure, a trail stopped part way and then `failed` |
| `TranslateTask.SuccessEndsCompleted` | tasks/translate.py:277-289 | the last write of a successful attempt is the `completed` write with the uploaded URL and size and the page count validation reported |
| `TranslateTask.CompletedUpsert` | tasks/translate.py:277-289 | the `completed` upsert leaves the row completed, with the URL in both URL fields, the size, 100 %, progress at the page count out of the page count, and no message |
| `TranslateTask.CompletedWriteRecorded` | tasks/translate.py:277-289 | a log ending in the `completed` write leaves the row in that state |
| `TranslateTask.FailedWriteRecorded` | tasks/translate.py:304-335 | a log ending in a `mark_failed` write leaves the row failed with a message of at most 1000 characters |
| `TranslateTask.SuccessRecorded` | tasks/translate.py:277-300 | after a successful run the row is completed with the returned URL and size, 100 %, progress at the validated page count out of that count, and no message |
| `TranslateTask.FailureRecorded` | tasks/translate.py:302-335 | after a run that ends for good without success the row is failed with a message of at most 1000 characters |
| `Api.VerifyInternalToken` | main.py:53-69 | with no key configured every request passes; otherwise exactly the requests whose header equals the key |
| `Api.Lookup` | main.py:162-164 | `record.get(f, default)`: the stored value when present, else the default |
| `Api.StartTranslation` | main.py:149-211 | unauthenticated requests are refused and change nothing; otherwise the reply, the enqueued task and the writes are the submission's |
| `Api.Submit` | main.py:158-211 | the answer is always a success; either this paper's job is enqueued under the new task id with writes to its own row, or nothing is written |
| `Api.SubmitEnqueuesUnlessKnown` | main.py:158-201 | a job is enqueued exactly unless a row of the same mode is completed or in progress; only then are the two writes made |
| `Api.InProgressAnswered` | main.py:171-178 | a job in progress in the same mode is answered with its own task id and nothing is enqueued |
| `Api.QueuedWriteRow` | main.py:181-191 | the `queued` write leaves the row `pending` in the requested mode |
| `Api.TaskIdWriteRow` | main.py:203 | recording the Celery task id keeps every other field of the row |
| `Api.EnqueuedRow` | main.py:181-203 | after a new submission the row is `pending` in the requested mode under the new task id |
| `Api.ResubmissionDeduplicated` | main.py:158-203 | submitting the same paper and mode again right after enqueuing enqueues nothing and answers with the first task's id |
| `Api.GetTranslateStatus` | main.py:220-245 | unauthenticated requests are refused; a missing row reads `not_found`; otherwise every field as stored, with 0 for a missing counter, `unknown` for a missing status and null for anything else |
| `Api.RowReply` | main.py:231-245 | each field of the reply is the stored value, or 0 for a missing counter, `unknown` for a missing status, null for anything else |
| `Api.StatusAfterSuccess` | main.py:231-245 | after a successful run the status endpoint reports `completed`, 100 %, the uploaded URL and no message |
| `Api.CancelTranslation` | main.py:254-277 | unauthenticated requests are refused and change nothing; otherwise the reply, the revoked task and the writes are the cancellation's |
| `Api.Cancel` | main.py:254-277 | `NotFound` exactly when there is no row; otherwise the answer's success says whether the job was marked cancelled, and a task is revoked only then |
| `Api.CancelOnlyUnfinished` | main.py:259-277 | a job is marked cancelled exactly when its row exists and its status is not terminal; a task is revoked only then and only with a truthy id |
| `Api.FailedRowRefused` | main.py:263-268 | a failed row is refused with "无法取消: 当前状态为 failed" and reported as failed |
| `Api.SecondCancelRefused` | main.py:263-268 | after a cancellation, a second one is refused and the status endpoint reports the job as failed with no message |

## Left out

- Network, S3 and database I/O are left out. Their answers are parameters:
  - `HttpGet` is the final response after redirects;
  - `S3Get` and `PutOutcome` stand for the object store;
  - `readOk` stands for a failed read;
  - `acceptsWrites` stands for a store that answers every write with an error status.
- FastAPI routing, the rate limiter, CORS, `/health` and the legacy endpoints after `main.py` line 280 are left out. They do not touch the job's state.
- Celery mechanics are left out: the broker, retry delays, the hard time limit, `acks_late`, and what `Reject` and `retry` do afterwards. `TaskOutcome` records which of them the Celery task raises.
- Failure of `apply_async` is left out. The queue is taken to accept the Celery task and return `taskId`.
- Revocation is left out. `CancelTranslation` returns the id it would revoke.
- The temporary directory, its cleanup, logging and `datetime.now()` are left out. The time is the parameter `now`.
- Exceptions that can strike part way are modelled only at the end of a stage: download, validation, saving the input, translation, reading the output, upload. The effects of an interruption inside the progress loop are not modelled.
- The engine's floating-point progress is taken as already truncated by `int()`. Event fields the code defaults are given their defaults.
- Pydantic coercion of requests and responses is left out. Mode and queue are enums.
- Configuration loading is left out. The deployment defaults are constants: 50 MiB, 100 pages and 2 retries. The storage settings are `StorageConfig`.
- `_check_bracketed_netloc`, IPv6 address parsing, ports and the NFKC netloc check of `urlsplit` are left out. Only IPv4 literals can be internal, and no IPv6 address lies in an IPv4 network.
- `TranslateTask.ValidatePdf`: the oversized-file message is the fixed prefix "文件过大". The sizes in MB are floating-point formatting.
- `SupabaseClient.RecordStore.Upsert`: the existence check is `id in rows`. A failed existence GET, which makes the source insert again instead of patching, is not modelled. Neither are several rows for one paper, where `get_translation` takes the first.
- `TranslateTask.Describe`: `str()` of the soft time limit is taken as empty. Its clause never uses it.
- `SupabaseClient.RecordStore.Upsert` and `SupabaseClient.RecordStore.GetTranslation` never raise. In the source, `httpx` transport errors, the 15-second timeout and a non-JSON body raise out of `upsert_translation` and `get_translation`. So a failed first write of an attempt goes down the retry path. A failed `mark_failed` escapes the `except` ladder. A failed read makes the endpoint answer 500. None of these paths is modelled: an error status is the only store failure.
- `Py.Lower` folds only ASCII letters, where Python's `str.lower` is Unicode-aware. So `R2Storage.UrlHostname` and `R2Storage.Listed` are stricter than the source for non-ASCII hosts. The KELVIN SIGN U+212A lower-cases to 'k' in Python and is kept as is here, so such a host is refused by an allow-list that Python would match. ASCII host names behave as in the source.

Where the code and the service's documented behaviour disagree, the model follows the code:

- **Cancelling a terminal job.** The code answers `success=false` with a message; it does not raise an error.
- **Progress.** It is not monotone: a `progress_end` event is always written, even below the last value (`ProgressEndMayDecrease`).
- **URL checks.** Only the literal host name is checked. No DNS resolution is done, and redirect targets are not re-validated (`LocalhostAccepted`, `Ipv6LoopbackAccepted`).
- **Stored statuses.** `uploading` is stored as `translating`, `queued` as `pending`, `downloading` as `extracting` and `cancelled` as `failed`. So a cancelled job reads back as failed, and the `cancelled` entry of the terminal set is never met (`SecondCancelRefused`).
