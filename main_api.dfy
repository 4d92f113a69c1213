/**
 * The HTTP endpoints: submitting a job (or finding the one already under way),
 * reading its status, and cancelling it. Every endpoint first checks the
 * internal token. The Celery queue is a parameter: submitting returns the request
 * it would enqueue and takes the id the queue assigns.
 */
module Api {
  import opened Wrappers
  import opened Py
  import opened SupabaseClient
  import opened TranslateTask
  import Exceptions

  // ================================================================ authentication

  /** `verify_internal_token`: with no key configured every request passes;
      otherwise the `X-Internal-Token` header must be present, non-empty and equal
      to the key. */
  function VerifyInternalToken(configuredKey: string, header: Option<string>): (ok: bool)
    ensures configuredKey == [] ==> ok
    ensures configuredKey != [] ==> (ok <==> header == Some(configuredKey))
  {
    if configuredKey == [] then true
    else if header.None? || header.value == [] then false
    else header.value == configuredKey
  }

  /** The errors the endpoints answer with. */
  datatype HttpError = Unauthorized | NotFound

  /** `record.get(f, default)`. */
  function Lookup(row: Row, f: Field, default: Value): (v: Value)
    ensures f in row ==> v == row[f]
    ensures f !in row ==> v == default
  {
    if f in row then row[f] else default
  }

  /** `if existing:` — a row is truthy when it has any field. */
  predicate Found(existing: Option<Row>) {
    existing.Some? && existing.value != map[]
  }

  // ================================================================ POST /translate

  /** The queues a job can be sent to. */
  datatype Queue = FreeQueue | ProQueue | UltraQueue

  /** The arguments of `apply_async`. */
  datatype TaskRequest = TaskRequest(paperId: string, fileUrl: string, mode: Mode, queue: Queue)

  datatype StartReply = StartReply(success: bool, celeryTaskId: Value, message: string)

  /** The statuses for which a submission is answered with the running job. */
  const InProgress: set<string> := {"queued", "downloading", "translating", "uploading", "pending", "extracting"}

  /** The fields of a freshly queued job. */
  function QueuedFields(mode: Mode): Row {
    map[Status := Text("queued"), TranslationMode := Text(ModeName(mode)), TranslateEngine := Text("pdf2zh_next"),
        ErrorMessage := Null, ProgressPercent := Number(0), ProgressCurrent := Number(0), ProgressTotal := Number(0),
        TranslatedPdfUrl := Null, RetryCount := Number(0)]
  }

  /** What a submission does: its writes, the job it enqueues, and its answer. */
  datatype Submission = Submission(writes: seq<Write>, dispatched: Option<TaskRequest>, reply: StartReply)

  /** A new job: queue it, enqueue the Celery task, and record the Celery task's id. */
  function Enqueued(id: string, fileUrl: string, mode: Mode, queue: Queue, taskId: string, now: string): Submission {
    Submission([Write(id, QueuedFields(mode), now), Write(id, map[CeleryTaskId := Text(taskId)], now)],
               Some(TaskRequest(id, fileUrl, mode, queue)),
               StartReply(true, Text(taskId), "翻译任务已提交"))
  }

  /** The body of `start_translation` once authenticated, given the existing row: it
      always answers with success, and either enqueues this paper's job under the new
      task id with the two writes that record it, or writes nothing at all. */
  function Submit(existing: Option<Row>, id: string, fileUrl: string, mode: Mode, queue: Queue,
                  taskId: string, now: string): (s: Submission)
    ensures s.reply.success
    ensures s.dispatched.None? <==> s.writes == []
    ensures s.dispatched.Some? ==> s.dispatched.value == TaskRequest(id, fileUrl, mode, queue)
                                   && s.reply.celeryTaskId == Text(taskId) && ForJob(s.writes, id)
  {
    if Found(existing) && Lookup(existing.value, TranslationMode, Null) == Text(ModeName(mode)) then
      var status := Lookup(existing.value, Status, Text(""));
      if status == Text("completed") then Submission([], None, StartReply(true, Null, "翻译已完成"))
      else if status.Text? && status.text in InProgress then
        Submission([], None, StartReply(true, Lookup(existing.value, CeleryTaskId, Null),
                                        "翻译进行中 (状态: " + status.text + ")"))
      else Enqueued(id, fileUrl, mode, queue, taskId, now)
    else Enqueued(id, fileUrl, mode, queue, taskId, now)
  }

  /** `start_translation(req)`: `taskId` is the id the queue gives the Celery task if one
      is enqueued. */
  method StartTranslation(store: RecordStore, configuredKey: string, header: Option<string>,
                          id: string, fileUrl: string, mode: Mode, queue: Queue, readOk: bool,
                          taskId: string, now: string)
    returns (r: Result<StartReply, HttpError>, dispatched: Option<TaskRequest>)
    requires store.Valid()
    modifies store
    ensures store.Valid()
    ensures !VerifyInternalToken(configuredKey, header) ==>
              r == Err(Unauthorized) && dispatched == None && store.log == old(store.log)
    ensures VerifyInternalToken(configuredKey, header) ==>
              var s := Submit(old(store.GetTranslation(id, readOk)), id, fileUrl, mode, queue, taskId, now);
              r == Ok(s.reply) && dispatched == s.dispatched && store.log == old(store.log) + s.writes
  {
    if !VerifyInternalToken(configuredKey, header) {
      return Err(Unauthorized), None;
    }
    var existing := store.GetTranslation(id, readOk);
    if existing.Some? && existing.value != map[] {
      var existingMode := Lookup(existing.value, TranslationMode, Null);
      if existingMode == Text(ModeName(mode)) {
        var status := Lookup(existing.value, Status, Text(""));
        if status == Text("completed") {
          return Ok(StartReply(true, Null, "翻译已完成")), None;
        }
        if status.Text? && status.text in InProgress {
          return Ok(StartReply(true, Lookup(existing.value, CeleryTaskId, Null), "翻译进行中 (状态: " + status.text + ")")), None;
        }
      }
    }
    store.Upsert(id, QueuedFields(mode), now);
    dispatched := Some(TaskRequest(id, fileUrl, mode, queue));
    store.Upsert(id, map[CeleryTaskId := Text(taskId)], now);
    r := Ok(StartReply(true, Text(taskId), "翻译任务已提交"));
  }

  /** A submission enqueues a job exactly when there is no row, the row is for the
      other mode, or its status is neither completed nor in progress. */
  lemma {:induction false} SubmitEnqueuesUnlessKnown(existing: Option<Row>, id: string, fileUrl: string, mode: Mode,
                                                     queue: Queue, taskId: string, now: string)
    ensures var s := Submit(existing, id, fileUrl, mode, queue, taskId, now);
      var known := Found(existing) && Lookup(existing.value, TranslationMode, Null) == Text(ModeName(mode));
      var status := if known then Lookup(existing.value, Status, Text("")) else Null;
      && (s.dispatched.Some? <==> !(known && status.Text? && (status.text == "completed" || status.text in InProgress)))
      && (s.dispatched.None? ==> s.writes == [])
      && (s.dispatched.Some? ==> s.dispatched.value == TaskRequest(id, fileUrl, mode, queue) && |s.writes| == 2)
  {
  }

  /** The `queued` write leaves the row `pending` in the requested mode. */
  lemma {:induction false} QueuedWriteRow(rows: map<string, Row>, id: string, mode: Mode, now: string)
    ensures var after := Upserted(rows, id, QueuedFields(mode), now);
      id in after && Has(after[id], Status, Text("pending")) && Has(after[id], TranslationMode, Text(ModeName(mode)))
  {
    var d := QueuedFields(mode);
    assert d[Status] == Text("queued") && d[TranslationMode] == Text(ModeName(mode));
    UpsertedFields(rows, id, d, now);
    StatusTable();
  }

  /** Recording the Celery task id keeps the status and the mode. */
  lemma {:induction false} TaskIdWriteRow(rows: map<string, Row>, id: string, taskId: string, now: string)
    requires id in rows
    ensures var after := Upserted(rows, id, map[CeleryTaskId := Text(taskId)], now);
      && id in after && Has(after[id], CeleryTaskId, Text(taskId))
      && (forall f :: f != CeleryTaskId && f != UpdatedAt && f != PaperId && f in rows[id] ==> Has(after[id], f, rows[id][f]))
  {
    UpsertedFields(rows, id, map[CeleryTaskId := Text(taskId)], now);
    UpsertedPatchKeeps(rows, id, map[CeleryTaskId := Text(taskId)], now);
  }

  /** After the writes of a new submission the row is `pending` (the stored form of
      `queued`) in the requested mode, under the new task's id. */
  lemma {:induction false} EnqueuedRow(rows: map<string, Row>, id: string, fileUrl: string, mode: Mode,
                                       queue: Queue, taskId: string, now: string)
    ensures var after := Replay(rows, Enqueued(id, fileUrl, mode, queue, taskId, now).writes);
      && id in after
      && Has(after[id], Status, Text("pending")) && Has(after[id], TranslationMode, Text(ModeName(mode)))
      && Has(after[id], CeleryTaskId, Text(taskId))
  {
    var w0 := Write(id, QueuedFields(mode), now);
    var w1 := Write(id, map[CeleryTaskId := Text(taskId)], now);
    assert [w0, w1][..1] == [w0];
    assert [w0][..0] == [];
    ReplayLast(rows, [w0]);
    ReplayLast(rows, [w0, w1]);
    var mid := Replay(rows, [w0]);
    QueuedWriteRow(rows, id, mode, now);
    TaskIdWriteRow(mid, id, taskId, now);
    var after := Upserted(mid, id, w1.data, now);
    assert Status != CeleryTaskId && TranslationMode != CeleryTaskId;
    assert Has(after[id], Status, mid[id][Status]);
    assert Has(after[id], TranslationMode, mid[id][TranslationMode]);
  }

  /** A row in progress in the same mode is answered with its own task id. */
  lemma {:induction false} InProgressAnswered(row: Row, id: string, fileUrl: string, mode: Mode, queue: Queue,
                                              taskId: string, now: string, status: string)
    requires Has(row, Status, Text(status)) && status in InProgress && Has(row, TranslationMode, Text(ModeName(mode)))
    ensures var s := Submit(Some(row), id, fileUrl, mode, queue, taskId, now);
      s.dispatched == None && s.writes == [] && s.reply.celeryTaskId == Lookup(row, CeleryTaskId, Null)
  {
    assert row != map[] by { assert Status in row; }
    assert status != "completed";
  }

  /** Submitting the same paper twice in the same mode enqueues one job: the first
      submission leaves the status `queued`, stored as `pending`, and the second
      finds it in progress and answers with the first task's id. */
  lemma {:induction false} ResubmissionDeduplicated(rows: map<string, Row>, id: string, fileUrl: string, mode: Mode,
                                                    queue: Queue, taskId: string, now: string,
                                                    fileUrl': string, queue': Queue, taskId': string, now': string)
    requires Submit(if id in rows then Some(rows[id]) else None, id, fileUrl, mode, queue, taskId, now).dispatched.Some?
    ensures var s := Submit(if id in rows then Some(rows[id]) else None, id, fileUrl, mode, queue, taskId, now);
      var after := Replay(rows, s.writes);
      var again := Submit(Some(after[id]), id, fileUrl', mode, queue', taskId', now');
      && id in after
      && again.dispatched == None && again.writes == []
      && again.reply.celeryTaskId == Text(taskId)
  {
    var s := Submit(if id in rows then Some(rows[id]) else None, id, fileUrl, mode, queue, taskId, now);
    assert s == Enqueued(id, fileUrl, mode, queue, taskId, now);
    EnqueuedRow(rows, id, fileUrl, mode, queue, taskId, now);
    var after := Replay(rows, s.writes);
    assert "pending" in InProgress;
    InProgressAnswered(after[id], id, fileUrl', mode, queue', taskId', now', "pending");
  }

  // ================================================================ GET /translate/status/{paper_id}

  datatype StatusReply = StatusReply(
    paperId: string, status: Value, translationMode: Value,
    progressPercent: Value, progressCurrent: Value, progressTotal: Value,
    translatedPdfUrl: Value, errorMessage: Value, celeryTaskId: Value, translateEngine: Value,
    retryCount: Value, startedAt: Value, completedAt: Value)

  /** The answer for a paper without a row: `not_found` and the model's defaults. */
  function NotFoundReply(id: string): StatusReply {
    StatusReply(id, Text("not_found"), Null, Number(0), Number(0), Number(0), Null, Null, Null, Null,
                Number(0), Null, Null)
  }

  /** A reply field shows what the row stores under `f`, or `default` when it has nothing. */
  predicate Shows(row: Row, f: Field, v: Value, default: Value) {
    (f in row ==> v == row[f]) && (f !in row ==> v == default)
  }

  /** A reply reports a row: each field as stored, the counters 0 when absent, a
      missing status as `unknown`, every other missing field as null. */
  predicate Reports(id: string, row: Row, r: StatusReply) {
    && r.paperId == id && Shows(row, Status, r.status, Text("unknown"))
    && Shows(row, ProgressPercent, r.progressPercent, Number(0))
    && Shows(row, ProgressCurrent, r.progressCurrent, Number(0))
    && Shows(row, ProgressTotal, r.progressTotal, Number(0))
    && Shows(row, RetryCount, r.retryCount, Number(0))
    && Shows(row, TranslationMode, r.translationMode, Null)
    && Shows(row, TranslatedPdfUrl, r.translatedPdfUrl, Null)
    && Shows(row, ErrorMessage, r.errorMessage, Null)
    && Shows(row, CeleryTaskId, r.celeryTaskId, Null)
    && Shows(row, TranslateEngine, r.translateEngine, Null)
    && Shows(row, StartedAt, r.startedAt, Null)
    && Shows(row, CompletedAt, r.completedAt, Null)
  }

  /** The answer for a row: each field as stored, or its default. */
  function RowReply(id: string, row: Row): (r: StatusReply)
    ensures Reports(id, row, r)
  {
    StatusReply(id, Lookup(row, Status, Text("unknown")), Lookup(row, TranslationMode, Null),
                Lookup(row, ProgressPercent, Number(0)), Lookup(row, ProgressCurrent, Number(0)),
                Lookup(row, ProgressTotal, Number(0)), Lookup(row, TranslatedPdfUrl, Null),
                Lookup(row, ErrorMessage, Null), Lookup(row, CeleryTaskId, Null),
                Lookup(row, TranslateEngine, Null), Lookup(row, RetryCount, Number(0)),
                Lookup(row, StartedAt, Null), Lookup(row, CompletedAt, Null))
  }

  /** `get_translate_status(paper_id)`. */
  function GetTranslateStatus(store: RecordStore, configuredKey: string, header: Option<string>,
                              id: string, readOk: bool): (r: Result<StatusReply, HttpError>)
    reads store
    requires store.Valid()
    ensures r.Err? <==> !VerifyInternalToken(configuredKey, header)
    ensures r.Ok? && !(readOk && id in store.rows) ==> r.value == NotFoundReply(id)
    ensures r.Ok? && readOk && id in store.rows ==>
              r.value.status == store.rows[id][Status] && r.value.paperId == id
    ensures r.Ok? && readOk && id in store.rows ==> Reports(id, store.rows[id], r.value)
  {
    if !VerifyInternalToken(configuredKey, header) then Err(Unauthorized)
    else
      var record := store.GetTranslation(id, readOk);
      if !Found(record) then Ok(NotFoundReply(id))
      else Ok(RowReply(id, record.value))
  }

  /** After a successful run of the Celery task the status endpoint reports the job
      completed at 100 % with the uploaded file's URL. */
  lemma {:induction false} StatusAfterSuccess(rows: map<string, Row>, id: string, downloaded: Result<seq<byte>, Exceptions.Error>, mode: Mode,
                                              taskId: string, retries: nat, env: Environment, now: string)
    requires Task(id, downloaded, mode, taskId, retries, env, now).outcome.Succeeded?
    ensures id in Replay(rows, Task(id, downloaded, mode, taskId, retries, env, now).writes)
    ensures var t := Task(id, downloaded, mode, taskId, retries, env, now);
      var reply := RowReply(id, Replay(rows, t.writes)[id]);
      && reply.status == Text("completed") && reply.progressPercent == Number(100)
      && reply.translatedPdfUrl == Text(t.outcome.url) && reply.errorMessage == Null
  {
    SuccessRecorded(rows, id, downloaded, mode, taskId, retries, env, now);
  }

  // ================================================================ POST /translate/cancel/{paper_id}

  datatype CancelReply = CancelReply(success: bool, message: string)

  /** The statuses a job can no longer be cancelled in. */
  const Terminal: set<string> := {"completed", "failed", "cancelled"}

  /** What a cancellation does: its answer, the Celery task id it revokes, its writes. */
  datatype Cancellation = Cancellation(reply: Result<CancelReply, HttpError>, revoked: Option<Value>, writes: seq<Write>)

  /** The body of `cancel_translation` once authenticated, given the existing row:
      `NotFound` exactly when there is no row; otherwise an answer whose success
      says whether the job was marked cancelled, and a revoked id only then. */
  function Cancel(existing: Option<Row>, id: string, now: string): (c: Cancellation)
    ensures c.reply.Err? <==> !Found(existing)
    ensures c.reply.Err? ==> c.reply.error == NotFound && c.writes == [] && c.revoked.None?
    ensures c.reply.Ok? ==> (c.reply.value.success <==> c.writes != [])
    ensures c.revoked.Some? ==> c.writes != [] && ForJob(c.writes, id)
  {
    if !Found(existing) then Cancellation(Err(NotFound), None, [])
    else
      var status := Lookup(existing.value, Status, Text(""));
      if status.Text? && status.text in Terminal then
        Cancellation(Ok(CancelReply(false, "无法取消: 当前状态为 " + status.text)), None, [])
      else
        var celeryTaskId := Lookup(existing.value, CeleryTaskId, Null);
        Cancellation(Ok(CancelReply(true, "翻译任务已取消")),
                     if Truthy(celeryTaskId) then Some(celeryTaskId) else None,
                     [Write(id, CancelledFields(), now)])
  }

  /** `cancel_translation(paper_id)`: returns the answer and the Celery task id revoked,
      if any. */
  method CancelTranslation(store: RecordStore, configuredKey: string, header: Option<string>,
                           id: string, readOk: bool, now: string)
    returns (r: Result<CancelReply, HttpError>, revoked: Option<Value>)
    requires store.Valid()
    modifies store
    ensures store.Valid()
    ensures !VerifyInternalToken(configuredKey, header) ==>
              r == Err(Unauthorized) && revoked == None && store.log == old(store.log)
    ensures VerifyInternalToken(configuredKey, header) ==>
              var c := Cancel(old(store.GetTranslation(id, readOk)), id, now);
              r == c.reply && revoked == c.revoked && store.log == old(store.log) + c.writes
  {
    if !VerifyInternalToken(configuredKey, header) {
      return Err(Unauthorized), None;
    }
    var record := store.GetTranslation(id, readOk);
    if !(record.Some? && record.value != map[]) {
      return Err(NotFound), None;
    }
    var status := Lookup(record.value, Status, Text(""));
    if status.Text? && status.text in Terminal {
      return Ok(CancelReply(false, "无法取消: 当前状态为 " + status.text)), None;
    }
    var celeryTaskId := Lookup(record.value, CeleryTaskId, Null);
    revoked := None;
    if Truthy(celeryTaskId) {
      revoked := Some(celeryTaskId);
    }
    store.MarkCancelled(id, now);
    r := Ok(CancelReply(true, "翻译任务已取消"));
  }

  /** Only a job that is not finished is cancelled, and then it is marked so. */
  lemma {:induction false} CancelOnlyUnfinished(existing: Option<Row>, id: string, now: string)
    ensures var c := Cancel(existing, id, now);
      && (c.writes != [] <==> Found(existing) && !(Lookup(existing.value, Status, Text("")).Text?
                                                   && Lookup(existing.value, Status, Text("")).text in Terminal))
      && (c.writes != [] ==> c.writes == [Write(id, CancelledFields(), now)] && c.reply == Ok(CancelReply(true, "翻译任务已取消")))
      && (c.revoked.Some? ==> c.writes != [] && Truthy(c.revoked.value))
  {
  }

  /** A cancelled job is stored as failed, so cancelling it again is refused and the
      status endpoint reports it as failed. */
  lemma {:induction false} SecondCancelRefused(rows: map<string, Row>, id: string, now: string, now': string)
    requires Found(if id in rows then Some(rows[id]) else None)
    requires Cancel(Some(rows[id]), id, now).writes != []
    ensures var after := Replay(rows, Cancel(Some(rows[id]), id, now).writes);
      && id in after
      && Cancel(Some(after[id]), id, now') == Cancellation(Ok(CancelReply(false, "无法取消: 当前状态为 failed")), None, [])
      && RowReply(id, after[id]).status == Text("failed")
      && RowReply(id, after[id]).errorMessage == Null
  {
    var w := Write(id, CancelledFields(), now);
    CancelOnlyUnfinished(Some(rows[id]), id, now);
    ReplayOne(rows, w);
    var after := Upserted(rows, id, CancelledFields(), now);
    CancelledReadsAsFailed(rows, id, now);
    FailedRowRefused(after[id], id, now');
  }

  /** A row whose status is `failed` and whose message is cleared is refused by a
      cancellation and reported as failed without a message. */
  lemma {:induction false} FailedRowRefused(row: Row, id: string, now: string)
    requires Status in row && row[Status] == Text("failed")
    requires ErrorMessage in row && row[ErrorMessage] == Null
    ensures Cancel(Some(row), id, now) == Cancellation(Ok(CancelReply(false, "无法取消: 当前状态为 failed")), None, [])
    ensures RowReply(id, row).status == Text("failed")
    ensures RowReply(id, row).errorMessage == Null
  {
    assert row != map[] by { assert Status in row; }
    assert Lookup(row, Status, Text("")) == Text("failed");
    assert "failed" in Terminal;
    assert "无法取消: 当前状态为 " + "failed" == "无法取消: 当前状态为 failed";
  }
}
