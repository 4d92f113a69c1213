/**
 * The translation job: validate the downloaded PDF, follow the engine's event
 * stream while reporting progress, pick the output file, upload it, and classify
 * whatever went wrong as terminal or retryable. The engine, the file system, the
 * PDF library and the Celery queue are parameters.
 */
module TranslateTask {
  import opened Wrappers
  import opened Py
  import opened Exceptions
  import opened R2Storage
  import opened SupabaseClient

  // ================================================================ limits

  /** `TRANSLATE_MAX_FILE_SIZE`, by default 50 MiB. */
  const MaxFileSize: nat := 50 * 1024 * 1024

  /** `TRANSLATE_MAX_PAGES`, by default 100. */
  const MaxPages: nat := 100

  /** The Celery task's `max_retries`. */
  const MaxRetries: nat := 2

  /** The five bytes every PDF starts with: `%PDF-`. */
  const PdfSignature: seq<byte> := [0x25, 0x50, 0x44, 0x46, 0x2D]

  /** The requested output: Chinese only, or bilingual side by side. */
  datatype Mode = Mono | Dual

  function ModeName(m: Mode): string {
    match m
    case Mono => "mono"
    case Dual => "dual"
  }

  // ================================================================ _validate_pdf

  /** What opening the document with the PDF library gave: a page count, or the
      message of the exception it raised. */
  datatype OpenOutcome = Opened(pageCount: nat) | OpenFailed(reason: string)

  /** The message for a document over the page limit. */
  function TooManyPagesMessage(pageCount: nat): string {
    "页数过多: " + NatToString(pageCount) + " 页 (上限 " + NatToString(MaxPages) + " 页)"
  }

  /** `_validate_pdf(pdf_bytes)`: the page count of an acceptable document, or the
      first of the checks (size, signature, opening, page count) that fails. */
  function ValidatePdf(pdf: seq<byte>, open: OpenOutcome): (r: Result<nat, Error>)
    ensures r.Ok? <==> |pdf| <= MaxFileSize && StartsWith(pdf, PdfSignature)
                       && open.Opened? && 1 <= open.pageCount <= MaxPages
    ensures r.Ok? ==> r.value == open.pageCount
    ensures r.Err? ==> r.error.FileValidationError?
  {
    if |pdf| > MaxFileSize then Err(FileValidationError("文件过大"))
    else if !StartsWith(pdf, PdfSignature) then Err(FileValidationError("不是有效的 PDF 文件"))
    else match open
      case OpenFailed(reason) => Err(FileValidationError("无法读取 PDF: " + reason))
      case Opened(pageCount) =>
        if pageCount == 0 then Err(FileValidationError("PDF 没有页面"))
        else if pageCount > MaxPages then Err(FileValidationError(TooManyPagesMessage(pageCount)))
        else Ok(pageCount)
  }

  /** The checks run in a fixed order and the first failure decides the message:
      an oversized file is reported as such whatever else is wrong with it, and a
      bad signature is reported before the document is even opened. */
  lemma {:induction false} ValidationOrder(pdf: seq<byte>, open: OpenOutcome, open': OpenOutcome)
    ensures |pdf| > MaxFileSize ==> ValidatePdf(pdf, open) == Err(FileValidationError("文件过大"))
    ensures |pdf| <= MaxFileSize && !StartsWith(pdf, PdfSignature) ==>
              ValidatePdf(pdf, open) == Err(FileValidationError("不是有效的 PDF 文件"))
    ensures !(|pdf| <= MaxFileSize && StartsWith(pdf, PdfSignature)) ==> ValidatePdf(pdf, open) == ValidatePdf(pdf, open')
  {
  }

  /** A file of exactly the maximum size passes the size check; one byte more does not. */
  lemma {:induction false} SizeLimitInclusive(pdf: seq<byte>, pageCount: nat)
    requires |pdf| == MaxFileSize && StartsWith(pdf, PdfSignature) && 1 <= pageCount <= MaxPages
    ensures ValidatePdf(pdf, Opened(pageCount)) == Ok(pageCount)
    ensures ValidatePdf(pdf + [0], Opened(pageCount)).Err?
  {
  }

  /** Fewer than five bytes can never carry the signature. */
  lemma {:induction false} ShortInputRejected(pdf: seq<byte>, open: OpenOutcome)
    requires |pdf| < |PdfSignature|
    ensures ValidatePdf(pdf, open) == Err(FileValidationError("不是有效的 PDF 文件"))
  {
  }

  /** A document over the page limit is refused with a message naming the limit. */
  lemma {:induction false} PageLimitMessageNamesLimit(pdf: seq<byte>, pageCount: nat)
    requires |pdf| <= MaxFileSize && StartsWith(pdf, PdfSignature) && pageCount > MaxPages
    ensures ValidatePdf(pdf, Opened(pageCount)).Err?
    ensures Contains(ValidatePdf(pdf, Opened(pageCount)).error.message, "100")
  {
    var m := TooManyPagesMessage(pageCount);
    var pre := "页数过多: " + NatToString(pageCount) + " 页 (上限 ";
    assert NatToString(100) == "100" by {
      assert NatToString(10) == NatToString(1) + "0";
    }
    assert m == pre + "100" + " 页)";
    assert OccursAt(m, "100", |pre|);
  }

  // ================================================================ _run_translation

  /** The three progress event types. */
  datatype ProgressKind = ProgressStart | ProgressUpdate | ProgressEnd

  /** The engine's result object, as far as the four output paths go. */
  datatype TranslateResult = TranslateResult(
    monoPdfPath: Option<string>, dualPdfPath: Option<string>,
    noWatermarkMonoPdfPath: Option<string>, noWatermarkDualPdfPath: Option<string>)

  /** One event of the engine's stream. `overall` is the overall progress already
      truncated by `int()`; missing fields are given their defaults. */
  datatype Event =
    | Progress(kind: ProgressKind, overall: int, stageCurrent: int, stageTotal: int)
    | EngineError(error: Option<string>)
    | Finish(result: TranslateResult)
    | Other

  /** The output-path dictionary: name to path (or `None`). */
  type OutputPaths = map<string, Option<string>>

  function PathsOf(result: TranslateResult): (paths: OutputPaths)
    ensures paths.Keys == {"mono", "dual", "no_watermark_mono", "no_watermark_dual"}
  {
    map["mono" := result.monoPdfPath, "dual" := result.dualPdfPath,
        "no_watermark_mono" := result.noWatermarkMonoPdfPath,
        "no_watermark_dual" := result.noWatermarkDualPdfPath]
  }

  /** The message of the `TranslationError` an `error` event turns into. */
  function EngineErrorMessage(error: Option<string>): string {
    "翻译引擎错误: " + (if error.Some? then error.value else "Unknown error")
  }

  /** One throttled progress write; `forced` marks a write made because the event
      was `progress_end`. */
  datatype ProgressWrite = ProgressWrite(percent: int, current: int, total: int, forced: bool)

  function ProgressFields(w: ProgressWrite): Row {
    map[ProgressPercent := Number(w.percent), ProgressCurrent := Number(w.current),
        ProgressTotal := Number(w.total)]
  }

  /** Whether a progress event is written, given the last written percentage. */
  predicate ShouldWrite(kind: ProgressKind, overall: int, last: int) {
    overall - last >= 2 || kind == ProgressEnd
  }

  /** The consumption of an event stream: the writes made and how it ended. */
  datatype Run = Run(writes: seq<ProgressWrite>, result: Result<OutputPaths, Error>)

  /** What `_run_translation` does with `events` when `last` was written last. */
  function Consume(events: seq<Event>, last: int): Run
    decreases |events|
  {
    if events == [] then Run([], Ok(map[]))
    else match events[0]
      case Progress(kind, overall, current, total) =>
        if ShouldWrite(kind, overall, last) then
          var rest := Consume(events[1..], overall);
          Run([ProgressWrite(overall, current, total, kind == ProgressEnd)] + rest.writes, rest.result)
        else Consume(events[1..], last)
      case EngineError(error) => Run([], Err(TranslationError(EngineErrorMessage(error))))
      case Finish(result) => Run([], Ok(PathsOf(result)))
      case Other => Consume(events[1..], last)
  }

  /** At most one write per event; an engine failure surfaces as a `TranslationError`;
      a run that succeeds gives the four output paths of a `finish` event, or none. */
  lemma {:induction false} ConsumeShape(events: seq<Event>, last: int)
    ensures var r := Consume(events, last);
      && |r.writes| <= |events|
      && (r.result.Err? ==> r.result.error.TranslationError?)
      && (r.result.Ok? ==> r.result.value == map[]
                           || r.result.value.Keys == {"mono", "dual", "no_watermark_mono", "no_watermark_dual"})
    decreases |events|
  {
    if events != [] {
      match events[0]
      case Progress(kind, overall, _, _) =>
        ConsumeShape(events[1..], if ShouldWrite(kind, overall, last) then overall else last);
      case Other =>
        ConsumeShape(events[1..], last);
      case EngineError(_) =>
      case Finish(_) =>
    }
  }

  /** An event that ends the consumption. */
  predicate Stops(e: Event) {
    e.EngineError? || e.Finish?
  }

  /** Writes are spaced: a write not forced by `progress_end` is at least two
      points above the one before it (the first one, above the starting value). */
  lemma {:induction false} WritesWellSpaced(events: seq<Event>, last: int)
    ensures var w := Consume(events, last).writes;
      && (|w| > 0 && !w[0].forced ==> w[0].percent - last >= 2)
      && (forall i :: 0 < i < |w| && !w[i].forced ==> w[i].percent - w[i - 1].percent >= 2)
    decreases |events|
  {
    if events != [] {
      WritesWellSpaced(events[1..], last);
      match events[0]
      case Progress(kind, overall, current, total) =>
        if ShouldWrite(kind, overall, last) {
          WritesWellSpaced(events[1..], overall);
          var rest := Consume(events[1..], overall).writes;
          var w := Consume(events, last).writes;
          assert w == [ProgressWrite(overall, current, total, kind == ProgressEnd)] + rest;
          forall i | 0 < i < |w| && !w[i].forced ensures w[i].percent - w[i - 1].percent >= 2 {
            assert w[i] == rest[i - 1];
            if i > 1 { assert w[i - 1] == rest[i - 2]; }
          }
        }
      case EngineError(_) =>
      case Finish(_) =>
      case Other =>
    }
  }

  /** The throttle rule: a progress event is written exactly when it is at least
      two points above the last write, or when it is `progress_end`. */
  lemma {:induction false} ThrottleRule(kind: ProgressKind, overall: int, current: int, total: int,
                                        rest: seq<Event>, last: int)
    ensures var w := Consume([Progress(kind, overall, current, total)] + rest, last).writes;
      (|w| > 0 && w[0] == ProgressWrite(overall, current, total, kind == ProgressEnd)) <==>
      (overall - last >= 2 || kind == ProgressEnd)
  {
    var events := [Progress(kind, overall, current, total)] + rest;
    assert events[0] == Progress(kind, overall, current, total);
    assert events[1..] == rest;
    if !ShouldWrite(kind, overall, last) {
      // the first write after a skipped event is forced or two points above `last`
      WritesWellSpaced(rest, last);
    }
  }

  /** `progress_end` may go down: the adapter does not keep progress monotone. */
  lemma {:induction false} ProgressEndMayDecrease()
    ensures Consume([Progress(ProgressUpdate, 50, 5, 10), Progress(ProgressEnd, 40, 4, 10)], 0).writes
            == [ProgressWrite(50, 5, 10, false), ProgressWrite(40, 4, 10, true)]
  {
    var events := [Progress(ProgressUpdate, 50, 5, 10), Progress(ProgressEnd, 40, 4, 10)];
    assert events[1..] == [Progress(ProgressEnd, 40, 4, 10)];
    assert events[1..][1..] == [];
  }

  /** Nothing after an `error` or `finish` event is looked at. */
  lemma {:induction false} StopIgnoresRest(events: seq<Event>, rest: seq<Event>, last: int)
    requires exists k :: 0 <= k < |events| && Stops(events[k])
    ensures Consume(events + rest, last) == Consume(events, last)
    decreases |events|
  {
    var k :| 0 <= k < |events| && Stops(events[k]);
    assert (events + rest)[0] == events[0];
    if !Stops(events[0]) {
      assert k > 0 && Stops(events[1..][k - 1]);
      assert (events + rest)[1..] == events[1..] + rest;
      match events[0]
      case Progress(kind, overall, _, _) =>
        StopIgnoresRest(events[1..], rest, if ShouldWrite(kind, overall, last) then overall else last);
      case Other =>
        StopIgnoresRest(events[1..], rest, last);
      case EngineError(_) =>
      case Finish(_) =>
    }
  }

  /** A stream that ends without `finish` (and without `error`) yields no paths. */
  lemma {:induction false} NoFinishNoPaths(events: seq<Event>, last: int)
    requires forall k :: 0 <= k < |events| ==> !Stops(events[k])
    ensures Consume(events, last).result == Ok(map[])
    decreases |events|
  {
    if events != [] {
      match events[0]
      case Progress(kind, overall, _, _) =>
        NoFinishNoPaths(events[1..], if ShouldWrite(kind, overall, last) then overall else last);
      case Other =>
        NoFinishNoPaths(events[1..], last);
      case EngineError(_) =>
      case Finish(_) =>
    }
  }

  /** An `error` event ends the run with a `TranslationError` carrying the engine's
      message, after the writes of the events before it. */
  lemma {:induction false} ErrorEventRaises(events: seq<Event>, error: Option<string>, rest: seq<Event>, last: int)
    requires forall k :: 0 <= k < |events| ==> !Stops(events[k])
    ensures Consume(events + [EngineError(error)] + rest, last).result
            == Err(TranslationError(EngineErrorMessage(error)))
    decreases |events|
  {
    if events == [] {
      assert (events + [EngineError(error)] + rest)[0] == EngineError(error);
    } else {
      var all := events + [EngineError(error)] + rest;
      assert all[0] == events[0];
      assert all[1..] == events[1..] + [EngineError(error)] + rest;
      match events[0]
      case Progress(kind, overall, _, _) =>
        ErrorEventRaises(events[1..], error, rest, if ShouldWrite(kind, overall, last) then overall else last);
      case Other =>
        ErrorEventRaises(events[1..], error, rest, last);
      case EngineError(_) =>
      case Finish(_) =>
    }
  }

  /** The store calls a run makes, in order. */
  function ProgressLog(id: string, writes: seq<ProgressWrite>, now: string): (log: seq<Write>)
    ensures |log| == |writes|
    ensures forall i :: 0 <= i < |writes| ==> log[i] == Write(id, ProgressFields(writes[i]), now)
  {
    seq(|writes|, i requires 0 <= i < |writes| => Write(id, ProgressFields(writes[i]), now))
  }

  lemma {:induction false} ProgressLogAppend(id: string, writes: seq<ProgressWrite>, w: ProgressWrite, now: string)
    ensures ProgressLog(id, writes + [w], now) == ProgressLog(id, writes, now) + [Write(id, ProgressFields(w), now)]
  {
    assert forall i :: 0 <= i < |writes| ==> (writes + [w])[i] == writes[i];
  }

  /** One step of `Consume` at position `i` of a stream. */
  lemma {:induction false} ConsumeAt(events: seq<Event>, i: nat, last: int)
    requires i < |events|
    ensures var e := events[i];
      && (e.Progress? && ShouldWrite(e.kind, e.overall, last) ==>
            Consume(events[i..], last)
            == Run([ProgressWrite(e.overall, e.stageCurrent, e.stageTotal, e.kind == ProgressEnd)]
                   + Consume(events[i + 1..], e.overall).writes, Consume(events[i + 1..], e.overall).result))
      && ((e.Progress? && !ShouldWrite(e.kind, e.overall, last)) || e.Other? ==>
            Consume(events[i..], last) == Consume(events[i + 1..], last))
      && (e.EngineError? ==> Consume(events[i..], last) == Run([], Err(TranslationError(EngineErrorMessage(e.error)))))
      && (e.Finish? ==> Consume(events[i..], last) == Run([], Ok(PathsOf(e.result))))
  {
    assert events[i..][0] == events[i] && events[i..][1..] == events[i + 1..];
  }

  /** `_run_translation(paper_id, ...)` over the engine's event stream: each
      throttled progress write goes to the store, an `error` event raises, and
      `finish` returns its paths. */
  method RunTranslation(store: RecordStore, id: string, events: seq<Event>, now: string)
    returns (r: Result<OutputPaths, Error>)
    requires store.Valid()
    modifies store
    ensures store.Valid()
    ensures r == Consume(events, 0).result
    ensures store.log == old(store.log) + ProgressLog(id, Consume(events, 0).writes, now)
  {
    var outputPaths: OutputPaths := map[];
    var last := 0;
    var i := 0;
    ghost var written: seq<ProgressWrite> := [];
    while i < |events|
      invariant 0 <= i <= |events|
      invariant store.Valid()
      invariant Consume(events, 0) == Run(written + Consume(events[i..], last).writes, Consume(events[i..], last).result)
      invariant store.log == old(store.log) + ProgressLog(id, written, now)
      invariant outputPaths == map[]
      decreases |events| - i
    {
      var e := events[i];
      ConsumeAt(events, i, last);
      match e {
        case Progress(kind, overall, current, total) =>
          if overall - last >= 2 || kind == ProgressEnd {
            var w := ProgressWrite(overall, current, total, kind == ProgressEnd);
            last := overall;
            store.Upsert(id, ProgressFields(w), now);
            ProgressLogAppend(id, written, w, now);
            written := written + [w];
          }
        case EngineError(error) =>
          assert written + [] == written;
          return Err(TranslationError(EngineErrorMessage(error)));
        case Finish(result) =>
          outputPaths := PathsOf(result);
          assert written + [] == written;
          break;
        case Other =>
      }
      i := i + 1;
    }
    assert Consume(events, 0).writes == written;
    return Ok(outputPaths);
  }

  // ================================================================ output selection

  /** Whether an output-path entry is usable: present, non-empty, and on disk. */
  predicate Usable(paths: OutputPaths, key: string, fileExists: string -> bool) {
    key in paths && paths[key].Some? && paths[key].value != [] && fileExists(paths[key].value)
  }

  /** The file to upload: the unwatermarked output of the requested mode if it is
      usable, else the plain one, else none. */
  function ChosenOutput(paths: OutputPaths, mode: Mode, fileExists: string -> bool): (r: Option<string>)
    ensures r.Some? <==> Usable(paths, "no_watermark_" + ModeName(mode), fileExists) || Usable(paths, ModeName(mode), fileExists)
    ensures r.Some? ==> r.value != [] && fileExists(r.value)
  {
    var preferred := "no_watermark_" + ModeName(mode);
    if Usable(paths, preferred, fileExists) then Some(paths[preferred].value)
    else if Usable(paths, ModeName(mode), fileExists) then Some(paths[ModeName(mode)].value)
    else None
  }

  /** The message when no candidate is usable. */
  function NoOutputMessage(mode: Mode): string {
    "翻译完成但未生成目标文件 (mode=" + ModeName(mode) + ")"
  }

  /** The candidate loop: try `no_watermark_{mode}` and then `{mode}`, stopping at
      the first usable one. */
  method SelectOutput(paths: OutputPaths, mode: Mode, fileExists: string -> bool) returns (r: Result<string, Error>)
    ensures r.Ok? <==> ChosenOutput(paths, mode, fileExists).Some?
    ensures r.Ok? ==> r.value == ChosenOutput(paths, mode, fileExists).value
    ensures r.Err? ==> r.error == TranslationError(NoOutputMessage(mode))
  {
    var candidates := ["no_watermark_" + ModeName(mode), ModeName(mode)];
    var target: Option<string> := None;
    var i := 0;
    while i < |candidates|
      invariant 0 <= i <= |candidates|
      invariant forall j :: 0 <= j < i ==> !Usable(paths, candidates[j], fileExists)
      decreases |candidates| - i
    {
      var key := candidates[i];
      if key in paths && paths[key].Some? && paths[key].value != [] && fileExists(paths[key].value) {
        target := Some(paths[key].value);
        break;
      }
      i := i + 1;
    }
    if target.None? {
      assert !Usable(paths, candidates[0], fileExists) && !Usable(paths, candidates[1], fileExists);
      return Err(TranslationError(NoOutputMessage(mode)));
    }
    assert i == 1 ==> !Usable(paths, candidates[0], fileExists);
    return Ok(target.value);
  }

  /** The unwatermarked file wins whenever it is usable; the other mode's files are
      never chosen. */
  lemma {:induction false} PrefersUnwatermarked(paths: OutputPaths, mode: Mode, fileExists: string -> bool)
    ensures Usable(paths, "no_watermark_" + ModeName(mode), fileExists) ==>
              ChosenOutput(paths, mode, fileExists) == Some(paths["no_watermark_" + ModeName(mode)].value)
    ensures ChosenOutput(paths, mode, fileExists).Some? ==>
              (exists key :: key in {"no_watermark_" + ModeName(mode), ModeName(mode)} && Usable(paths, key, fileExists)
                             && ChosenOutput(paths, mode, fileExists).value == paths[key].value)
  {
  }

  /** A run that ended without `finish` leaves nothing to choose. */
  lemma {:induction false} NoPathsNoOutput(mode: Mode, fileExists: string -> bool)
    ensures ChosenOutput(map[], mode, fileExists) == None
  {
  }

  // ================================================================ the Celery task's writes

  /** The fields written when an attempt starts. */
  function DownloadingFields(taskId: string, mode: Mode, retries: nat, now: string): (data: Row)
    ensures Status in data && data[Status] == Text("downloading")
    ensures Has(data, CeleryTaskId, Text(taskId)) && Has(data, TranslationMode, Text(ModeName(mode)))
    ensures Has(data, RetryCount, Number(retries)) && Has(data, StartedAt, Text(now))
    ensures Has(data, ErrorMessage, Null) && Has(data, TranslatedPdfUrl, Null)
  {
    map[Status := Text("downloading"), CeleryTaskId := Text(taskId), TranslationMode := Text(ModeName(mode)),
        TranslateEngine := Text("pdf2zh_next"), RetryCount := Number(retries), StartedAt := Text(now),
        ErrorMessage := Null, TranslatedPdfUrl := Null]
  }

  /** The fields written once the document is validated. */
  function TranslatingFields(fileSize: nat, pageCount: nat): (data: Row)
    ensures Status in data && data[Status] == Text("translating")
    ensures Has(data, SourceFileSize, Number(fileSize)) && Has(data, SourcePageCount, Number(pageCount))
    ensures Has(data, ProgressTotal, Number(pageCount)) && Has(data, ProgressCurrent, Number(0))
    ensures Has(data, ProgressPercent, Number(0))
  {
    map[Status := Text("translating"), SourceFileSize := Number(fileSize), SourcePageCount := Number(pageCount),
        ProgressTotal := Number(pageCount), ProgressCurrent := Number(0), ProgressPercent := Number(0),
        TotalParagraphs := Number(pageCount), TranslatedCount := Number(0)]
  }

  /** The fields written once the engine has finished. */
  function UploadingFields(): (data: Row)
    ensures Status in data && data[Status] == Text("uploading")
    ensures Has(data, ProgressPercent, Number(95))
  {
    map[Status := Text("uploading"), ProgressPercent := Number(95)]
  }

  /** The fields written when the translated file is stored. */
  function CompletedFields(pageCount: nat, url: string, fileSize: nat, now: string): (data: Row)
    ensures Status in data && data[Status] == Text("completed")
    ensures Has(data, TranslatedPdfUrl, Text(url)) && Has(data, ImmersivePdfUrl, Text(url))
    ensures Has(data, TranslatedFileSize, Number(fileSize))
    ensures Has(data, ProgressPercent, Number(100)) && Has(data, ErrorMessage, Null)
    ensures Has(data, ProgressCurrent, Number(pageCount)) && Has(data, ProgressTotal, Number(pageCount))
    ensures Has(data, CompletedAt, Text(now))
  {
    map[Status := Text("completed"), ProgressPercent := Number(100), ProgressCurrent := Number(pageCount),
        ProgressTotal := Number(pageCount), TranslatedCount := Number(pageCount), TotalParagraphs := Number(pageCount),
        TranslatedPdfUrl := Text(url), ImmersivePdfUrl := Text(url), TranslatedFileSize := Number(fileSize),
        CompletedAt := Text(now), ErrorMessage := Null]
  }

  /** The file name of a job's output: `translated_{mode}.pdf`. */
  function OutputName(mode: Mode): string {
    "translated_" + ModeName(mode) + ".pdf"
  }

  /** The object key of a job's output: `papers/{paper_id}/translated_{mode}.pdf`. */
  function UploadKey(id: string, mode: Mode): string {
    "papers/" + id + "/" + OutputName(mode)
  }

  lemma {:induction false} OutputNameShape(mode: Mode)
    ensures '/' !in OutputName(mode)
    ensures |OutputName(mode)| > 11 && OutputName(mode)[11] == (if mode.Mono? then 'm' else 'd')
  {
  }

  /** Split at `/`, a key is the prefix, the paper and the file name. */
  lemma {:induction false} UploadKeyPieces(id: string, mode: Mode)
    requires '/' !in id
    ensures Split(UploadKey(id, mode), '/') == ["papers", id, OutputName(mode)]
  {
    var last := OutputName(mode);
    OutputNameShape(mode);
    assert UploadKey(id, mode) == "papers" + ['/'] + (id + ['/'] + last);
    SplitPrefix("papers", id + ['/'] + last, '/');
    SplitPrefix(id, last, '/');
  }

  /** Jobs never share an output object: the key determines the paper and the mode
      (paper identifiers are UUIDs, so they hold no `/`). */
  lemma {:induction false} UploadKeysDistinct(id: string, mode: Mode, id': string, mode': Mode)
    requires '/' !in id && '/' !in id'
    requires UploadKey(id, mode) == UploadKey(id', mode')
    ensures id == id' && mode == mode'
  {
    UploadKeyPieces(id, mode);
    UploadKeyPieces(id', mode');
    OutputNameShape(mode);
    OutputNameShape(mode');
  }

  // ================================================================ raising and handling

  /** Whatever the body of the Celery task raises: one of the service's errors, Celery's
      soft time limit, or any other exception (with its `str`). */
  datatype Raised = Raised(error: Error) | SoftTimeLimit | Unexpected(message: string)

  /** `str(e)`. */
  function Describe(x: Raised): string {
    match x
    case Raised(e) => Message(e)
    case SoftTimeLimit => ""
    case Unexpected(m) => m
  }

  /** The Celery task's `except` clauses. */
  datatype Handler = CatchFileValidation | CatchSoftTimeLimit | CatchTranslationOrStorage | CatchException

  /** The clauses in the order they are written. */
  const Ladder: seq<Handler> := [CatchFileValidation, CatchSoftTimeLimit, CatchTranslationOrStorage, CatchException]

  /** The class list `(TranslationError, StorageError)`. */
  predicate RetryClasses(e: Error) {
    IsInstance(e, TranslationErrorClass) || IsInstance(e, StorageErrorClass)
  }

  /** Whether a clause's class list matches the exception; the soft time limit is an
      `Exception` like any other. */
  predicate Catches(h: Handler, x: Raised) {
    match h
    case CatchFileValidation => x.Raised? && IsInstance(x.error, FileValidationErrorClass)
    case CatchSoftTimeLimit => x.SoftTimeLimit?
    case CatchTranslationOrStorage => x.Raised? && RetryClasses(x.error)
    case CatchException => true
  }

  /** The position of the first of `handlers` that catches `x`, or `|handlers|`. */
  function FirstCatching(handlers: seq<Handler>, x: Raised): (k: nat)
    ensures k <= |handlers|
    ensures k < |handlers| ==> Catches(handlers[k], x)
    ensures forall j :: 0 <= j < k ==> !Catches(handlers[j], x)
    ensures (exists j :: 0 <= j < |handlers| && Catches(handlers[j], x)) ==> k < |handlers|
  {
    if handlers == [] then 0
    else if Catches(handlers[0], x) then 0
    else
      var k := 1 + FirstCatching(handlers[1..], x);
      assert forall j :: 1 <= j < |handlers| ==> handlers[j] == handlers[1..][j - 1];
      k
  }

  /** The clause that handles `x`: the first in the ladder that matches. */
  function HandlerFor(x: Raised): (h: Handler)
    ensures Catches(h, x)
  {
    assert Catches(Ladder[3], x);
    Ladder[FirstCatching(Ladder, x)]
  }

  /** How the Celery task ends. */
  datatype TaskOutcome =
    | Succeeded(url: string, fileSize: nat)
    | Rejected(reason: string)        // `Reject(..., requeue=False)`
    | Reraised(exc: Raised)           // the exception propagates; the job is over
    | RetryScheduled(exc: Raised)     // `self.retry(exc=e)`

  /** The writes a handler makes and how the Celery task then ends. */
  datatype Reaction = Reaction(writes: seq<Write>, outcome: TaskOutcome)

  const TimeoutMessage: string := "翻译超时 (超过 30 分钟)"

  function ExhaustedMessage(detail: string): string {
    "翻译失败 (已重试 " + NatToString(MaxRetries) + " 次): " + detail
  }

  function UnknownErrorMessage(detail: string): string {
    "未知错误: " + detail
  }

  /** The fields written before a retry: the next attempt's number and a note. */
  function RetryFields(retries: nat, detail: string): (data: Row)
    ensures Status !in data
    ensures Has(data, RetryCount, Number(retries + 1))
    ensures ErrorMessage in data && data[ErrorMessage].Text?
    ensures var note := data[ErrorMessage].text; |note| > |detail| && note[|note| - |detail| - 1..] == detail + ")"
  {
    map[RetryCount := Number(retries + 1), ErrorMessage := Text("正在重试 … (" + detail + ")")]
  }

  /** What the `except` ladder does with `x` on attempt number `retries` (from 0):
      at most one write; a rejection exactly for a validation failure; and no write
      exactly when an unexpected exception is retried. */
  function Handle(id: string, x: Raised, retries: nat, now: string): (r: Reaction)
    ensures |r.writes| <= 1 && !r.outcome.Succeeded?
    ensures r.outcome.Rejected? <==> x.Raised? && x.error.FileValidationError?
    ensures r.writes == [] <==> retries < MaxRetries && x.Unexpected?
  {
    HandlerChoice(x);
    match HandlerFor(x)
    case CatchFileValidation =>
      Reaction([Write(id, FailedFields(Describe(x)), now)], Rejected(Describe(x)))
    case CatchSoftTimeLimit =>
      Reaction([Write(id, FailedFields(TimeoutMessage), now)], Reraised(x))
    case CatchTranslationOrStorage =>
      if retries >= MaxRetries then Reaction([Write(id, FailedFields(ExhaustedMessage(Describe(x))), now)], Reraised(x))
      else Reaction([Write(id, RetryFields(retries, Describe(x)), now)], RetryScheduled(x))
    case CatchException =>
      if retries >= MaxRetries then Reaction([Write(id, FailedFields(UnknownErrorMessage(Describe(x))), now)], Reraised(x))
      else Reaction([], RetryScheduled(x))
  }

  /** The ladder resolved: validation failures, then the time limit, then the
      service's other errors, then everything else. */
  lemma {:induction false} HandlerChoice(x: Raised)
    ensures HandlerFor(x) == if x.Raised? && x.error.FileValidationError? then CatchFileValidation
                             else if x.SoftTimeLimit? then CatchSoftTimeLimit
                             else if x.Raised? then CatchTranslationOrStorage
                             else CatchException
  {
    var k := FirstCatching(Ladder, x);
    assert Ladder[0] == CatchFileValidation && Ladder[1] == CatchSoftTimeLimit;
    assert Ladder[2] == CatchTranslationOrStorage && Ladder[3] == CatchException;
    if x.Raised? && x.error.FileValidationError? {
      assert k == 0;
    } else if x.SoftTimeLimit? {
      assert k == 1;
    } else if x.Raised? {
      assert Catches(Ladder[2], x);
      assert k == 2;
    } else {
      assert k == 3;
    }
  }

  /** A validation failure is final on any attempt: its clause comes first, although
      the retrying clause would catch it too. */
  lemma {:induction false} ValidationFailureIsFinal(id: string, e: Error, retries: nat, now: string)
    requires e.FileValidationError?
    ensures Catches(CatchTranslationOrStorage, Raised(e))
    ensures Handle(id, Raised(e), retries, now)
            == Reaction([Write(id, FailedFields(e.message), now)], Rejected(e.message))
  {
    HandlerChoice(Raised(e));
  }

  /** A retry is scheduled exactly when the budget is not spent and the exception is
      neither a validation failure nor the time limit. */
  lemma {:induction false} RetryBudget(id: string, x: Raised, retries: nat, now: string)
    ensures Handle(id, x, retries, now).outcome.RetryScheduled? <==>
            retries < MaxRetries && !x.SoftTimeLimit? && !(x.Raised? && x.error.FileValidationError?)
  {
    HandlerChoice(x);
  }

  /** A retry leaves the status alone; every other ending makes exactly one write,
      the fields of `mark_failed`, so the job reads back as failed. */
  lemma {:induction false} HandlingStatus(id: string, x: Raised, retries: nat, now: string)
    ensures var r := Handle(id, x, retries, now);
      && (r.outcome.RetryScheduled? ==> StatusTrail(r.writes) == [])
      && (!r.outcome.RetryScheduled? ==> StatusTrail(r.writes) == ["failed"]
                                         && exists m :: r.writes == [Write(id, FailedFields(m), now)])
  {
    HandlerChoice(x);
    var r := Handle(id, x, retries, now);
    if r.writes != [] {
      assert r.writes[..0] == [];
    }
  }

  /** Only a retry after one of the service's own errors (a validation failure
      aside) records the next attempt's number, and that number stays within the budget. */
  lemma {:induction false} RetryCountWritten(id: string, x: Raised, retries: nat, now: string)
    ensures (exists w :: w in Handle(id, x, retries, now).writes && RetryCount in w.data)
            <==> retries < MaxRetries && x.Raised? && !x.error.FileValidationError?
    ensures forall w :: w in Handle(id, x, retries, now).writes && RetryCount in w.data ==>
              w.data[RetryCount] == Number(retries + 1) && retries + 1 <= MaxRetries
  {
    HandlerChoice(x);
    var r := Handle(id, x, retries, now);
    if retries < MaxRetries && x.Raised? && !x.error.FileValidationError? {
      assert r.writes[0] in r.writes && RetryCount in r.writes[0].data;
    }
  }

  /** When the budget is spent, the stored message says how many retries were made. */
  lemma {:induction false} ExhaustedMessageNamesBudget(detail: string)
    ensures StartsWith(ExhaustedMessage(detail), "翻译失败 (已重试 2 次): ")
  {
    assert NatToString(2) == "2";
  }

  // ================================================================ one attempt

  /** The points of an attempt at which an exception from outside the model (the
      soft time limit, a disk or engine failure) can strike. */
  datatype Stage = Downloading | Validating | SavingInput | Translating | ReadingOutput | Uploading

  /** An exception striking at the end of a stage, in place of its result. */
  datatype Interruption = Interruption(stage: Stage, exc: Raised)

  /** What the Celery task's surroundings answer: the storage configuration and the two
      ways of fetching, the PDF library's verdict, the engine's event stream, the
      file system, the object store's answer to the upload, and any interruption. */
  datatype Environment = Environment(
    storage: StorageConfig, get: HttpGet, getObject: S3Get,
    open: OpenOutcome, events: seq<Event>,
    fileExists: string -> bool, readFile: string -> seq<byte>,
    put: PutOutcome, interrupt: Option<Interruption>)

  predicate Strikes(env: Environment, stage: Stage) {
    env.interrupt.Some? && env.interrupt.value.stage == stage
  }

  /** The outcome of a stage, unless an interruption strikes there. */
  function AtStage<T>(env: Environment, stage: Stage, r: Result<T, Error>): Result<T, Raised> {
    if Strikes(env, stage) then Err(env.interrupt.value.exc)
    else if r.Err? then Err(Raised(r.error))
    else Ok(r.value)
  }

  /** The writes of an attempt (or of its tail) and what its body returned or
      raised: the public URL and the size of the translated file. */
  datatype AttemptRun = AttemptRun(writes: seq<Write>, result: Result<(string, nat), Raised>)

  /** Download, validation and saving of the input: the document and its page count. */
  function Fetched(downloaded: Result<seq<byte>, Error>, env: Environment): Result<(seq<byte>, nat), Raised> {
    var pdf := AtStage(env, Downloading, downloaded);
    if pdf.Err? then Err(pdf.error) else
    var validated := AtStage(env, Validating, ValidatePdf(pdf.value, env.open));
    if validated.Err? then Err(validated.error) else
    var saved := AtStage(env, SavingInput, Ok(pdf.value));
    if saved.Err? then Err(saved.error) else
    Ok((pdf.value, validated.value))
  }

  /** From the `uploading` write to the end: choose, read and upload the output. */
  function Delivered(id: string, mode: Mode, paths: OutputPaths, pageCount: nat, env: Environment, now: string): AttemptRun {
    var uploading := [Write(id, UploadingFields(), now)];
    var target := ChosenOutput(paths, mode, env.fileExists);
    if target.None? then AttemptRun(uploading, Err(Raised(TranslationError(NoOutputMessage(mode))))) else
    var read := AtStage(env, ReadingOutput, Ok(env.readFile(target.value)));
    if read.Err? then AttemptRun(uploading, Err(read.error)) else
    var uploaded := AtStage(env, Uploading, UploadPdf(env.storage, UploadKey(id, mode), env.put));
    if uploaded.Err? then AttemptRun(uploading, Err(uploaded.error)) else
    var done := Write(id, CompletedFields(pageCount, uploaded.value, |read.value|, now), now);
    AttemptRun(uploading + [done], Ok((uploaded.value, |read.value|)))
  }

  /** From the `translating` write to the end: run the engine, then deliver. */
  function Translated(id: string, mode: Mode, pdf: seq<byte>, pageCount: nat, env: Environment, now: string): AttemptRun {
    var run := Consume(env.events, 0);
    var translating := [Write(id, TranslatingFields(|pdf|, pageCount), now)] + ProgressLog(id, run.writes, now);
    var translated := AtStage(env, Translating, run.result);
    if translated.Err? then AttemptRun(translating, Err(translated.error)) else
    var delivered := Delivered(id, mode, translated.value, pageCount, env, now);
    AttemptRun(translating + delivered.writes, delivered.result)
  }

  /** The body of `translate_paper_task`, from the first write to the last: the
      attempt numbered `retries` (from 0) of job `id`, run as Celery task `taskId`. */
  function Attempt(id: string, downloaded: Result<seq<byte>, Error>, mode: Mode, taskId: string, retries: nat,
                   env: Environment, now: string): (a: AttemptRun)
    ensures a.writes != [] && a.writes[0].data == DownloadingFields(taskId, mode, retries, now)
    ensures ForJob(a.writes, id)
  {
    var started := [Write(id, DownloadingFields(taskId, mode, retries, now), now)];
    var rest := Processed(id, downloaded, mode, env, now);
    ProcessedForJob(id, downloaded, mode, env, now);
    AttemptRun(started + rest.writes, rest.result)
  }

  /** Every write of the Celery task goes to the row of its own job. */
  lemma {:induction false} ProcessedForJob(id: string, downloaded: Result<seq<byte>, Error>, mode: Mode, env: Environment, now: string)
    ensures ForJob(Processed(id, downloaded, mode, env, now).writes, id)
  {
    var fetched := Fetched(downloaded, env);
    if fetched.Ok? {
      var pdf := fetched.value.0;
      var pageCount := fetched.value.1;
      var run := Consume(env.events, 0);
      var translated := AtStage(env, Translating, run.result);
      if translated.Ok? {
        var d := Delivered(id, mode, translated.value, pageCount, env, now);
        assert ForJob(d.writes, id);
      }
    }
  }

  /** Everything after the download, given what `download_pdf` returned: the body
      depends on the file reference only through that. */
  function Processed(id: string, downloaded: Result<seq<byte>, Error>, mode: Mode, env: Environment, now: string): AttemptRun {
    var fetched := Fetched(downloaded, env);
    if fetched.Err? then AttemptRun([], Err(fetched.error))
    else Translated(id, mode, fetched.value.0, fetched.value.1, env, now)
  }

  /** Choosing, reading and uploading the output, against the store. */
  method Deliver(store: RecordStore, id: string, mode: Mode, paths: OutputPaths, pageCount: nat,
                 env: Environment, now: string) returns (r: Result<(string, nat), Raised>)
    requires store.Valid()
    modifies store
    ensures store.Valid()
    ensures r == Delivered(id, mode, paths, pageCount, env, now).result
    ensures store.log == old(store.log) + Delivered(id, mode, paths, pageCount, env, now).writes
  {
    store.Upsert(id, UploadingFields(), now);
    var target := SelectOutput(paths, mode, env.fileExists);
    if target.Err? { return Err(Raised(target.error)); }

    var translatedPdf := env.readFile(target.value);
    if Strikes(env, ReadingOutput) { return Err(env.interrupt.value.exc); }

    var url := UploadPdf(env.storage, UploadKey(id, mode), env.put);
    if Strikes(env, Uploading) { return Err(env.interrupt.value.exc); }
    if url.Err? { return Err(Raised(url.error)); }

    store.Upsert(id, CompletedFields(pageCount, url.value, |translatedPdf|, now), now);
    return Ok((url.value, |translatedPdf|));
  }

  /** Translating and delivering, against the store. */
  method TranslateAndDeliver(store: RecordStore, id: string, mode: Mode, pdf: seq<byte>, pageCount: nat,
                             env: Environment, now: string) returns (r: Result<(string, nat), Raised>)
    requires store.Valid()
    modifies store
    ensures store.Valid()
    ensures r == Translated(id, mode, pdf, pageCount, env, now).result
    ensures store.log == old(store.log) + Translated(id, mode, pdf, pageCount, env, now).writes
  {
    ghost var before := store.log;
    var translating := Write(id, TranslatingFields(|pdf|, pageCount), now);
    store.Upsert(id, translating.data, now);
    var outputPaths := RunTranslation(store, id, env.events, now);
    ghost var progress := ProgressLog(id, Consume(env.events, 0).writes, now);
    assert store.log == before + ([translating] + progress);
    if Strikes(env, Translating) { return Err(env.interrupt.value.exc); }
    if outputPaths.Err? { return Err(Raised(outputPaths.error)); }
    r := Deliver(store, id, mode, outputPaths.value, pageCount, env, now);
    assert store.log == before + ([translating] + progress + Delivered(id, mode, outputPaths.value, pageCount, env, now).writes);
  }

  /** The `try` body of `translate_paper_task` against the store. */
  method RunAttempt(store: RecordStore, id: string, fileUrl: string, mode: Mode, taskId: string, retries: nat,
                    env: Environment, now: string) returns (r: Result<(string, nat), Raised>)
    requires store.Valid()
    modifies store
    ensures store.Valid()
    ensures r == Attempt(id, DownloadPdf(env.storage, fileUrl, env.get, env.getObject), mode, taskId, retries, env, now).result
    ensures store.log == old(store.log)
                         + Attempt(id, DownloadPdf(env.storage, fileUrl, env.get, env.getObject), mode, taskId, retries, env, now).writes
  {
    ghost var before := store.log;
    var started := Write(id, DownloadingFields(taskId, mode, retries, now), now);
    store.Upsert(id, started.data, now);
    var downloaded := DownloadPdf(env.storage, fileUrl, env.get, env.getObject);
    r := ProcessDownload(store, id, downloaded, mode, env, now);
    assert store.log == before + ([started] + Processed(id, downloaded, mode, env, now).writes);
  }

  /** Validation, saving, translation and delivery, against the store. */
  method ProcessDownload(store: RecordStore, id: string, downloaded: Result<seq<byte>, Error>, mode: Mode,
                         env: Environment, now: string) returns (r: Result<(string, nat), Raised>)
    requires store.Valid()
    modifies store
    ensures store.Valid()
    ensures r == Processed(id, downloaded, mode, env, now).result
    ensures store.log == old(store.log) + Processed(id, downloaded, mode, env, now).writes
  {
    if Strikes(env, Downloading) { return Err(env.interrupt.value.exc); }
    if downloaded.Err? { return Err(Raised(downloaded.error)); }
    var pdf := downloaded.value;

    var validated := ValidatePdf(pdf, env.open);
    if Strikes(env, Validating) { return Err(env.interrupt.value.exc); }
    if validated.Err? { return Err(Raised(validated.error)); }
    var pageCount := validated.value;

    if Strikes(env, SavingInput) { return Err(env.interrupt.value.exc); }

    r := TranslateAndDeliver(store, id, mode, pdf, pageCount, env, now);
  }

  // ================================================================ the statuses an attempt writes

  /** The statuses of a successful attempt, in order. */
  const SuccessTrail: seq<string> := ["downloading", "translating", "uploading", "completed"]

  /** Progress writes never touch the status. */
  lemma {:induction false} ProgressLogKeepsStatus(id: string, writes: seq<ProgressWrite>, now: string)
    ensures StatusTrail(ProgressLog(id, writes, now)) == []
    decreases |writes|
  {
    if writes != [] {
      var n := |writes| - 1;
      ProgressLogAppend(id, writes[..n], writes[n], now);
      assert writes[..n] + [writes[n]] == writes;
      ProgressLogKeepsStatus(id, writes[..n], now);
      StatusTrailAppend(ProgressLog(id, writes[..n], now), [Write(id, ProgressFields(writes[n]), now)]);
      StatusTrailOne(Write(id, ProgressFields(writes[n]), now));
    }
  }

  lemma {:induction false} DeliveredTrail(id: string, mode: Mode, paths: OutputPaths, pageCount: nat, env: Environment, now: string)
    ensures var d := Delivered(id, mode, paths, pageCount, env, now);
      StatusTrail(d.writes) == if d.result.Ok? then ["uploading", "completed"] else ["uploading"]
  {
    var d := Delivered(id, mode, paths, pageCount, env, now);
    var uploading := Write(id, UploadingFields(), now);
    StatusTrailOne(uploading);
    if d.result.Ok? {
      var done := d.writes[1];
      assert d.writes == [uploading] + [done];
      StatusTrailAppend([uploading], [done]);
      StatusTrailOne(done);
    }
  }

  lemma {:induction false} TranslatedTrail(id: string, mode: Mode, pdf: seq<byte>, pageCount: nat, env: Environment, now: string)
    ensures var translated := AtStage(env, Translating, Consume(env.events, 0).result);
      StatusTrail(Translated(id, mode, pdf, pageCount, env, now).writes)
      == ["translating"] + if translated.Err? then []
                           else StatusTrail(Delivered(id, mode, translated.value, pageCount, env, now).writes)
  {
    var tw := Write(id, TranslatingFields(|pdf|, pageCount), now);
    var pl := ProgressLog(id, Consume(env.events, 0).writes, now);
    ProgressLogKeepsStatus(id, Consume(env.events, 0).writes, now);
    var translated := AtStage(env, Translating, Consume(env.events, 0).result);
    if translated.Err? {
      TranslatingTrail(tw, pl, []);
      assert [tw] + pl + [] == [tw] + pl;
    } else {
      TranslatingTrail(tw, pl, Delivered(id, mode, translated.value, pageCount, env, now).writes);
    }
  }

  /** The `translating` write and the progress writes after it add one status. */
  lemma {:induction false} TranslatingTrail(tw: Write, progress: seq<Write>, rest: seq<Write>)
    requires RequestedStatus(tw) == Some("translating") && StatusTrail(progress) == []
    ensures StatusTrail([tw] + progress + rest) == ["translating"] + StatusTrail(rest)
  {
    StatusTrailOne(tw);
    StatusTrailAppend([tw], progress);
    assert StatusTrail([tw] + progress) == ["translating"] + [];
    assert ["translating"] + [] == ["translating"];
    StatusTrailAppend([tw] + progress, rest);
  }

  /** A proper, non-empty prefix of the success trail. */
  predicate StoppedPartWay(trail: seq<string>) {
    1 <= |trail| < |SuccessTrail| && trail == SuccessTrail[..|trail|]
  }

  /** From the `translating` write on, an attempt writes translating, uploading and
      completed if it succeeds, and stops after translating or uploading if not. */
  lemma {:induction false} TranslatedTrailCases(id: string, mode: Mode, pdf: seq<byte>, pageCount: nat, env: Environment, now: string)
    ensures var t := Translated(id, mode, pdf, pageCount, env, now);
      && (t.result.Ok? ==> StatusTrail(t.writes) == SuccessTrail[1..])
      && (t.result.Err? ==> StoppedPartWay(SuccessTrail[..1] + StatusTrail(t.writes)))
  {
    var t := Translated(id, mode, pdf, pageCount, env, now);
    TranslatedTrail(id, mode, pdf, pageCount, env, now);
    TrailShapes();
    var translated := AtStage(env, Translating, Consume(env.events, 0).result);
    if translated.Err? {
      assert t.result.Err? && StatusTrail(t.writes) == ["translating"] + [];
      assert SuccessTrail[..1] + StatusTrail(t.writes) == ["downloading", "translating"];
    } else {
      var d := Delivered(id, mode, translated.value, pageCount, env, now);
      DeliveredTrail(id, mode, translated.value, pageCount, env, now);
      assert t.result == d.result;
      if d.result.Ok? {
        assert StatusTrail(t.writes) == ["translating"] + ["uploading", "completed"];
      } else {
        assert SuccessTrail[..1] + StatusTrail(t.writes) == ["downloading"] + (["translating"] + ["uploading"]);
      }
    }
  }

  lemma {:induction false} TrailShapes()
    ensures SuccessTrail[..1] == ["downloading"]
    ensures SuccessTrail[1..] == ["translating"] + ["uploading", "completed"]
    ensures ["translating"] + [] == ["translating"]
    ensures StoppedPartWay(["downloading"]) && StoppedPartWay(["downloading", "translating"])
    ensures StoppedPartWay(["downloading"] + (["translating"] + ["uploading"]))
  {
    assert ["downloading"] + (["translating"] + ["uploading"]) == SuccessTrail[..3];
  }

  /** The trail of an attempt whose input was fetched. */
  lemma {:induction false} FetchedAttemptTrail(id: string, downloaded: Result<seq<byte>, Error>, mode: Mode, taskId: string, retries: nat,
                                               env: Environment, now: string)
    requires Fetched(downloaded, env).Ok?
    ensures var a := Attempt(id, downloaded, mode, taskId, retries, env, now);
      var t := Translated(id, mode, Fetched(downloaded, env).value.0, Fetched(downloaded, env).value.1, env, now);
      a.result == t.result && StatusTrail(a.writes) == SuccessTrail[..1] + StatusTrail(t.writes)
  {
    var started := Write(id, DownloadingFields(taskId, mode, retries, now), now);
    var fetched := Fetched(downloaded, env);
    var t := Translated(id, mode, fetched.value.0, fetched.value.1, env, now);
    assert Processed(id, downloaded, mode, env, now) == t;
    DownloadingTrail(started, t.writes);
  }

  /** The `downloading` write adds one status in front of whatever follows it. */
  lemma {:induction false} DownloadingTrail(started: Write, rest: seq<Write>)
    requires RequestedStatus(started) == Some("downloading")
    ensures StatusTrail([started] + rest) == ["downloading"] + StatusTrail(rest)
  {
    StatusTrailOne(started);
    StatusTrailAppend([started], rest);
  }

  /** A successful attempt moves the job through downloading, translating,
      uploading and completed, in that order; a failed one stops part way, never
      reaching completed. */
  lemma {:induction false} AttemptTrail(id: string, downloaded: Result<seq<byte>, Error>, mode: Mode, taskId: string, retries: nat,
                                        env: Environment, now: string)
    ensures var a := Attempt(id, downloaded, mode, taskId, retries, env, now);
      && (a.result.Ok? ==> StatusTrail(a.writes) == SuccessTrail)
      && (a.result.Err? ==> StoppedPartWay(StatusTrail(a.writes)))
  {
    var a := Attempt(id, downloaded, mode, taskId, retries, env, now);
    if Fetched(downloaded, env).Err? {
      StatusTrailOne(Write(id, DownloadingFields(taskId, mode, retries, now), now));
      assert StatusTrail(a.writes) == SuccessTrail[..1];
    } else {
      FetchedAttemptTrail(id, downloaded, mode, taskId, retries, env, now);
      TranslatedTrailCases(id, mode, Fetched(downloaded, env).value.0, Fetched(downloaded, env).value.1, env, now);
    }
  }

  // ================================================================ the Celery task

  /** The `except` ladder against the store: the clauses are tried in order. */
  method HandleFailure(store: RecordStore, id: string, x: Raised, retries: nat, now: string) returns (outcome: TaskOutcome)
    requires store.Valid()
    modifies store
    ensures store.Valid()
    ensures outcome == Handle(id, x, retries, now).outcome
    ensures store.log == old(store.log) + Handle(id, x, retries, now).writes
  {
    HandlerChoice(x);
    if x.Raised? && IsInstance(x.error, FileValidationErrorClass) {
      store.MarkFailed(id, Describe(x), now);
      return Rejected(Describe(x));
    } else if x.SoftTimeLimit? {
      store.MarkFailed(id, TimeoutMessage, now);
      return Reraised(x);
    } else if x.Raised? && RetryClasses(x.error) {
      if retries >= MaxRetries {
        store.MarkFailed(id, ExhaustedMessage(Describe(x)), now);
        return Reraised(x);
      }
      store.Upsert(id, RetryFields(retries, Describe(x)), now);
      return RetryScheduled(x);
    } else {
      if retries >= MaxRetries {
        store.MarkFailed(id, UnknownErrorMessage(Describe(x)), now);
        return Reraised(x);
      }
      return RetryScheduled(x);
    }
  }

  /** Every write of one run of the Celery task and how it ends. */
  function Task(id: string, downloaded: Result<seq<byte>, Error>, mode: Mode, taskId: string, retries: nat,
                env: Environment, now: string): (t: Reaction)
    ensures var a := Attempt(id, downloaded, mode, taskId, retries, env, now);
      && StartsWith(t.writes, a.writes) && |t.writes| <= |a.writes| + 1
      && (t.outcome.Succeeded? <==> a.result.Ok?)
    ensures ForJob(t.writes, id)
  {
    var a := Attempt(id, downloaded, mode, taskId, retries, env, now);
    if a.result.Ok? then Reaction(a.writes, Succeeded(a.result.value.0, a.result.value.1))
    else
      var h := Handle(id, a.result.error, retries, now);
      Reaction(a.writes + h.writes, h.outcome)
  }

  /** One run of the Celery task leaves every other job's row as it was. */
  lemma {:induction false} TaskTouchesOwnRow(rows: map<string, Row>, id: string, downloaded: Result<seq<byte>, Error>, mode: Mode,
                                             taskId: string, retries: nat, env: Environment, now: string)
    ensures var table := Replay(rows, Task(id, downloaded, mode, taskId, retries, env, now).writes);
      forall other :: other in rows && other != id ==> other in table && table[other] == rows[other]
  {
    ReplayOthers(rows, Task(id, downloaded, mode, taskId, retries, env, now).writes, id);
  }

  /** `translate_paper_task(paper_id, file_url, mode)` on attempt `retries`. */
  method TranslatePaperTask(store: RecordStore, id: string, fileUrl: string, mode: Mode, taskId: string, retries: nat,
                            env: Environment, now: string) returns (outcome: TaskOutcome)
    requires store.Valid()
    modifies store
    ensures store.Valid()
    ensures outcome == Task(id, DownloadPdf(env.storage, fileUrl, env.get, env.getObject), mode, taskId, retries, env, now).outcome
    ensures store.log == old(store.log)
                         + Task(id, DownloadPdf(env.storage, fileUrl, env.get, env.getObject), mode, taskId, retries, env, now).writes
  {
    ghost var a := Attempt(id, DownloadPdf(env.storage, fileUrl, env.get, env.getObject), mode, taskId, retries, env, now);
    ghost var before := store.log;
    var r := RunAttempt(store, id, fileUrl, mode, taskId, retries, env, now);
    if r.Ok? {
      return Succeeded(r.value.0, r.value.1);
    }
    outcome := HandleFailure(store, id, r.error, retries, now);
    assert store.log == before + (a.writes + Handle(id, r.error, retries, now).writes);
  }

  /** The statuses one run of the Celery task writes: the whole trail on success; on a
      terminal failure a trail stopped part way and then `failed`; before a retry a
      trail stopped part way, so the job is left in the stage it failed in. */
  lemma {:induction false} TaskTrail(id: string, downloaded: Result<seq<byte>, Error>, mode: Mode, taskId: string, retries: nat,
                                     env: Environment, now: string)
    ensures var t := Task(id, downloaded, mode, taskId, retries, env, now);
      && (t.outcome.Succeeded? ==> StatusTrail(t.writes) == SuccessTrail)
      && (t.outcome.RetryScheduled? ==> StoppedPartWay(StatusTrail(t.writes)))
      && ((t.outcome.Rejected? || t.outcome.Reraised?) ==>
            var trail := StatusTrail(t.writes);
            |trail| >= 1 && StoppedPartWay(trail[..|trail| - 1]) && trail[|trail| - 1] == "failed")
  {
    var a := Attempt(id, downloaded, mode, taskId, retries, env, now);
    AttemptTrail(id, downloaded, mode, taskId, retries, env, now);
    if a.result.Err? {
      var h := Handle(id, a.result.error, retries, now);
      HandlingStatus(id, a.result.error, retries, now);
      StatusTrailAppend(a.writes, h.writes);
      assert StatusTrail(a.writes + h.writes) == StatusTrail(a.writes) + StatusTrail(h.writes);
    } else {
      assert Task(id, downloaded, mode, taskId, retries, env, now).writes == a.writes;
    }
  }

  /** The last write of a successful attempt is the `completed` one, carrying the
      uploaded file's URL and size and the page count validation reported. */
  lemma {:induction false} SuccessEndsCompleted(id: string, downloaded: Result<seq<byte>, Error>, mode: Mode, taskId: string, retries: nat,
                                                env: Environment, now: string)
    requires Attempt(id, downloaded, mode, taskId, retries, env, now).result.Ok?
    ensures Fetched(downloaded, env).Ok?
    ensures var a := Attempt(id, downloaded, mode, taskId, retries, env, now);
      |a.writes| > 0 &&
        a.writes[|a.writes| - 1]
        == Write(id, CompletedFields(Fetched(downloaded, env).value.1, a.result.value.0, a.result.value.1, now), now)
  {
    var a := Attempt(id, downloaded, mode, taskId, retries, env, now);
    var pdf := Fetched(downloaded, env).value.0;
    var pageCount := Fetched(downloaded, env).value.1;
    var t := Translated(id, mode, pdf, pageCount, env, now);
    var d := Delivered(id, mode, AtStage(env, Translating, Consume(env.events, 0).result).value, pageCount, env, now);
    assert a.writes[|a.writes| - 1] == t.writes[|t.writes| - 1] == d.writes[|d.writes| - 1];
  }

  /** The row after a write: what `Replay` does with the last write of a log. */
  lemma {:induction false} ReplayLast(rows: map<string, Row>, writes: seq<Write>)
    requires writes != []
    ensures var w := writes[|writes| - 1];
      Replay(rows, writes) == Upserted(Replay(rows, writes[..|writes| - 1]), w.id, w.data, w.now)
  {
  }

  /** Whether `row` holds `v` under `f`. */
  predicate Has(row: Row, f: Field, v: Value) {
    f in row && row[f] == v
  }

  /** A log ending in the `completed` write leaves the row completed. */
  lemma {:induction false} CompletedWriteRecorded(rows: map<string, Row>, writes: seq<Write>, id: string,
                                                  pageCount: nat, url: string, fileSize: nat, now: string)
    requires writes != [] && writes[|writes| - 1] == Write(id, CompletedFields(pageCount, url, fileSize, now), now)
    ensures var table := Replay(rows, writes);
      && id in table && Has(table[id], Status, Text("completed"))
      && Has(table[id], TranslatedPdfUrl, Text(url)) && Has(table[id], ImmersivePdfUrl, Text(url))
      && Has(table[id], TranslatedFileSize, Number(fileSize))
      && Has(table[id], ProgressPercent, Number(100)) && Has(table[id], ErrorMessage, Null)
      && Has(table[id], ProgressCurrent, Number(pageCount)) && Has(table[id], ProgressTotal, Number(pageCount))
  {
    ReplayLast(rows, writes);
    CompletedUpsert(Replay(rows, writes[..|writes| - 1]), id, pageCount, url, fileSize, now);
  }

  /** The `completed` upsert on its own. */
  lemma {:induction false} CompletedUpsert(rows: map<string, Row>, id: string, pageCount: nat, url: string, fileSize: nat, now: string)
    ensures var table := Upserted(rows, id, CompletedFields(pageCount, url, fileSize, now), now);
      && id in table && Has(table[id], Status, Text("completed"))
      && Has(table[id], TranslatedPdfUrl, Text(url)) && Has(table[id], ImmersivePdfUrl, Text(url))
      && Has(table[id], TranslatedFileSize, Number(fileSize))
      && Has(table[id], ProgressPercent, Number(100)) && Has(table[id], ErrorMessage, Null)
      && Has(table[id], ProgressCurrent, Number(pageCount)) && Has(table[id], ProgressTotal, Number(pageCount))
  {
    var d := CompletedFields(pageCount, url, fileSize, now);
    UpsertedKeeps(rows, id, d, now, ProgressCurrent);
    UpsertedKeeps(rows, id, d, now, ProgressTotal);
    UpsertedKeeps(rows, id, d, now, TranslatedPdfUrl);
    UpsertedKeeps(rows, id, d, now, ImmersivePdfUrl);
    UpsertedKeeps(rows, id, d, now, TranslatedFileSize);
    UpsertedKeeps(rows, id, d, now, ProgressPercent);
    UpsertedKeeps(rows, id, d, now, ErrorMessage);
    UpsertedFields(rows, id, d, now);
    StatusTable();
  }

  /** A log ending in a `mark_failed` write leaves the row failed. */
  lemma {:induction false} FailedWriteRecorded(rows: map<string, Row>, writes: seq<Write>, id: string, message: string, now: string)
    requires writes != [] && writes[|writes| - 1] == Write(id, FailedFields(message), now)
    ensures var table := Replay(rows, writes);
      && id in table && Has(table[id], Status, Text("failed"))
      && ErrorMessage in table[id] && table[id][ErrorMessage].Text? && |table[id][ErrorMessage].text| <= 1000
  {
    ReplayLast(rows, writes);
    FailedRowMessage(Replay(rows, writes[..|writes| - 1]), id, message, now);
  }

  /** A successful run leaves a completed row with the URL of the upload in both URL
      fields, its size, full progress over the validated page count and no error message. */
  lemma {:induction false} SuccessRecorded(rows: map<string, Row>, id: string, downloaded: Result<seq<byte>, Error>, mode: Mode, taskId: string,
                                           retries: nat, env: Environment, now: string)
    requires Task(id, downloaded, mode, taskId, retries, env, now).outcome.Succeeded?
    ensures var t := Task(id, downloaded, mode, taskId, retries, env, now);
      var table := Replay(rows, t.writes);
      && id in table && Has(table[id], Status, Text("completed"))
      && Has(table[id], TranslatedPdfUrl, Text(t.outcome.url)) && Has(table[id], ImmersivePdfUrl, Text(t.outcome.url))
      && Has(table[id], TranslatedFileSize, Number(t.outcome.fileSize))
      && Has(table[id], ProgressPercent, Number(100)) && Has(table[id], ErrorMessage, Null)
    ensures Fetched(downloaded, env).Ok?
    ensures var table := Replay(rows, Task(id, downloaded, mode, taskId, retries, env, now).writes);
      var pages := Number(Fetched(downloaded, env).value.1);
      id in table && Has(table[id], ProgressCurrent, pages) && Has(table[id], ProgressTotal, pages)
  {
    var a := Attempt(id, downloaded, mode, taskId, retries, env, now);
    SuccessEndsCompleted(id, downloaded, mode, taskId, retries, env, now);
    var pageCount := Fetched(downloaded, env).value.1;
    CompletedWriteRecorded(rows, a.writes, id, pageCount, a.result.value.0, a.result.value.1, now);
  }

  /** A run that ends for good without success leaves a failed row whose error
      message has at most 1000 characters. */
  lemma {:induction false} FailureRecorded(rows: map<string, Row>, id: string, downloaded: Result<seq<byte>, Error>, mode: Mode, taskId: string,
                                           retries: nat, env: Environment, now: string)
    requires Task(id, downloaded, mode, taskId, retries, env, now).outcome.Rejected?
             || Task(id, downloaded, mode, taskId, retries, env, now).outcome.Reraised?
    ensures var table := Replay(rows, Task(id, downloaded, mode, taskId, retries, env, now).writes);
      && id in table && Has(table[id], Status, Text("failed"))
      && ErrorMessage in table[id] && table[id][ErrorMessage].Text? && |table[id][ErrorMessage].text| <= 1000
  {
    var a := Attempt(id, downloaded, mode, taskId, retries, env, now);
    var h := Handle(id, a.result.error, retries, now);
    HandlingStatus(id, a.result.error, retries, now);
    var m :| h.writes == [Write(id, FailedFields(m), now)];
    FailedWriteRecorded(rows, a.writes + h.writes, id, m, now);
  }
}
