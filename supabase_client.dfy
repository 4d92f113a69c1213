/**
 * The record-store client: one row per paper in the `paper_translations` table,
 * written by upsert (patch an existing row, insert a new one with defaults) and
 * read back by paper id. Internal job statuses are narrowed to the five the
 * table accepts before anything is stored.
 */
module SupabaseClient {
  import opened Wrappers
  import opened Py

  // ================================================================ values and rows

  /** A JSON value as the table stores it. */
  datatype Value = Text(text: string) | Number(number: int) | Null

  /** The columns of `paper_translations` that the service reads or writes. */
  datatype Field =
    | PaperId | UpdatedAt | Status | ErrorMessage | CeleryTaskId | TranslationMode
    | TranslateEngine | RetryCount | StartedAt | CompletedAt | TranslatedPdfUrl
    | ImmersivePdfUrl | SourceFileSize | SourcePageCount | TranslatedFileSize
    | ProgressPercent | ProgressCurrent | ProgressTotal | TotalParagraphs | TranslatedCount

  /** A row, or the dictionary of fields handed to an upsert. */
  type Row = map<Field, Value>

  /** Python truthiness of a stored value. */
  predicate Truthy(v: Value) {
    match v
    case Text(t) => t != []
    case Number(n) => n != 0
    case Null => false
  }

  // ================================================================ status narrowing

  /** `_STATUS_MAP`: internal status names to the values the table's check
      constraint allows. */
  const StatusMap: map<string, string> := map[
    "queued" := "pending",
    "downloading" := "extracting",
    "translating" := "translating",
    "uploading" := "translating",
    "completed" := "completed",
    "failed" := "failed",
    "cancelled" := "failed"
  ]

  /** The statuses the table accepts. */
  predicate DbStatus(s: string) {
    s == "pending" || s == "extracting" || s == "translating" || s == "completed" || s == "failed"
  }

  /** `_STATUS_MAP.get(raw, raw)`: known names are narrowed, others pass through. */
  function MapStatusName(raw: string): (r: string)
    ensures raw in StatusMap ==> DbStatus(r)
    ensures raw !in StatusMap ==> r == raw
  {
    if raw in StatusMap then StatusMap[raw] else raw
  }

  /** A status that the map leaves as it is. */
  predicate Narrowed(s: string) {
    MapStatusName(s) == s
  }

  /** Every status the map produces is a fixed point of it, so narrowing twice is
      narrowing once. */
  lemma {:induction false} MapStatusNameIdempotent(raw: string)
    ensures Narrowed(MapStatusName(raw))
    ensures MapStatusName(MapStatusName(raw)) == MapStatusName(raw)
  {
    if raw in StatusMap {
      var r := StatusMap[raw];
      assert DbStatus(r);
      assert r == "pending" || r == "extracting" || r == "translating" || r == "completed" || r == "failed";
      assert "pending" !in StatusMap && "extracting" !in StatusMap;
    }
  }

  /** The table's own statuses are exactly the narrowed known names: each of them
      is left alone by the map. */
  lemma {:induction false} DbStatusesAreNarrowed(s: string)
    requires DbStatus(s)
    ensures Narrowed(s)
  {
    assert "pending" !in StatusMap && "extracting" !in StatusMap;
  }

  /** The narrowing, name by name. A cancelled job is stored as failed. */
  lemma {:induction false} StatusTable()
    ensures MapStatusName("queued") == "pending"
    ensures MapStatusName("downloading") == "extracting"
    ensures MapStatusName("translating") == "translating"
    ensures MapStatusName("uploading") == "translating"
    ensures MapStatusName("completed") == "completed"
    ensures MapStatusName("failed") == "failed"
    ensures MapStatusName("cancelled") == "failed"
    ensures MapStatusName("pending") == "pending" && MapStatusName("extracting") == "extracting"
  {
    assert "pending" !in StatusMap && "extracting" !in StatusMap;
  }

  /** `_map_status(data)`: rewrite a textual `status` field through the map. */
  function MapStatus(data: Row): (r: Row)
    ensures r.Keys == data.Keys
    ensures forall k :: k in data && k != Status ==> r[k] == data[k]
    ensures Status in data && data[Status].Text? ==>
              r[Status] == Text(MapStatusName(data[Status].text))
    ensures Status in data && !data[Status].Text? ==> r[Status] == data[Status]
  {
    if Status in data && data[Status].Text? then
      data[Status := Text(MapStatusName(data[Status].text))]
    else data
  }

  lemma {:induction false} MapStatusIdempotent(data: Row)
    ensures MapStatus(MapStatus(data)) == MapStatus(data)
  {
    if Status in data && data[Status].Text? {
      MapStatusNameIdempotent(data[Status].text);
    }
  }

  // ================================================================ upsert

  /** The fields every upsert sets before narrowing: `paper_id` and `updated_at`. */
  function Stamp(id: string, data: Row, now: string): (r: Row)
    ensures r.Keys == data.Keys + {PaperId, UpdatedAt}
    ensures r[PaperId] == Text(id) && r[UpdatedAt] == Text(now)
    ensures forall k :: k in data && k != PaperId && k != UpdatedAt ==> r[k] == data[k]
  {
    data[PaperId := Text(id)][UpdatedAt := Text(now)]
  }

  /** The counters an insert fills with 0 when they are not supplied. */
  predicate IsCounter(f: Field) {
    f == ProgressPercent || f == ProgressCurrent || f == ProgressTotal
    || f == RetryCount || f == TotalParagraphs || f == TranslatedCount
  }

  /** The values the seven `setdefault` calls of an insert supply. */
  const Defaults: Row := map[
    Status := Text("pending"),
    ProgressPercent := Number(0),
    ProgressCurrent := Number(0),
    ProgressTotal := Number(0),
    RetryCount := Number(0),
    TotalParagraphs := Number(0),
    TranslatedCount := Number(0)
  ]

  /** `data.setdefault(k, v)` for every default: the supplied fields laid over the
      defaults, so a supplied field is never overwritten. */
  function WithDefaults(data: Row): (r: Row)
    ensures forall k :: k in data ==> k in r && r[k] == data[k]
    ensures Status in r && (Status !in data ==> r[Status] == Text("pending"))
    ensures forall f :: IsCounter(f) && f !in data ==> f in r && r[f] == Number(0)
    ensures forall f :: f in r ==> f in data || f == Status || IsCounter(f)
  {
    Defaults + data
  }

  /** What `upsert_translation(id, data)` leaves in the table when the write is
      accepted: the stamped, narrowed fields patched onto the existing row, or a new
      row of them with defaults. */
  function Upserted(rows: map<string, Row>, id: string, data: Row, now: string): map<string, Row> {
    var d := MapStatus(Stamp(id, data, now));
    if id in rows then rows[id := rows[id] + d] else rows[id := WithDefaults(d)]
  }

  /** The table's invariant: each row names its paper and carries a status, and a
      textual status is one the map leaves alone. */
  ghost predicate WellFormedRow(id: string, row: Row) {
    PaperId in row && row[PaperId] == Text(id)
    && Status in row && (row[Status].Text? ==> Narrowed(row[Status].text))
  }

  ghost predicate WellFormedTable(rows: map<string, Row>) {
    forall id :: id in rows ==> WellFormedRow(id, rows[id])
  }

  /** An upsert touches only its own row, and that row exists afterwards. */
  lemma {:induction false} UpsertedOthers(rows: map<string, Row>, id: string, data: Row, now: string)
    ensures Upserted(rows, id, data, now).Keys == rows.Keys + {id}
    ensures forall other :: other in rows && other != id ==> Upserted(rows, id, data, now)[other] == rows[other]
  {
  }

  /** The row written by an upsert holds every supplied field but `paper_id`,
      `updated_at` and `status` as given, those three stamped and narrowed. */
  lemma {:induction false} UpsertedFields(rows: map<string, Row>, id: string, data: Row, now: string)
    ensures var row := Upserted(rows, id, data, now)[id];
      && PaperId in row && row[PaperId] == Text(id)
      && UpdatedAt in row && row[UpdatedAt] == Text(now)
      && (forall k :: k in data && k != PaperId && k != UpdatedAt && k != Status ==> k in row && row[k] == data[k])
      && (Status in data && data[Status].Text? ==> Status in row && row[Status] == Text(MapStatusName(data[Status].text)))
  {
  }

  /** A field the caller supplies, other than those the upsert itself sets, is
      stored as supplied. */
  lemma {:induction false} UpsertedKeeps(rows: map<string, Row>, id: string, data: Row, now: string, f: Field)
    requires f in data && f != PaperId && f != UpdatedAt && f != Status
    ensures id in Upserted(rows, id, data, now)
    ensures f in Upserted(rows, id, data, now)[id] && Upserted(rows, id, data, now)[id][f] == data[f]
  {
  }

  /** Patching an existing row keeps the fields the caller did not supply. */
  lemma {:induction false} UpsertedPatchKeeps(rows: map<string, Row>, id: string, data: Row, now: string)
    requires id in rows
    ensures var row := Upserted(rows, id, data, now)[id];
      forall k :: k in rows[id] && k !in data && k != UpdatedAt && k != PaperId ==> k in row && row[k] == rows[id][k]
  {
    var d := MapStatus(Stamp(id, data, now));
    var row := Upserted(rows, id, data, now)[id];
    assert row == rows[id] + d;
    forall k | k in rows[id] && k !in data && k != UpdatedAt && k != PaperId
      ensures k in row && row[k] == rows[id][k]
    {
      assert k !in d;
    }
  }

  /** Inserting a new row fills status `pending` and zero counters where the caller
      supplied nothing. */
  lemma {:induction false} UpsertedInsertDefaults(rows: map<string, Row>, id: string, data: Row, now: string)
    requires id !in rows
    ensures var row := Upserted(rows, id, data, now)[id];
      && (Status !in data ==> Status in row && row[Status] == Text("pending"))
      && (forall f :: IsCounter(f) && f !in data ==> f in row && row[f] == Number(0))
  {
    if Status !in data {
      InsertedDefault(rows, id, data, now, Status);
    }
    forall f | IsCounter(f) && f !in data
      ensures f in Upserted(rows, id, data, now)[id] && Upserted(rows, id, data, now)[id][f] == Number(0)
    {
      InsertedDefault(rows, id, data, now, f);
    }
  }

  /** One default field of an insert. */
  lemma {:induction false} InsertedDefault(rows: map<string, Row>, id: string, data: Row, now: string, f: Field)
    requires id !in rows && f !in data && f in Defaults
    ensures f in Upserted(rows, id, data, now)[id] && Upserted(rows, id, data, now)[id][f] == Defaults[f]
  {
    var d := MapStatus(Stamp(id, data, now));
    StampedKeys(id, data, now);
    assert f !in d;
    assert Upserted(rows, id, data, now)[id] == Defaults + d;
  }

  /** The fields an upsert sends: those supplied, plus `paper_id` and `updated_at`. */
  lemma {:induction false} StampedKeys(id: string, data: Row, now: string)
    ensures MapStatus(Stamp(id, data, now)).Keys == data.Keys + {PaperId, UpdatedAt}
  {
  }

  /** Upserts keep the table well formed, whatever fields they supply. */
  lemma {:induction false} UpsertedWellFormed(rows: map<string, Row>, id: string, data: Row, now: string)
    requires WellFormedTable(rows)
    ensures WellFormedTable(Upserted(rows, id, data, now))
  {
    var d := MapStatus(Stamp(id, data, now));
    var t := Upserted(rows, id, data, now);
    if Status in data && data[Status].Text? {
      MapStatusNameIdempotent(data[Status].text);
    }
    if id !in rows {
      DbStatusesAreNarrowed("pending");
      assert WellFormedRow(id, t[id]);
    }
    assert WellFormedRow(id, t[id]);
  }

  // ================================================================ the client

  /** One call of `upsert_translation`, with the fields as the caller gave them and
      the time it was made. */
  datatype Write = Write(id: string, data: Row, now: string)

  /** The status a write asked for, before narrowing. */
  function RequestedStatus(w: Write): Option<string> {
    if Status in w.data && w.data[Status].Text? then Some(w.data[Status].text) else None
  }

  /** The table after a sequence of accepted upserts, applied in order. */
  function Replay(rows: map<string, Row>, writes: seq<Write>): map<string, Row>
    decreases |writes|
  {
    if writes == [] then rows
    else
      var w := writes[|writes| - 1];
      Upserted(Replay(rows, writes[..|writes| - 1]), w.id, w.data, w.now)
  }

  lemma {:induction false} ReplayAppend(rows: map<string, Row>, writes: seq<Write>, more: seq<Write>)
    ensures Replay(rows, writes + more) == Replay(Replay(rows, writes), more)
    decreases |more|
  {
    if more == [] {
      assert writes + more == writes;
    } else {
      var n := |more| - 1;
      assert (writes + more)[..|writes + more| - 1] == writes + more[..n];
      ReplayAppend(rows, writes, more[..n]);
    }
  }

  lemma {:induction false} ReplayOne(rows: map<string, Row>, w: Write)
    ensures Replay(rows, [w]) == Upserted(rows, w.id, w.data, w.now)
  {
    assert [w][..0] == [];
  }

  /** Whether every write of a sequence goes to the row of `id`. */
  predicate ForJob(writes: seq<Write>, id: string) {
    forall k :: 0 <= k < |writes| ==> writes[k].id == id
  }

  /** Writes to one row leave every other row as it was. */
  lemma {:induction false} ReplayOthers(rows: map<string, Row>, writes: seq<Write>, id: string)
    requires ForJob(writes, id)
    ensures var table := Replay(rows, writes);
      forall other :: other in rows && other != id ==> other in table && table[other] == rows[other]
    decreases |writes|
  {
    if writes != [] {
      var w := writes[|writes| - 1];
      ReplayOthers(rows, writes[..|writes| - 1], id);
      UpsertedOthers(Replay(rows, writes[..|writes| - 1]), w.id, w.data, w.now);
    }
  }

  /** The statuses a sequence of writes asked for, in order. */
  function StatusTrail(writes: seq<Write>): seq<string>
  {
    if writes == [] then []
    else
      var last := writes[|writes| - 1];
      StatusTrail(writes[..|writes| - 1]) + (if RequestedStatus(last).Some? then [RequestedStatus(last).value] else [])
  }

  lemma {:induction false} StatusTrailAppend(a: seq<Write>, b: seq<Write>)
    ensures StatusTrail(a + b) == StatusTrail(a) + StatusTrail(b)
    decreases |b|
  {
    if b == [] {
      assert a + b == a;
    } else {
      var n := |b| - 1;
      assert (a + b)[..|a + b| - 1] == a + b[..n];
      assert (a + b)[|a + b| - 1] == b[n];
      StatusTrailAppend(a, b[..n]);
    }
  }

  lemma {:induction false} StatusTrailOne(w: Write)
    ensures StatusTrail([w]) == if RequestedStatus(w).Some? then [RequestedStatus(w).value] else []
  {
    assert [w][..0] == [];
  }

  /** `mark_failed`'s fields: status `failed` and the message cut to 1000 characters. */
  function FailedFields(message: string): (data: Row)
    ensures Status in data && data[Status] == Text("failed")
    ensures ErrorMessage in data && data[ErrorMessage].Text? && |data[ErrorMessage].text| <= 1000
    ensures StartsWith(message, data[ErrorMessage].text)
    ensures |message| <= 1000 ==> data[ErrorMessage] == Text(message)
  {
    map[Status := Text("failed"), ErrorMessage := Text(Truncate(message, 1000))]
  }

  /** `mark_cancelled`'s fields: status `cancelled` and no error message. */
  function CancelledFields(): (data: Row)
    ensures Status in data && data[Status] == Text("cancelled")
    ensures ErrorMessage in data && data[ErrorMessage] == Null
  {
    map[Status := Text("cancelled"), ErrorMessage := Null]
  }

  /** A cancelled job is stored as failed, with its error message cleared. */
  lemma {:induction false} CancelledReadsAsFailed(rows: map<string, Row>, id: string, now: string)
    ensures Upserted(rows, id, CancelledFields(), now)[id][Status] == Text("failed")
    ensures Upserted(rows, id, CancelledFields(), now)[id][ErrorMessage] == Null
  {
    StatusTable();
    UpsertedFields(rows, id, CancelledFields(), now);
  }

  /** A failed job is stored as failed with a message of at most 1000 characters
      that begins the original one. */
  lemma {:induction false} FailedRowMessage(rows: map<string, Row>, id: string, message: string, now: string)
    ensures var row := Upserted(rows, id, FailedFields(message), now)[id];
      && row[Status] == Text("failed")
      && row[ErrorMessage].Text? && |row[ErrorMessage].text| <= 1000
      && StartsWith(message, row[ErrorMessage].text)
  {
    StatusTable();
    UpsertedFields(rows, id, FailedFields(message), now);
  }

  /**
   * The table behind the REST API, as seen by the client. A write whose response is
   * not 2xx is only logged by the client: here `acceptsWrites` false stands for a
   * store that answers every write that way, and such writes leave the rows as
   * they were without raising. `log` records every call in order, with the fields
   * the caller supplied, and the rows are always `initial` with the logged writes
   * replayed over it.
   */
  class RecordStore {
    var rows: map<string, Row>
    ghost var log: seq<Write>
    ghost const initial: map<string, Row>
    const acceptsWrites: bool

    ghost predicate Valid()
      reads this
    {
      && WellFormedTable(rows)
      && rows == if acceptsWrites then Replay(initial, log) else initial
    }

    constructor (acceptsWrites: bool, initial: map<string, Row>)
      requires WellFormedTable(initial)
      ensures rows == initial && log == [] && this.acceptsWrites == acceptsWrites && this.initial == initial
      ensures Valid()
    {
      rows := initial;
      log := [];
      this.initial := initial;
      this.acceptsWrites := acceptsWrites;
    }

    /** `upsert_translation(paper_id, data)`. */
    method Upsert(id: string, data: Row, now: string)
      requires Valid()
      modifies this
      ensures Valid()
      ensures rows == if acceptsWrites then Upserted(old(rows), id, data, now) else old(rows)
      ensures log == old(log) + [Write(id, data, now)]
    {
      var d := Stamp(id, data, now);
      d := MapStatus(d);
      if acceptsWrites {
        UpsertedWellFormed(rows, id, data, now);
        if id in rows {
          rows := rows[id := rows[id] + d];
        } else {
          rows := rows[id := WithDefaults(d)];
        }
      }
      assert (log + [Write(id, data, now)])[..|log|] == log;
      log := log + [Write(id, data, now)];
    }

    /** `get_translation(paper_id)`: the row, or `None` when the read does not
        answer 200 (`readOk` false) or finds no row. */
    function GetTranslation(id: string, readOk: bool): (r: Option<Row>)
      reads this
      requires Valid()
      ensures r.Some? <==> readOk && id in rows
      ensures r.Some? ==> PaperId in r.value && r.value[PaperId] == Text(id) && Status in r.value
      ensures r.Some? && r.value[Status].Text? ==> Narrowed(r.value[Status].text)
    {
      if !readOk || id !in rows then None else Some(rows[id])
    }

    /** `mark_failed(paper_id, error_message)`. */
    method MarkFailed(id: string, message: string, now: string)
      requires Valid()
      modifies this
      ensures Valid()
      ensures rows == if acceptsWrites then Upserted(old(rows), id, FailedFields(message), now) else old(rows)
      ensures log == old(log) + [Write(id, FailedFields(message), now)]
    {
      Upsert(id, FailedFields(message), now);
    }

    /** `mark_cancelled(paper_id)`. */
    method MarkCancelled(id: string, now: string)
      requires Valid()
      modifies this
      ensures Valid()
      ensures rows == if acceptsWrites then Upserted(old(rows), id, CancelledFields(), now) else old(rows)
      ensures log == old(log) + [Write(id, CancelledFields(), now)]
    {
      Upsert(id, CancelledFields(), now);
    }
  }
}
