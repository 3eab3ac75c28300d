/** Backup export and import over the local transaction table
    (src/lib/db.ts). The table is a map from id to stored record; JSON
    parsing and schema validation are external and reach the import as an
    already-classified input. */
module Db {
  import opened Results

  /** A stored transaction as the backup carries it. Amounts and the rate
      are the stored JavaScript numbers; import and export only move them. */
  datatype TransactionRecord = TransactionRecord(
    id: string,
    date: string,
    sourceAmount: real,
    targetAmount: real,
    exchangeRate: real,
    note: Option<string>,
    createdAt: int)

  /** The backup document `{version, timestamp, transactions}`. */
  datatype Backup = Backup(version: int, timestamp: string, transactions: seq<TransactionRecord>)

  /** What `JSON.parse` and the backup schema made of the imported text. */
  datatype ImportInput =
    | InvalidJson
    | InvalidSchema(detail: string)
    | ValidBackup(backup: Backup)

  datatype ImportReport = ImportReport(added: nat, updated: nat, errors: seq<string>)

  const InvalidJsonMessage: string := "Invalid JSON format"

  function InvalidSchemaMessage(detail: string): string {
    "Invalid backup format: " + detail
  }

  /** The table keys each record under its own id. */
  ghost predicate KeyedById(table: map<string, TransactionRecord>) {
    forall id :: id in table ==> table[id].id == id
  }

  /** The ids a sequence of records carries. */
  function Ids(records: seq<TransactionRecord>): set<string> {
    if records == [] then {} else Ids(records[..|records| - 1]) + {records[|records| - 1].id}
  }

  lemma IdsAppend(records: seq<TransactionRecord>, r: TransactionRecord)
    ensures Ids(records + [r]) == Ids(records) + {r.id}
  {
    assert (records + [r])[..|records|] == records;
  }

  // -------------------------------------------------- the upsert, specified

  /** The table after putting each record, in order, under its id. */
  function Upserted(table: map<string, TransactionRecord>, records: seq<TransactionRecord>): map<string, TransactionRecord>
  {
    if records == [] then table
    else
      var last := records[|records| - 1];
      Upserted(table, records[..|records| - 1])[last.id := last]
  }

  /** Records that are inserts: the id is neither in the table nor carried
      by an earlier record of the backup. */
  function AddedCount(table: map<string, TransactionRecord>, records: seq<TransactionRecord>): nat
  {
    if records == [] then 0
    else
      var init, last := records[..|records| - 1], records[|records| - 1];
      AddedCount(table, init) + if last.id in table || last.id in Ids(init) then 0 else 1
  }

  /** Records that are updates: the id is in the table or carried by an
      earlier record of the backup. */
  function UpdatedCount(table: map<string, TransactionRecord>, records: seq<TransactionRecord>): nat
  {
    if records == [] then 0
    else
      var init, last := records[..|records| - 1], records[|records| - 1];
      UpdatedCount(table, init) + if last.id in table || last.id in Ids(init) then 1 else 0
  }

  /** After the upsert the table holds its old ids and the backup's ids. */
  lemma {:induction false} UpsertedKeys(table: map<string, TransactionRecord>, records: seq<TransactionRecord>)
    ensures Upserted(table, records).Keys == table.Keys + Ids(records)
  {
    if records != [] {
      var init, last := records[..|records| - 1], records[|records| - 1];
      UpsertedKeys(table, init);
    }
  }

  /** Each backup id ends up mapped to the last record carrying it. */
  lemma {:induction false} UpsertedLastWins(table: map<string, TransactionRecord>, records: seq<TransactionRecord>, k: nat)
    requires k < |records|
    requires forall j :: k < j < |records| ==> records[j].id != records[k].id
    ensures records[k].id in Upserted(table, records)
    ensures Upserted(table, records)[records[k].id] == records[k]
  {
    var n := |records|;
    if k < n - 1 {
      var init := records[..n - 1];
      assert forall j :: k < j < |init| ==> init[j] == records[j];
      UpsertedLastWins(table, init, k);
      assert init[k] == records[k];
    }
  }

  /** Entries whose ids the backup does not carry are untouched. */
  lemma {:induction false} UpsertedKeepsOthers(table: map<string, TransactionRecord>, records: seq<TransactionRecord>, id: string)
    requires id !in Ids(records)
    ensures id in Upserted(table, records) <==> id in table
    ensures id in table ==> Upserted(table, records)[id] == table[id]
  {
    if records != [] {
      var init, last := records[..|records| - 1], records[|records| - 1];
      UpsertedKeepsOthers(table, init, id);
    }
  }

  /** Every record is counted once, as an insert or as an update. */
  lemma {:induction false} CountsCoverBackup(table: map<string, TransactionRecord>, records: seq<TransactionRecord>)
    ensures AddedCount(table, records) + UpdatedCount(table, records) == |records|
  {
    if records != [] {
      CountsCoverBackup(table, records[..|records| - 1]);
    }
  }

  /** The inserts are exactly the distinct backup ids the table did not
      hold before. */
  lemma {:induction false} AddedAreNewIds(table: map<string, TransactionRecord>, records: seq<TransactionRecord>)
    ensures AddedCount(table, records) == |Ids(records) - table.Keys|
  {
    if records != [] {
      var init, last := records[..|records| - 1], records[|records| - 1];
      AddedAreNewIds(table, init);
      var before, after := Ids(init) - table.Keys, Ids(records) - table.Keys;
      if last.id in table.Keys || last.id in Ids(init) {
        assert after == before;
      } else {
        assert after == before + {last.id};
      }
    }
  }

  /** The records of a table, each once, each under its own id. */
  ghost predicate IsSnapshot(records: seq<TransactionRecord>, table: map<string, TransactionRecord>) {
    && (forall i :: 0 <= i < |records| ==> records[i].id in table && table[records[i].id] == records[i])
    && (forall i, j :: 0 <= i < j < |records| ==> records[i].id != records[j].id)
    && Ids(records) == table.Keys
  }

  /** Re-importing a snapshot of the table changes nothing and counts every
      record as an update. */
  lemma {:induction false} ReimportSnapshot(table: map<string, TransactionRecord>, records: seq<TransactionRecord>)
    requires forall i :: 0 <= i < |records| ==> records[i].id in table && table[records[i].id] == records[i]
    ensures Upserted(table, records) == table
    ensures AddedCount(table, records) == 0
    ensures UpdatedCount(table, records) == |records|
  {
    if records != [] {
      var init := records[..|records| - 1];
      assert forall i :: 0 <= i < |init| ==> init[i] == records[i];
      ReimportSnapshot(table, init);
    }
  }

  // ----------------------------------------------------------- the table

  /** The `transactions` table. */
  class TransactionTable {
    var rows: map<string, TransactionRecord>

    ghost predicate Valid()
      reads this
    {
      KeyedById(rows)
    }

    constructor ()
      ensures Valid() && rows == map[]
    {
      rows := map[];
    }

    /** `exportDatabase`: a version-1 backup holding every stored record
        once. The timestamp comes from the clock and is a parameter; the
        JSON text is not modelled. */
    method ExportDatabase(timestamp: string) returns (backup: Backup)
      requires Valid()
      ensures backup.version == 1 && backup.timestamp == timestamp
      ensures IsSnapshot(backup.transactions, rows)
      ensures |backup.transactions| == |rows|
    {
      var remaining := rows.Keys;
      var out: seq<TransactionRecord> := [];
      while remaining != {}
        invariant remaining <= rows.Keys
        invariant |out| + |remaining| == |rows|
        invariant forall i :: 0 <= i < |out| ==> out[i].id in rows && rows[out[i].id] == out[i] && out[i].id !in remaining
        invariant forall i, j :: 0 <= i < j < |out| ==> out[i].id != out[j].id
        invariant Ids(out) + remaining == rows.Keys
        decreases remaining
      {
        var id :| id in remaining;
        IdsAppend(out, rows[id]);
        out := out + [rows[id]];
        remaining := remaining - {id};
      }
      backup := Backup(1, timestamp, out);
    }

    /** `importDatabase`: unparsable or schema-invalid input reports one
        error and leaves the table alone; a valid backup is upserted record
        by record, counting inserts and updates. */
    method ImportDatabase(input: ImportInput) returns (report: ImportReport)
      requires Valid()
      modifies this
      ensures Valid()
      ensures input.InvalidJson? ==>
        report == ImportReport(0, 0, [InvalidJsonMessage]) && rows == old(rows)
      ensures input.InvalidSchema? ==>
        report == ImportReport(0, 0, [InvalidSchemaMessage(input.detail)]) && rows == old(rows)
      ensures input.ValidBackup? ==>
        var records := input.backup.transactions;
        && rows == Upserted(old(rows), records)
        && report == ImportReport(AddedCount(old(rows), records), UpdatedCount(old(rows), records), [])
    {
      match input
      case InvalidJson =>
        return ImportReport(0, 0, [InvalidJsonMessage]);
      case InvalidSchema(detail) =>
        return ImportReport(0, 0, [InvalidSchemaMessage(detail)]);
      case ValidBackup(backup) =>
        var records := backup.transactions;
        var added, updated := 0, 0;
        var errors: seq<string> := [];
        var i := 0;
        while i < |records|
          invariant 0 <= i <= |records|
          invariant Valid()
          invariant rows == Upserted(old(rows), records[..i])
          invariant added == AddedCount(old(rows), records[..i])
          invariant updated == UpdatedCount(old(rows), records[..i])
        {
          var record := records[i];
          assert records[..i + 1][..i] == records[..i];
          UpsertedKeys(old(rows), records[..i]);
          var existing := record.id in rows;
          if existing {
            rows := rows[record.id := record];
            updated := updated + 1;
          } else {
            rows := rows[record.id := record];
            added := added + 1;
          }
          i := i + 1;
        }
        assert records[..i] == records;
        report := ImportReport(added, updated, errors);
    }
  }

  /** Exporting and importing the result back leaves the table as it was
      and reports every record as an update. */
  method ExportThenImport(table: TransactionTable, timestamp: string) returns (report: ImportReport)
    requires table.Valid()
    modifies table
    ensures table.Valid() && table.rows == old(table.rows)
    ensures report == ImportReport(0, |old(table.rows)|, [])
  {
    var backup := table.ExportDatabase(timestamp);
    ReimportSnapshot(table.rows, backup.transactions);
    CountsCoverBackup(table.rows, backup.transactions);
    report := table.ImportDatabase(ValidBackup(backup));
  }
}
