/**
 * The ingestion handler: it downloads the inventory file named by the first
 * record of an object-store event and upserts one `Inventory` record per CSV
 * row, keyed by (store, item). A row whose fields are missing, whose count is
 * not an integer, or whose write is refused is skipped; the others go on.
 */
module LoadInventory {
  import opened Wrappers
  import opened Numerals

  /** One entry of `event['Records']`: the bucket and the (decoded) object key. */
  datatype ObjectRecord = ObjectRecord(bucket: string, key: string)

  /** A row as the CSV reader yields it: column name to cell text. */
  type Row = map<string, string>

  /** The table key (Store, Item). */
  type Key = (string, string)

  /**
   * A downloaded object as the CSV reader sees it: the rows it yields, and
   * whether it then raises (a decoding or CSV error) instead of ending.
   */
  datatype ObjectContent = ObjectContent(rows: seq<Row>, readError: bool)

  /** The exceptions that escape the handler. */
  datatype IngestFault =
    | NoTriggerRecord                              // IndexError on `event['Records'][0]`
    | DownloadFailed(bucket: string, key: string)  // re-raised download error
    | ReadFailed(bucket: string, key: string)      // error raised by `for row in reader`, outside the per-row try

  /** The object the handler downloads: the first record's bucket and key; the rest are ignored. */
  function TriggerObject(records: seq<ObjectRecord>): (o: Option<(string, string)>)
    ensures o.Some? <==> |records| > 0
    ensures o.Some? ==> o.value == (records[0].bucket, records[0].key)
  {
    if |records| == 0 then None else Some((records[0].bucket, records[0].key))
  }

  /**
   * The item `put_item` is asked to write for a row: `row['store']`,
   * `row['item']` and `int(row['count'])`; `None` stands for the KeyError or
   * ValueError that the per-row `except` catches.
   */
  function RowWrite(row: Row): (w: Option<(Key, int)>)
    ensures w.Some? <==> "store" in row && "item" in row && "count" in row && IsIntLiteral(row["count"])
    ensures w.Some? ==> w.value.0 == (row["store"], row["item"]) && ParseInt(row["count"]) == Some(w.value.1)
  {
    if "store" in row && "item" in row && "count" in row then
      match ParseInt(row["count"])
      case None => None
      case Some(count) => Some(((row["store"], row["item"]), count))
    else None
  }

  /** Row `n` is written: its item is well formed and the record store accepts the write. */
  predicate Writes(rows: seq<Row>, accepts: nat -> bool, n: nat, k: Key)
    requires n < |rows|
  {
    accepts(n) && RowWrite(rows[n]).Some? && RowWrite(rows[n]).value.0 == k
  }

  /**
   * The table after the row loop: each written row overwrites its key, in
   * file order; skipped rows leave the table as it was.
   */
  function Ingest(table: map<Key, int>, rows: seq<Row>, accepts: nat -> bool): (t: map<Key, int>)
    ensures table.Keys <= t.Keys
    decreases |rows|
  {
    if rows == [] then table
    else
      var last := |rows| - 1;
      var before := Ingest(table, rows[..last], accepts);
      if accepts(last) && RowWrite(rows[last]).Some? then
        before[RowWrite(rows[last]).value.0 := RowWrite(rows[last]).value.1]
      else before
  }

  /** The count written last for key `k`, if any row writes it. */
  function LastWrite(rows: seq<Row>, accepts: nat -> bool, k: Key): (c: Option<int>)
    ensures c.None? <==> forall n :: 0 <= n < |rows| ==> !Writes(rows, accepts, n, k)
    decreases |rows|
  {
    if rows == [] then None
    else
      var last := |rows| - 1;
      assert forall n :: 0 <= n < last ==> Writes(rows[..last], accepts, n, k) == Writes(rows, accepts, n, k);
      if Writes(rows, accepts, last, k) then Some(RowWrite(rows[last]).value.1)
      else LastWrite(rows[..last], accepts, k)
  }

  /** Each key of the table after ingestion holds its last written count, or its old value. */
  lemma {:induction false} IngestAt(table: map<Key, int>, rows: seq<Row>, accepts: nat -> bool, k: Key)
    ensures k in Ingest(table, rows, accepts) <==> k in table || LastWrite(rows, accepts, k).Some?
    ensures LastWrite(rows, accepts, k).Some? ==> Ingest(table, rows, accepts)[k] == LastWrite(rows, accepts, k).value
    ensures LastWrite(rows, accepts, k).None? && k in table ==> Ingest(table, rows, accepts)[k] == table[k]
    decreases |rows|
  {
    if rows != [] {
      IngestAt(table, rows[..|rows| - 1], accepts, k);
    }
  }

  /** The last accepted, well-formed row for a key decides its value (last write wins). */
  lemma LastWriteWins(table: map<Key, int>, rows: seq<Row>, accepts: nat -> bool, n: nat)
    requires n < |rows| && accepts(n) && RowWrite(rows[n]).Some?
    requires forall n' :: n < n' < |rows| ==> !Writes(rows, accepts, n', RowWrite(rows[n]).value.0)
    ensures RowWrite(rows[n]).value.0 in Ingest(table, rows, accepts)
    ensures Ingest(table, rows, accepts)[RowWrite(rows[n]).value.0] == RowWrite(rows[n]).value.1
  {
    var k := RowWrite(rows[n]).value.0;
    LastWriteIsLatest(rows, accepts, k, n);
    IngestAt(table, rows, accepts, k);
  }

  lemma {:induction false} LastWriteIsLatest(rows: seq<Row>, accepts: nat -> bool, k: Key, n: nat)
    requires n < |rows| && Writes(rows, accepts, n, k)
    requires forall n' :: n < n' < |rows| ==> !Writes(rows, accepts, n', k)
    ensures LastWrite(rows, accepts, k) == Some(RowWrite(rows[n]).value.1)
    decreases |rows|
  {
    var last := |rows| - 1;
    if n < last {
      assert forall n' :: 0 <= n' < last ==> Writes(rows[..last], accepts, n', k) == Writes(rows, accepts, n', k);
      LastWriteIsLatest(rows[..last], accepts, k, n);
    }
  }

  /** A key that no row writes keeps its presence and its value: nothing else in the table changes. */
  lemma UnwrittenKeysUnchanged(table: map<Key, int>, rows: seq<Row>, accepts: nat -> bool, k: Key)
    requires forall n :: 0 <= n < |rows| ==> !Writes(rows, accepts, n, k)
    ensures k in Ingest(table, rows, accepts) <==> k in table
    ensures k in table ==> Ingest(table, rows, accepts)[k] == table[k]
  {
    IngestAt(table, rows, accepts, k);
  }

  /** Ingesting the same rows a second time, with the same writes accepted, changes nothing. */
  lemma IngestIdempotent(table: map<Key, int>, rows: seq<Row>, accepts: nat -> bool)
    ensures Ingest(Ingest(table, rows, accepts), rows, accepts) == Ingest(table, rows, accepts)
  {
    var once := Ingest(table, rows, accepts);
    var twice := Ingest(once, rows, accepts);
    forall k | true
      ensures k in twice <==> k in once
      ensures k in once ==> twice[k] == once[k]
    {
      IngestAt(table, rows, accepts, k);
      IngestAt(once, rows, accepts, k);
    }
  }

  /** The write outcomes seen by the rows after the first `n`. */
  function Shift(accepts: nat -> bool, n: nat): nat -> bool
  {
    (m: nat) => accepts(m + n)
  }

  /** Ingesting a file is ingesting its first `n` rows, then the rest. */
  lemma {:induction false} IngestSplit(table: map<Key, int>, rows: seq<Row>, accepts: nat -> bool, n: nat)
    requires n <= |rows|
    ensures Ingest(table, rows, accepts) == Ingest(Ingest(table, rows[..n], accepts), rows[n..], Shift(accepts, n))
    decreases |rows|
  {
    if n == |rows| {
      assert rows[..n] == rows;
      assert rows[n..] == [];
    } else {
      var last := |rows| - 1;
      IngestSplit(table, rows[..last], accepts, n);
      assert rows[..last][..n] == rows[..n];
      assert rows[n..][..|rows[n..]| - 1] == rows[..last][n..];
      assert rows[n..][|rows[n..]| - 1] == rows[last];
    }
  }

  /**
   * A row that cannot be written (a missing column, a count that is not an
   * integer, or a refused write) leaves the table as it was, and the rows after
   * it are ingested as usual.
   */
  lemma UnwritableRowIsContained(table: map<Key, int>, rows: seq<Row>, accepts: nat -> bool, n: nat)
    requires n < |rows| && (RowWrite(rows[n]).None? || !accepts(n))
    ensures Ingest(table, rows[..n + 1], accepts) == Ingest(table, rows[..n], accepts)
    ensures Ingest(table, rows, accepts)
            == Ingest(Ingest(table, rows[..n], accepts), rows[n + 1..], Shift(accepts, n + 1))
  {
    assert rows[..n + 1][..n] == rows[..n];
    IngestSplit(table, rows, accepts, n + 1);
  }

  /** A file with rows (A, Widget, 5) and (B, Gadget, 0), both written, adds two records. */
  lemma IngestExample()
    ensures
      var rows := [map["store" := "A", "item" := "Widget", "count" := "5"],
                   map["store" := "B", "item" := "Gadget", "count" := "0"]];
      Ingest(map[], rows, (n: nat) => true) == map[("A", "Widget") := 5, ("B", "Gadget") := 0]
  {
    var rows := [map["store" := "A", "item" := "Widget", "count" := "5"],
                 map["store" := "B", "item" := "Gadget", "count" := "0"]];
    assert rows[..1][..0] == [];
    assert rows[..2] == rows;
    assert ParseInt("5") == Some(5) by { assert AllDigits("5"); assert DigitsValue("5") == 5 by { assert "5"[..0] == []; } }
    assert ParseInt("0") == Some(0) by { assert AllDigits("0"); assert DigitsValue("0") == 0 by { assert "0"[..0] == []; } }
    assert RowWrite(rows[0]) == Some((("A", "Widget"), 5));
    assert RowWrite(rows[1]) == Some((("B", "Gadget"), 0));
    assert Ingest(map[], rows[..1], (n: nat) => true) == map[("A", "Widget") := 5];
  }

  /** `f"{rowCount} records processed successfully"` */
  function RowsReport(n: nat): (r: string)
    ensures |r| == |Show(n)| + 31
    ensures r[|r| - 31..] == " records processed successfully"
    ensures ParseInt(r[..|r| - 31]) == Some(n)
  {
    ParseShowRoundTrip(n);
    var r := Show(n) + " records processed successfully";
    assert r[..|r| - 31] == Show(n);
    r
  }

  /** The `Inventory` table. */
  class InventoryTable {
    var items: map<Key, int>

    constructor (items: map<Key, int>)
      ensures this.items == items
    {
      this.items := items;
    }

    /** `put_item`: an unconditional overwrite of the key when the store accepts the write. */
    method PutItem(key: Key, count: int, accepted: bool) returns (ok: bool)
      modifies this
      ensures ok == accepted
      ensures items == if accepted then old(items)[key := count] else old(items)
    {
      ok := accepted;
      if accepted {
        items := items[key := count];
      }
    }
  }

  /**
   * `lambda_handler`. `objects` is the object store, holding each object as
   * what the CSV reader makes of its text; an absent object is a failed
   * download. `accepts(n)` is the record store's answer to the write of row `n`.
   */
  method HandleUpload(records: seq<ObjectRecord>, objects: map<(string, string), ObjectContent>,
                      accepts: nat -> bool, table: InventoryTable)
    returns (r: Result<string, IngestFault>)
    modifies table
    ensures TriggerObject(records).None? ==>
              r == Failure(NoTriggerRecord) && table.items == old(table.items)
    ensures TriggerObject(records).Some? && TriggerObject(records).value !in objects ==>
              r == Failure(DownloadFailed(records[0].bucket, records[0].key)) && table.items == old(table.items)
    ensures TriggerObject(records).Some? && TriggerObject(records).value in objects ==>
              var content := objects[TriggerObject(records).value];
              && table.items == Ingest(old(table.items), content.rows, accepts)
              && r == if content.readError then Failure(ReadFailed(records[0].bucket, records[0].key))
                      else Success(RowsReport(|content.rows|))
  {
    if |records| == 0 {
      return Failure(NoTriggerRecord);
    }
    var bucket := records[0].bucket;
    var key := records[0].key;
    if (bucket, key) !in objects {
      return Failure(DownloadFailed(bucket, key));
    }
    var content := objects[(bucket, key)];
    var rows := content.rows;
    var rowCount := 0;
    for n := 0 to |rows|
      invariant rowCount == n
      invariant table.items == Ingest(old(table.items), rows[..n], accepts)
    {
      rowCount := rowCount + 1;
      assert rows[..n + 1][..n] == rows[..n];
      var write := RowWrite(rows[n]);
      if write.Some? {
        var _ := table.PutItem(write.value.0, write.value.1, accepts(n));
      }
    }
    assert rows[..|rows|] == rows;
    if content.readError {
      return Failure(ReadFailed(bucket, key));
    }
    return Success(RowsReport(rowCount));
  }
}
