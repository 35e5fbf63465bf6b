# Inventory handlers: a Dafny model

This project models the two handlers of a serverless inventory system.

- **Ingestion handler** (`lambda-functions/load-inventory/lambda_function.py`). It takes the bucket and key from the first record of an object-store event and downloads that inventory CSV file. It then upserts one `Inventory` record per row, keyed by (store, item). Every row adds one to `rowCount`. The handler returns `"<rowCount> records processed successfully"`.
- **Stock-alert handler** (`lambda-functions/check-stock/lambda_function.py`). It walks a batch of record-store stream records in order. It publishes `"<store> is out of stock of <item>"` with subject `"Inventory Alert!"` for every record whose new image has a count of 0. The alert goes to the first topic whose lower-cased ARN ends with `:nostock`. The first exception ends the batch. On success the handler returns `"Successfully processed <N> records."`, where N is the size of the batch.

`lambda-functions/load-inventory/lambda-functions/check-stock/lambda_function.py` is a byte-for-byte copy of the stock-alert handler. The module `CheckStock` models both files. The table below cites each of the two paths for some of its members; the cited lines are the same in both files.

The external services are replaced by plain state:

- The notification service is the class `CheckStock.NotificationService`. Its `topics` field is the answer of `list_topics`. Its `published` field is the log of `publish` calls.
- The `Inventory` table is the class `LoadInventory.InventoryTable`, holding a map from (store, item) to count. Whether the record store accepts the write for row `n` is an input, `accepts(n)`.
- The object store is a map from (bucket, key) to what the CSV reader makes of the object: the rows it yields, and whether it then raises. An absent entry is a failed download.

Each handler's loop is a method whose postcondition ties the new state and the result to a specification function: `Dispatch` for the stock-alert handler, `Ingest` for the ingestion handler. The lemmas state the handlers' properties about those functions.

Files:

- `wrappers.dfy`: `Option` and `Result`.
- `numerals.dfy`: `int()` on count text and the decimal rendering of counts in the reports.
- `check_stock.dfy`: the stock-alert handler.
- `load_inventory.dfy`: the ingestion handler.

Facts about the code that the model keeps:

- `int()` accepts negative numerals, so the ingestion handler writes negative counts, and so does the model.
- In `lambda-functions/load-inventory/lambda_function.py`, `int(row['count'])` (line 34) is evaluated inside the `try` that starts on line 29, as are `row['store']` and `row['item']`. A malformed row is therefore skipped like a refused write (`UnwritableRowIsContained`).
- The docstring of the stock-alert handler (`lambda-functions/check-stock/lambda_function.py:10`) says it notifies "when stock is zero". The code tests `int(...) == 0`, so the counts `"0"`, `"-0"`, `"+0"` and `"00"` all publish. A count such as `"0.0"` raises and aborts the batch.
- `for row in reader` (line 27) lies outside the per-row `try`. A read error after some rows leaves those rows' writes in place and escapes the handler, with no report.

## Model

| member | source | states |
|---|---|---|
| Numerals.ParseInt | lambda-functions/check-stock/lambda_function.py:19 | `int(text)` succeeds exactly on an optionally signed run of decimal digits; a `-` sign gives a value at most 0 and no sign or `+` gives a value at least 0 |
| Numerals.Show | lambda-functions/check-stock/lambda_function.py:43 | the decimal rendering of a count is a non-empty digit string with no leading zero |
| Numerals.ShowValue | lambda-functions/load-inventory/lambda_function.py:40 | the digits of the rendering denote the count rendered |
| Numerals.ParseShowRoundTrip | lambda-functions/load-inventory/lambda_function.py:34 | `int()` of a rendered count, with or without a leading `-`, gives back that count or its negation |
| CheckStock.AlertTopics | lambda-functions/check-stock/lambda_function.py:33-34 | the comprehension keeps exactly the topics of the list whose lower-cased ARN ends with `:nostock`: every kept topic matches and is in the list, and every matching topic is kept |
| CheckStock.SelectTopicIsFirstMatch | lambda-functions/check-stock/lambda_function.py:32-34 | `[...][0]` picks the first topic in list order whose lower-cased ARN ends with `:nostock` |
| CheckStock.SelectTopicFailsIffNoMatch | lambda-functions/load-inventory/lambda-functions/check-stock/lambda_function.py:32-34 | selection fails (IndexError) exactly when no topic matches, in both directions |
| CheckStock.AlertMessage | lambda-functions/load-inventory/lambda-functions/check-stock/lambda_function.py:27 | the message starts with the store, ends with the item, and has `" is out of stock of "` between them |
| CheckStock.ProcessRecord | lambda-functions/check-stock/lambda_function.py:16-41 | a record is skipped silently exactly when its new image is missing or empty or its count converts to a non-zero value; it publishes only when it is out of stock, and exactly when in addition Store and Item are string-typed and a topic matches; the publish carries the first matching ARN, the store/item message, subject `"Inventory Alert!"` and structure `"raw"`; otherwise it raises, in source order, KeyError `'Count'` or `'N'`, the ValueError on the count text, KeyError `'Store'`, `'Item'` or `'S'`, or the IndexError of an empty topic match |
| CheckStock.Dispatch | lambda-functions/check-stock/lambda_function.py:15-41 | the loop over the batch never publishes more alerts than there are records |
| CheckStock.SendIndices | lambda-functions/check-stock/lambda_function.py:15-22 | the positions of publishing records are strictly increasing, lie in the batch, and hold exactly the records whose step publishes |
| CheckStock.DispatchCompletesIffNoAbort | lambda-functions/check-stock/lambda_function.py:15-34 | the batch completes without an exception exactly when no record raises |
| CheckStock.DispatchAfterFault | lambda-functions/check-stock/lambda_function.py:15 | once a prefix of the batch has raised, the later records change neither the log nor the exception |
| CheckStock.PublishedOnlyGrows | lambda-functions/check-stock/lambda_function.py:36-41 | the publishes of any prefix of the batch stay, in order, at the head of the final log |
| CheckStock.StopsAtFirstAbort | lambda-functions/check-stock/lambda_function.py:19-34 | at the first record that raises (bad count, missing Store/Item, no topic), the handler raises that exception; the log holds exactly the publishes of the records before it |
| CheckStock.PublishedInBatchOrder | lambda-functions/check-stock/lambda_function.py:15-41 | on a completed batch the log has one entry per publishing record, and entry m is the alert of the m-th publishing record in batch order |
| CheckStock.CompletedBatchPublishesIffOutOfStock | lambda-functions/load-inventory/lambda-functions/check-stock/lambda_function.py:15-22 | on a completed batch a record publishes if and only if its new image is present, non-empty and its count converts to 0 |
| CheckStock.SelectTopicExample | lambda-functions/check-stock/lambda_function.py:32-34 | of the topics `arn:sns:Other` and `arn:sns:NoStock`, the second is selected |
| CheckStock.AlertMessageExample | lambda-functions/check-stock/lambda_function.py:27 | the alert for store A and item Widget reads `"A is out of stock of Widget"` |
| CheckStock.OutOfStockRecordExample | lambda-functions/check-stock/lambda_function.py:16-41 | a record with Store A, Item Widget and Count `"0"` is sent to the `NoStock` topic with the store/item message, subject `"Inventory Alert!"` and structure `"raw"` |
| CheckStock.OutOfStockExample | lambda-functions/load-inventory/lambda-functions/check-stock/lambda_function.py:15-41 | a batch of that one record publishes exactly that one alert and completes |
| CheckStock.InStockExample | lambda-functions/load-inventory/lambda-functions/check-stock/lambda_function.py:18-22 | the same record with Count `"3"` publishes nothing and completes, even when no topic matches |
| CheckStock.ProcessedReport | lambda-functions/load-inventory/lambda-functions/check-stock/lambda_function.py:43 | the return value is `"Successfully processed "`, a numeral, `" records."`, and the numeral converts back to the number given |
| CheckStock.NotificationService.constructor | lambda-functions/check-stock/lambda_function.py:31 | a fresh client sees the given topics and has published nothing |
| CheckStock.NotificationService.Publish | lambda-functions/check-stock/lambda_function.py:36-41 | a publish appends exactly one entry to the log |
| CheckStock.HandleStreamBatch | lambda-functions/check-stock/lambda_function.py:7-43 | the log gains exactly the publishes of `Dispatch` over the batch; the handler returns the report on the size of the whole batch when no record raises, and otherwise raises the first exception |
| LoadInventory.TriggerObject | lambda-functions/load-inventory/lambda_function.py:13-14 | the object to download is the first record's bucket and key, and exists exactly when the event has a record |
| LoadInventory.RowWrite | lambda-functions/load-inventory/lambda_function.py:30-36 | a row yields an item exactly when it has store, item and count and the count is an integer literal; the item is keyed by (store, item) and carries `int(count)` |
| LoadInventory.Ingest | lambda-functions/load-inventory/lambda_function.py:27-38 | the row loop never removes a key from the table |
| LoadInventory.LastWrite | lambda-functions/load-inventory/lambda_function.py:27-36 | there is no last write for a key exactly when no row writes that key |
| LoadInventory.IngestAt | lambda-functions/load-inventory/lambda_function.py:27-38 | after the loop a key is present exactly when it was present or some row wrote it, and it holds its last written count, or its old value when no row wrote it |
| LoadInventory.LastWriteWins | lambda-functions/load-inventory/lambda_function.py:30-36 | the last accepted, well-formed row for a key decides that key's count |
| LoadInventory.UnwrittenKeysUnchanged | lambda-functions/load-inventory/lambda_function.py:30-36 | a key that no row writes keeps its presence and its value |
| LoadInventory.IngestIdempotent | lambda-functions/load-inventory/lambda_function.py:30-36 | ingesting the same rows again, with the same writes accepted, leaves the table as the first ingestion left it |
| LoadInventory.IngestSplit | lambda-functions/load-inventory/lambda_function.py:27 | ingesting a file is ingesting its first n rows and then the rest |
| LoadInventory.UnwritableRowIsContained | lambda-functions/load-inventory/lambda_function.py:29-38 | a row with a missing column, a non-integer count or a refused write leaves the table unchanged, and the rows after it are ingested as usual |
| LoadInventory.IngestExample | lambda-functions/load-inventory/lambda_function.py:27-36 | rows (A, Widget, 5) and (B, Gadget, 0), both written, turn an empty table into exactly those two records |
| LoadInventory.RowsReport | lambda-functions/load-inventory/lambda_function.py:40 | the return value is a numeral followed by `" records processed successfully"`, and the numeral converts back to the count given |
| LoadInventory.InventoryTable.constructor | lambda-functions/load-inventory/lambda_function.py:8 | the table handle starts with the given contents |
| LoadInventory.InventoryTable.PutItem | lambda-functions/load-inventory/lambda_function.py:30-36 | an accepted write overwrites the key with the count (an upsert); a refused one changes nothing |
| LoadInventory.HandleUpload | lambda-functions/load-inventory/lambda_function.py:10-40 | with no event record the handler raises and writes nothing; when the download fails it raises and writes nothing; otherwise the table becomes `Ingest` of the rows the reader yields, and the handler then raises the reader's error if it had one, or reports the number of rows read, written or not |

## Left out

- The boto3 clients and their network calls (`download_file`, `put_item`, `list_topics`, `publish`) are foreign I/O. They are replaced by the object-store map, the `accepts` outcome of each write, the topic list and the publish log.
- The stock-alert handler creates a client and calls `list_topics` again for every out-of-stock record (lines 31-33). The model reads one fixed topic list for the whole batch, so it does not capture a topic list that changes during the batch.
- A failing `boto3.client`, `list_topics` or `publish` call aborts the batch in the source. In the model these calls always succeed.
- `list_topics` pages its answer (a `NextToken` after each page). The handler reads only the first page; the model takes `topics` to be that page.
- Why the record store refuses a write (validation, throttling, access) is not modelled; only the outcome is, through `accepts`.
- `csv.DictReader` parsing and the `/tmp/inventory.txt` file are not modelled. The object store holds each file as the rows the reader yields, plus whether the reader then raises.
- `urllib.parse.unquote_plus` is not modelled; an event record carries the key already decoded.
- An object-store event whose first record lacks `s3`, `bucket`, `name`, `object` or `key` raises a KeyError at lines 13-14. The model's event records always carry a bucket and a key.
- A stream record without a `dynamodb` entry, or a new image that is truthy but not a map, is not modelled.
- Numerals.ParseInt: covers an optional sign and ASCII digits only; Python's `int()` also accepts surrounding whitespace, underscores between digits and non-ASCII digits.
- CheckStock.Lower: lowers ASCII letters only; Python's `str.lower()` also lowers non-ASCII letters.
- Logging (`print`, `json.dumps` of the event) is not modelled.
- Retries, timeouts and redelivery belong to the hosting environment and are not modelled.
