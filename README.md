# Transaction file ingest, modelled in Dafny

This project models `ingest_file` from `src/main.py`. It runs once for each
newline-delimited JSON file uploaded to a bucket, and does the following:

1. It trims the whole text and splits it on `'\n'`.
2. It skips lines that are empty or whitespace only.
3. It parses each remaining line with `json.loads` and validates it against
   the constant `TRANSACTION_SCHEMA`.
4. A valid line is stamped with `_ingestion_timestamp` and collected for
   BigQuery.
5. Any other line becomes a dead-letter message `{file, raw_data, error,
   timestamp}`, which is published to a Pub/Sub topic.
6. After the loop, the collected rows go to the table in one bulk insert.
   The insert is made only when at least one row was collected.

The model has six modules, one file each:

- `json.dfy` (`Json`) covers the values `json.loads` produces. An object is an
  ordered member list, like the Python dict it becomes. `Lookup` is
  `key in d` together with `d.get(key)`.
  `Put` is `d[k] = v`: an existing key keeps its place and a new key goes
  last.
- `text.dfy` (`Text`) covers Python's `str.strip()` and `str.split('\n')`.
  Whitespace is the `str.isspace` set. `Join` and `Glue` are there to state
  how splitting behaves.
- `json_schema.dfy` (`JsonSchema`) is the part of JSON Schema that the
  constant schema uses:
  - `type` (a boolean is not a number);
  - `properties` and `required`, which only apply to objects;
  - `format`, which is an annotation only, because `validate` is called
    without a format checker.

  `TransactionSchema` is `TRANSACTION_SCHEMA` written out as data.
  `IsTransaction` is an independent statement of what the schema should
  accept.
- `pipeline.dfy` (`Pipeline`) states, as functions, what a run decides for
  each line:
  - `Lines` gives the lines of the file;
  - `Pending` gives the lines that are not skipped;
  - `Check` gives parse-then-validate;
  - `Enrich` gives the stamping;
  - `Route` gives where one line goes;
  - `Outcomes` gives where every line goes;
  - `Accepted` gives `rows_to_insert`, and `Rejected` gives the published
    messages.
- `ingest.dfy` (`Ingest`) is the loop itself, as imperative code.
  - `Sinks` is a class. Its two fields log every call made to the publisher
    and to the BigQuery client.
  - `IngestFile` walks over the lines and mutates the sinks. Its
    postcondition says the result equals the functions above.
- `scenarios.dfy` (`Scenarios`) covers four small whole-file runs:
  - one valid line;
  - one line that is not JSON;
  - one object without `created_at`;
  - two valid lines around one invalid line.

`json.loads` is the parameter `parse: string -> Option<JsonValue>`, where
`None` stands for a `JSONDecodeError`. Like `json.loads`, which keeps the
last value of a repeated key, `parse` is taken to return objects whose keys
are distinct, so looking a key up finds its only member. The UTC clock is the parameter
`clock: nat -> string`. Each non-blank line reads the clock exactly once:
at line 62 when it is accepted, or at line 71 when it is rejected. So the
`i`-th non-blank line of a run is stamped with `clock(i)`.

The `error` field of a dead-letter message is a `Reason`. It is either
`DecodeError`, or `ValidationError` carrying a `Violation`. A violation is
a failed keyword and the path of object keys that leads to the failing
value.

A line that parses to JSON that is not an object (an array, a string, a
number) is rejected by validation: the `type` keyword fails. It is not
rejected by the parser. `json.loads` accepts any JSON value, and only
`validate` checks for an object.

## Model

| member | source | states |
|---|---|---|
| Json.Put | src/main.py:62 | After `d[k] = v` the record holds the member `k: v`, and it has at most one member more than before. |
| Json.LookupFinds | src/main.py:62 | A key is found in a record exactly when some member has that key, and the value found is that member's value. |
| Json.PutLookup | src/main.py:62 | After `record[key] = v`, the key reads back `v`, and every other key reads as it did before. |
| Json.PutKeys | src/main.py:62 | Assignment keeps the key order: an existing key keeps its position, and a new key is appended last. |
| Json.PutNewKeyAppends | src/main.py:62 | Assigning a key the record does not have appends exactly one member and changes no other member. |
| Json.PutKeepsDistinctKeys | src/main.py:62 | Assignment never duplicates a key, so the record stays a dict. |
| Text.BlankIffAllSpace | src/main.py:53 | `line.strip()` is empty exactly when every character of the line is whitespace. |
| Text.Strip | src/main.py:50-53 | What `strip()` returns neither starts nor ends with whitespace. |
| Text.StripParts | src/main.py:50 | `content.strip()` removes all the whitespace at the two ends and nothing else: content == w1 + strip(content) + w2, where w1 and w2 are whitespace, and the result neither starts nor ends with whitespace. |
| Text.Split | src/main.py:50 | `split('\n')` always gives at least one piece, even for the empty text. |
| Text.StripIgnoresSurroundingSpace | src/main.py:50 | Adding whitespace around a text does not change what `strip()` returns. |
| Text.SplitPiecesHaveNoNewline | src/main.py:50 | No piece produced by `split('\n')` contains a newline. |
| Text.JoinSplit | src/main.py:50 | Joining the pieces of `split('\n')` back with newlines gives the original text, so splitting loses no character. |
| Text.SplitJoin | src/main.py:50 | Splitting pieces that were joined with newlines, none of which contains a newline, gives back exactly those pieces. |
| Text.SplitNoNewline | src/main.py:50 | A text with no newline splits into itself alone. |
| Text.SplitAppend | src/main.py:50 | Splitting a concatenation gives the two splits, with the last piece of the first glued to the first piece of the second. |
| Text.SplitAllSpace | src/main.py:50 | Every piece of a whitespace-only text is whitespace only. |
| JsonSchema.Errors | src/main.py:17-26 | A value of the wrong JSON type reports the `type` violation first, at the root. A value that is not an object is accepted exactly when it has the schema's type, if any. |
| JsonSchema.ErrorsAreGenuine | src/main.py:17-26 | Every violation the validator reports names a value that exists in the instance and really breaks the reported keyword. |
| JsonSchema.RequiredErrorsEmpty | src/main.py:25 | `required` reports nothing exactly when every listed key is present. |
| JsonSchema.PropertyErrorsEmpty | src/main.py:19-24 | `properties` reports nothing exactly when each listed member is absent or valid against its sub-schema. |
| JsonSchema.FormatIsAnnotation | src/main.py:21 | Changing `format` changes neither the verdict nor the violations, so `created_at` only has to be a string. |
| JsonSchema.NonObjectFailsTypeOnly | src/main.py:18 | A value that is not an object fails `type: object` and no other keyword. |
| JsonSchema.OfTypeValid | src/main.py:20-23 | A one-keyword `type` schema accepts exactly the values of that JSON type; a boolean is not a number. |
| JsonSchema.TransactionSchemaAcceptsExactlyTransactions | src/main.py:17-26 | The schema accepts a value if and only if it is an object with string `transaction_id`, string `created_at`, numeric `amount`, and `customer_id` absent or a string; other keys are ignored. |
| JsonSchema.TransactionRequired | src/main.py:25 | The `required` list is met exactly when `transaction_id`, `created_at` and `amount` are all present. |
| JsonSchema.TransactionProperties | src/main.py:19-24 | The `properties` map is met exactly when each of the four listed members is absent or of its listed type. |
| Pipeline.Lines | src/main.py:50 | The file always gives at least one line, and no line contains a newline. |
| Pipeline.Pending | src/main.py:52-53 | Skipping blank lines never adds a line; `PendingIsTheNonBlankLines` states which lines are kept. |
| Pipeline.PendingIsTheNonBlankLines | src/main.py:52-53 | The lines processed are exactly the non-blank lines of the file, in file order: the k-th processed line is the line at the k-th ascending position, no blank line is processed, and every non-blank line is. |
| Pipeline.PendingMembers | src/main.py:53 | A line is processed if and only if it is a non-blank line of the file. |
| Pipeline.Check | src/main.py:55-65 | A decode error is reported exactly when the line does not parse. A line passes exactly when it parses to a value the schema accepts. A validation error carries one of the violations the validator finds. |
| Pipeline.CheckAcceptsExactlyTransactions | src/main.py:55-65 | A line passes if and only if it parses to a transaction, and the record that passes is the parsed object. A decode error is reported if and only if the line does not parse. A validation error names a genuine violation. |
| Pipeline.Enrich | src/main.py:62 | After stamping, `_ingestion_timestamp` holds the clock reading, overwriting any value from the line. Every other key keeps its value and its position. |
| Pipeline.EnrichKeepsTransaction | src/main.py:59-63 | A stamped transaction is still a transaction, so every row sent to the table satisfies the schema. |
| Pipeline.Route | src/main.py:55-74 | A line becomes a row exactly when it passes the check, and the row carries the clock reading under `_ingestion_timestamp`. A rejection carries the file name, the line verbatim and the clock reading. |
| Pipeline.Outcomes | src/main.py:52-74 | There is exactly one outcome per non-blank line. |
| Pipeline.PendingAppend | src/main.py:52-53 | Skipping blank lines distributes over concatenation of line lists. |
| Pipeline.PendingOfBlankLines | src/main.py:53 | Lines that are whitespace only contribute no line to process. |
| Pipeline.BlankLineProducesNothing | src/main.py:52-53 | A blank line anywhere in the file gives neither a row nor a rejection, and does not shift the clock readings of later lines. |
| Pipeline.StripOnlyTrimsEdgeLines | src/main.py:50-53 | Stripping the content before splitting gives the same non-blank lines as splitting the raw content, one for one, up to the whitespace at the two ends. No non-blank line is gained or lost. |
| Pipeline.PendingSameUpToSpace | src/main.py:53 | Line lists that are equal up to surrounding whitespace have non-blank lines that are equal up to surrounding whitespace. |
| Pipeline.RowsAndRejectionsPartition | src/main.py:52-74 | Every non-blank line gives exactly one outcome, so #rows + #rejections = #non-blank lines. |
| Pipeline.PositionsAreTheMatches | src/main.py:52-74 | The row positions (or the rejection positions) are listed in ascending order, each once, and every matching line is listed. |
| Pipeline.AcceptedInFileOrder | src/main.py:52-63 | `rows_to_insert` holds exactly the records of the accepted lines, in file order. |
| Pipeline.RejectedInFileOrder | src/main.py:52-74 | The published messages are exactly those of the rejected lines, in file order. |
| Pipeline.LineOutcome | src/main.py:55-74 | The i-th non-blank line becomes a row if and only if it parses to a transaction. The row is the parsed object stamped with `clock(i)`, and it satisfies the schema. Otherwise the rejection carries the file name, the line verbatim, `clock(i)`, and a decode error exactly when the line does not parse. |
| Pipeline.NothingAcceptedIffNoTransaction | src/main.py:77 | No row is collected, so no insert is made, if and only if no non-blank line parses to a transaction. |
| Pipeline.ProcessStep | src/main.py:52-74 | One more loop iteration: a blank line changes nothing. Any other line appends its own row or rejection, taken with the next clock reading. |
| Ingest.PublishCallsOnePerRejection | src/main.py:74 | Each rejection is published once, to the dead-letter topic, in order. |
| Ingest.InsertCalls | src/main.py:77-79 | At most one insert call is made, and none exactly when there is no row. The call that is made sends all the rows to the configured table. |
| Ingest.Sinks.Publish | src/main.py:74 | The publish log grows by this one call, and the insert log is unchanged. |
| Ingest.Sinks.InsertRowsJson | src/main.py:79 | The insert log grows by this one call, and the publish log is unchanged. |
| Ingest.HandleLine | src/main.py:55-74 | One non-blank line: its row is appended, or its rejection is published once. The insert log is not touched. |
| Ingest.ProcessLine | src/main.py:52-74 | One loop iteration keeps the loop invariant. The rows and the publish log are those of the first k + 1 lines. |
| Ingest.IngestFile | src/main.py:48-79 | The returned rows are the accepted records in file order. The publish log grows by one call per rejected line, in order. The insert log grows by exactly one call holding those rows when there is at least one, and by nothing otherwise. |
| Scenarios.SingleLineFile | src/main.py:50-53 | A file of one line, with no newline and no whitespace at its ends, is processed as exactly that line, with the first clock reading. |
| Scenarios.ThreeLineFile | src/main.py:50 | Three lines joined by newlines split back into those three lines. |
| Scenarios.ValidLineInserted | src/main.py:55-63 | A valid record becomes one row with the timestamp appended, and nothing is dead-lettered. |
| Scenarios.NotJsonRejected | src/main.py:65-74 | A line that is not JSON is dead-lettered verbatim with a decode error, and nothing is collected. |
| Scenarios.MissingCreatedAtErrors | src/main.py:25 | An object without `created_at` violates exactly `required`, for `created_at`. |
| Scenarios.MissingFieldRejected | src/main.py:59-74 | An object without `created_at` is dead-lettered, citing that member, and nothing is collected. |
| Scenarios.TwoValidOneInvalid | src/main.py:52-74 | Two valid lines around one undecodable line: both records are collected, in order, with clock readings 0 and 2. The middle line alone is dead-lettered, with reading 1. |
| Scenarios.RunTwoValidOneInvalid | src/main.py:48-79 | The same file run through `IngestFile` on fresh sinks: exactly one bulk insert holding the two records in order, and exactly one publish, for the invalid line. |

## Left out

- Reading the event, creating the clients and downloading the blob (`src/main.py:30-44`) are foreign I/O. The content arrives as a parameter, and the clients are call logs.
- Environment configuration (`src/main.py:11-14`) is not modelled. Neither is the string formatting of `topic_path` and `table_ref` (`src/main.py:39`, `:78`). The four identifiers form a `Config`, and the topic and the table are records built from it.
- `json.loads` is not modelled, because it is a library parser. It is the `parse` parameter, so the model holds for any parser. A parser that raises an exception other than `JSONDecodeError`, such as `RecursionError` on deep nesting, would end the invocation; that is not modelled.
- The wording of `str(e)` and the choice of one error among several (jsonschema's `best_match`) are library behaviour. The model reports the first violation in keyword order (`type`, `properties`, `required`) as a structured reason.
- `datetime.utcnow().isoformat()` is a clock read. It is the `clock` parameter; the model fixes which reading each line gets, not what the readings are.
- The JSON encoding of the dead-letter message (`json.dumps(...).encode('utf-8')`, `src/main.py:74`) is not modelled; the model publishes the message before encoding.
- The BigQuery per-row error result (`src/main.py:81-84`) is only printed, so the insert log does not record a result.
- The log and `print` output (`src/main.py:33`, `:73`, `:83`, `:86`) is not modelled.
- `amount` is kept as its literal text. Only its JSON type matters to the schema, so there is no floating point.
- Ingest.HandleLine: the `record` dict is stamped as a value (`Enrich`) rather than updated in place. The model does not capture aliasing of the parsed dict, which nothing else in the function holds.
- The comment at `src/main.py:46` mentions a JSON-array file format. The code never implements it, and neither does the model.
