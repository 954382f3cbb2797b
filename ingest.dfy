/**
 * `ingest_file` itself: the loop over the lines of one uploaded file, with
 * the dead-letter topic and the table as sinks that record every call made
 * to them.
 */
module Ingest {
  import opened Json
  import opened Text
  import opened Pipeline

  /** `PROJECT_ID`, `DATASET_ID`, `TABLE_ID` and `DLQ_TOPIC_ID`. */
  datatype Config = Config(projectId: string, datasetId: string, tableId: string, dlqTopicId: string)

  /** The topic that `publisher.topic_path(PROJECT_ID, DLQ_TOPIC_ID)` names. */
  datatype Topic = Topic(project: string, topic: string)

  /** The table that `f"{PROJECT_ID}.{DATASET_ID}.{TABLE_ID}"` names. */
  datatype Table = Table(project: string, dataset: string, table: string)

  function DeadLetterTopic(cfg: Config): Topic
  {
    Topic(cfg.projectId, cfg.dlqTopicId)
  }

  function Destination(cfg: Config): Table
  {
    Table(cfg.projectId, cfg.datasetId, cfg.tableId)
  }

  /** One `publisher.publish` call: the message is the rejection before JSON encoding. */
  datatype PublishCall = PublishCall(topic: Topic, message: Rejection)

  /** One `bq_client.insert_rows_json` call. */
  datatype InsertCall = InsertCall(table: Table, rows: seq<JsonValue>)

  /** The publish calls for a list of rejections, one each, in order. */
  function PublishCalls(topic: Topic, msgs: seq<Rejection>): seq<PublishCall>
  {
    if msgs == [] then [] else PublishCalls(topic, msgs[..|msgs| - 1]) + [PublishCall(topic, msgs[|msgs| - 1])]
  }

  /** Each rejection is published once, to the dead-letter topic, in order. */
  lemma {:induction false} PublishCallsOnePerRejection(topic: Topic, msgs: seq<Rejection>)
    ensures |PublishCalls(topic, msgs)| == |msgs|
    ensures forall k :: 0 <= k < |msgs| ==> PublishCalls(topic, msgs)[k] == PublishCall(topic, msgs[k])
  {
    if msgs != [] {
      var n := |msgs| - 1;
      PublishCallsOnePerRejection(topic, msgs[..n]);
    }
  }

  /** Publishing the calls for `more` after those for `msgs` is publishing the calls for `msgs + more`. */
  lemma PublishCallsAppend(log: seq<PublishCall>, topic: Topic, msgs: seq<Rejection>, more: seq<Rejection>)
    requires |more| <= 1
    ensures log + PublishCalls(topic, msgs) + PublishCalls(topic, more) == log + PublishCalls(topic, msgs + more)
  {
    if more == [] {
      assert msgs + more == msgs;
    } else {
      assert (msgs + more)[..|msgs|] == msgs;
    }
  }

  /** The insert calls for the collected rows: one call, or none when there is no row. */
  function InsertCalls(table: Table, rows: seq<JsonValue>): (calls: seq<InsertCall>)
    ensures |calls| <= 1
    ensures calls == [] <==> rows == []
    ensures forall c :: c in calls ==> c == InsertCall(table, rows)
  {
    if rows == [] then [] else [InsertCall(table, rows)]
  }

  /** The Pub/Sub publisher and the BigQuery client, as logs of the calls made to them. */
  class Sinks {
    var published: seq<PublishCall>
    var inserted: seq<InsertCall>

    constructor ()
      ensures published == [] && inserted == []
    {
      published := [];
      inserted := [];
    }

    /** `publisher.publish(dlq_path, ...)`. */
    method Publish(topic: Topic, message: Rejection)
      modifies this
      ensures published == old(published) + [PublishCall(topic, message)]
      ensures inserted == old(inserted)
    {
      published := published + [PublishCall(topic, message)];
    }

    /** `bq_client.insert_rows_json(table_ref, rows)`. */
    method InsertRowsJson(table: Table, rows: seq<JsonValue>)
      modifies this
      ensures inserted == old(inserted) + [InsertCall(table, rows)]
      ensures published == old(published)
    {
      inserted := inserted + [InsertCall(table, rows)];
    }
  }

  /**
   * The `try`/`except` body for one non-blank line: parse and validate it,
   * then either stamp it and append it to `rows`, or publish its rejection.
   */
  method HandleLine(topic: Topic, fileName: string, line: string,
                    parse: string -> Option<JsonValue>, now: string, sinks: Sinks, rows: seq<JsonValue>)
    returns (rows': seq<JsonValue>)
    modifies sinks
    ensures var o := Route(fileName, parse, line, now);
      && rows' == rows + (if o.Row? then [o.record] else [])
      && sinks.published == old(sinks.published) + PublishCalls(topic, if o.Reject? then [o.message] else [])
      && sinks.inserted == old(sinks.inserted)
  {
    match Check(parse, line)
    case Passed(record) =>
      var enriched := Enrich(record, now);
      rows' := rows + [JObject(enriched)];
    case Failed(reason) =>
      sinks.Publish(topic, Rejection(fileName, line, reason, now));
      rows' := rows;
  }

  /**
   * One pass of the loop over `lines`, at index `k`: a blank line is
   * skipped; any other line reads the clock and is handled. The rows
   * collected and the rejections published so far stay those of the first
   * `k + 1` lines.
   */
  method ProcessLine(topic: Topic, fileName: string, parse: string -> Option<JsonValue>, clock: nat -> string,
                     lines: seq<string>, k: nat, clockReads: nat, sinks: Sinks, rows: seq<JsonValue>,
                     ghost log: seq<PublishCall>)
    returns (clockReads': nat, rows': seq<JsonValue>)
    requires k < |lines|
    requires var done := Outcomes(fileName, parse, clock, lines[..k]);
      && clockReads == |done|
      && rows == Accepted(done)
      && sinks.published == log + PublishCalls(topic, Rejected(done))
    modifies sinks
    ensures var next := Outcomes(fileName, parse, clock, lines[..k + 1]);
      && clockReads' == |next|
      && rows' == Accepted(next)
      && sinks.published == log + PublishCalls(topic, Rejected(next))
      && sinks.inserted == old(sinks.inserted)
  {
    ProcessStep(fileName, parse, clock, lines, k);
    ghost var done := Outcomes(fileName, parse, clock, lines[..k]);
    var line := lines[k];
    clockReads', rows' := clockReads, rows;
    if !IsBlank(line) {
      var now := clock(clockReads);
      clockReads' := clockReads + 1;
      ghost var o := Route(fileName, parse, line, now);
      PublishCallsAppend(log, topic, Rejected(done), if o.Reject? then [o.message] else []);
      rows' := HandleLine(topic, fileName, line, parse, now, sinks, rows);
    }
  }

  /**
   * One invocation on the file `fileName` whose downloaded text is
   * `content`. `parse` stands for `json.loads` (`None` for a decode error)
   * and `clock(k)` for the `k`-th reading of `datetime.utcnow().isoformat()`
   * in this invocation. Every non-blank line is published to the dead-letter
   * topic or collected for the table, in file order; the table gets one bulk
   * insert of all collected rows, and none when no line was accepted.
   */
  method IngestFile(cfg: Config, fileName: string, content: string,
                    parse: string -> Option<JsonValue>, clock: nat -> string, sinks: Sinks)
    returns (rowsToInsert: seq<JsonValue>)
    modifies sinks
    ensures var outs := Outcomes(fileName, parse, clock, Lines(content));
      && rowsToInsert == Accepted(outs)
      && sinks.published == old(sinks.published) + PublishCalls(DeadLetterTopic(cfg), Rejected(outs))
      && sinks.inserted == old(sinks.inserted) + InsertCalls(Destination(cfg), rowsToInsert)
  {
    var lines := Split(Strip(content));
    var topic := DeadLetterTopic(cfg);
    rowsToInsert := [];
    var clockReads := 0;
    var k := 0;
    while k < |lines|
      invariant 0 <= k <= |lines|
      invariant var done := Outcomes(fileName, parse, clock, lines[..k]);
        && clockReads == |done|
        && rowsToInsert == Accepted(done)
        && sinks.published == old(sinks.published) + PublishCalls(topic, Rejected(done))
      invariant sinks.inserted == old(sinks.inserted)
    {
      clockReads, rowsToInsert := ProcessLine(topic, fileName, parse, clock, lines, k, clockReads, sinks, rowsToInsert, old(sinks.published));
      k := k + 1;
    }
    assert lines[..k] == lines;
    if rowsToInsert != [] {
      sinks.InsertRowsJson(Destination(cfg), rowsToInsert);
    }
  }
}
