/**
 * Whole-file runs on small inputs: what the table receives and what the
 * dead-letter topic receives.
 */
module Scenarios {
  import opened Json
  import opened Text
  import opened JsonSchema
  import opened Pipeline
  import opened Ingest

  /** A line with no newline and no whitespace at either end. */
  predicate OneLine(line: string)
  {
    '\n' !in line && line != [] && !IsSpace(line[0]) && !IsSpace(line[|line| - 1])
  }

  /** A file of one such line is processed as exactly that line, with the first clock reading. */
  lemma SingleLineFile(file: string, parse: string -> Option<JsonValue>, clock: nat -> string, line: string)
    requires OneLine(line)
    ensures Outcomes(file, parse, clock, Lines(line)) == [Route(file, parse, line, clock(0))]
  {
    assert TrimLeft(line) == line;
    assert TrimRight(line) == line;
    SplitNoNewline(line);
    assert Pending([line]) == Pending([]) + [line];
  }

  lemma SingleOutcome(o: Outcome)
    ensures Accepted([o]) == (if o.Row? then [o.record] else [])
    ensures Rejected([o]) == (if o.Reject? then [o.message] else [])
  {
    assert [o][..0] == [];
  }

  /** Three newline-free lines joined by newlines, the first starting and the last ending with a non-space. */
  lemma ThreeLineFile(a: string, b: string, c: string)
    requires '\n' !in a && '\n' !in b && '\n' !in c
    requires a != [] && !IsSpace(a[0]) && c != [] && !IsSpace(c[|c| - 1])
    ensures Lines(a + "\n" + b + "\n" + c) == [a, b, c]
  {
    var content := a + "\n" + b + "\n" + c;
    assert content[0] == a[0];
    assert TrimLeft(content) == content;
    assert content[|content| - 1] == c[|c| - 1];
    assert TrimRight(content) == content;
    assert Join([c]) == c;
    assert [b, c][1..] == [c];
    assert Join([b, c]) == b + "\n" + c;
    assert [a, b, c][1..] == [b, c];
    assert Join([a, b, c]) == a + "\n" + (b + "\n" + c);
    assert a + "\n" + (b + "\n" + c) == content;
    assert forall p :: p in [a, b, c] ==> p == a || p == b || p == c;
    SplitJoin([a, b, c]);
  }

  /** The valid record of the valid-line scenario: string id, string timestamp, numeric amount. */
  const ValidRecord: seq<Member> := [
    Member("transaction_id", JString("t1")),
    Member("created_at", JString("2024-01-01T00:00:00Z")),
    Member("amount", JNumber("10.5"))]

  lemma ValidRecordIsTransaction()
    ensures IsTransaction(JObject(ValidRecord))
  {
    var ms := ValidRecord;
    assert ms[1..] == [ms[1], ms[2]] && ms[1..][1..] == [ms[2]];
    assert Lookup(ms, "transaction_id") == Some(JString("t1"));
    assert Lookup(ms, "created_at") == Some(JString("2024-01-01T00:00:00Z"));
    assert Lookup(ms, "amount") == Some(JNumber("10.5"));
    assert Keys(ms) == ["transaction_id", "created_at", "amount"];
    assert Lookup(ms, "customer_id") == None;
  }

  /** The record has no timestamp member yet, so stamping appends one. */
  lemma StampValidRecord(now: string)
    ensures Enrich(ValidRecord, now) == ValidRecord + [Member(IngestionTimestampKey, JString(now))]
  {
    assert Keys(ValidRecord) == ["transaction_id", "created_at", "amount"];
    PutNewKeyAppends(ValidRecord, IngestionTimestampKey, JString(now));
  }

  /** A valid line becomes one row, stamped with the clock, and nothing is dead-lettered. */
  lemma ValidLineInserted(file: string, parse: string -> Option<JsonValue>, clock: nat -> string, line: string)
    requires OneLine(line) && parse(line) == Some(JObject(ValidRecord))
    ensures var outs := Outcomes(file, parse, clock, Lines(line));
      && Accepted(outs) == [JObject(ValidRecord + [Member(IngestionTimestampKey, JString(clock(0)))])]
      && Rejected(outs) == []
  {
    SingleLineFile(file, parse, clock, line);
    ValidRecordIsTransaction();
    CheckAcceptsExactlyTransactions(parse, line);
    StampValidRecord(clock(0));
    SingleOutcome(Route(file, parse, line, clock(0)));
  }

  /** A line that is not JSON is dead-lettered verbatim, and nothing is inserted. */
  lemma NotJsonRejected(file: string, parse: string -> Option<JsonValue>, clock: nat -> string, line: string)
    requires OneLine(line) && parse(line) == None
    ensures var outs := Outcomes(file, parse, clock, Lines(line));
      && Accepted(outs) == []
      && Rejected(outs) == [Rejection(file, line, DecodeError, clock(0))]
  {
    SingleLineFile(file, parse, clock, line);
    SingleOutcome(Route(file, parse, line, clock(0)));
  }

  /** The record of the missing-`created_at` scenario: `created_at` is missing. */
  const MissingCreatedAtRecord: seq<Member> := [
    Member("transaction_id", JString("t1")),
    Member("amount", JNumber("10.5"))]

  lemma MissingCreatedAtLookups()
    ensures var ms := MissingCreatedAtRecord;
      && Lookup(ms, "transaction_id") == Some(JString("t1"))
      && Lookup(ms, "amount") == Some(JNumber("10.5"))
      && Lookup(ms, "created_at") == None
      && Lookup(ms, "customer_id") == None
  {
    var ms := MissingCreatedAtRecord;
    assert ms[1..] == [ms[1]] && ms[1..][1..] == [];
    assert Keys(ms) == ["transaction_id", "amount"];
  }

  lemma MissingCreatedAtRequired()
    ensures RequiredErrors(TransactionSchema.required, MissingCreatedAtRecord) == [Violation([], MissingRequired("created_at"))]
  {
    MissingCreatedAtLookups();
    var req := TransactionSchema.required;
    assert req[1..] == ["created_at", "amount"] && req[1..][1..] == ["amount"] && req[1..][1..][1..] == [];
  }

  lemma MissingCreatedAtProperties()
    ensures PropertyErrors(TransactionSchema, 0, MissingCreatedAtRecord) == []
  {
    MissingCreatedAtLookups();
    assert PropertiesConform(MissingCreatedAtRecord);
    TransactionProperties(MissingCreatedAtRecord);
  }

  lemma MissingCreatedAtErrors()
    ensures Errors(TransactionSchema, JObject(MissingCreatedAtRecord)) == [Violation([], MissingRequired("created_at"))]
  {
    MissingCreatedAtProperties();
    MissingCreatedAtRequired();
    ObjectErrors(TransactionSchema, MissingCreatedAtRecord);
  }

  /** An object without `created_at` is dead-lettered, citing that member, and nothing is inserted. */
  lemma MissingFieldRejected(file: string, parse: string -> Option<JsonValue>, clock: nat -> string, line: string)
    requires OneLine(line) && parse(line) == Some(JObject(MissingCreatedAtRecord))
    ensures var outs := Outcomes(file, parse, clock, Lines(line));
      && Accepted(outs) == []
      && Rejected(outs) == [Rejection(file, line, ValidationError(Violation([], MissingRequired("created_at"))), clock(0))]
  {
    SingleLineFile(file, parse, clock, line);
    MissingCreatedAtErrors();
    SingleOutcome(Route(file, parse, line, clock(0)));
  }

  /** A three-line file whose lines are all non-blank yields one outcome per line, with clock readings 0, 1, 2. */
  lemma ThreeLineOutcomes(file: string, parse: string -> Option<JsonValue>, clock: nat -> string,
                          a: string, b: string, c: string)
    requires '\n' !in a && '\n' !in b && '\n' !in c
    requires a != [] && !IsSpace(a[0]) && c != [] && !IsSpace(c[|c| - 1]) && !IsBlank(b)
    ensures Outcomes(file, parse, clock, Lines(a + "\n" + b + "\n" + c))
         == [Route(file, parse, a, clock(0)), Route(file, parse, b, clock(1)), Route(file, parse, c, clock(2))]
  {
    ThreeLineFile(a, b, c);
    ThreeNonBlank(a, b, c);
    var lines := Lines(a + "\n" + b + "\n" + c);
    assert Pending(lines) == [a, b, c];
  }

  /**
   * Two valid lines around one that is not JSON: both valid records are
   * collected, in file order, and the invalid line alone is dead-lettered.
   */
  lemma TwoValidOneInvalid(file: string, parse: string -> Option<JsonValue>, clock: nat -> string,
                           a: string, b: string, c: string)
    requires '\n' !in a && '\n' !in b && '\n' !in c
    requires a != [] && !IsSpace(a[0]) && c != [] && !IsSpace(c[|c| - 1]) && !IsBlank(b)
    requires parse(a).Some? && IsTransaction(parse(a).value)
    requires parse(c).Some? && IsTransaction(parse(c).value)
    requires parse(b).None?
    ensures var outs := Outcomes(file, parse, clock, Lines(a + "\n" + b + "\n" + c));
      && Accepted(outs) == [JObject(Enrich(parse(a).value.members, clock(0))),
                            JObject(Enrich(parse(c).value.members, clock(2)))]
      && Rejected(outs) == [Rejection(file, b, DecodeError, clock(1))]
  {
    ThreeLineOutcomes(file, parse, clock, a, b, c);
    CheckAcceptsExactlyTransactions(parse, a);
    CheckAcceptsExactlyTransactions(parse, c);
    var oa, ob, oc := Route(file, parse, a, clock(0)), Route(file, parse, b, clock(1)), Route(file, parse, c, clock(2));
    RowRejectRow(oa, ob, oc);
  }

  lemma RowRejectRow(oa: Outcome, ob: Outcome, oc: Outcome)
    requires oa.Row? && ob.Reject? && oc.Row?
    ensures Accepted([oa, ob, oc]) == [oa.record, oc.record]
    ensures Rejected([oa, ob, oc]) == [ob.message]
  {
    AcceptedRejectedSnoc([oa, ob], oc);
    AcceptedRejectedSnoc([oa], ob);
    SingleOutcome(oa);
    assert [oa, ob] + [oc] == [oa, ob, oc];
    assert [oa] + [ob] == [oa, ob];
  }

  lemma ThreeNonBlank(a: string, b: string, c: string)
    requires a != [] && !IsSpace(a[0]) && c != [] && !IsSpace(c[|c| - 1]) && !IsBlank(b)
    ensures Pending([a, b, c]) == [a, b, c]
  {
    BlankIffAllSpace(a);
    BlankIffAllSpace(c);
    assert !AllSpace(a) && !AllSpace(c);
    assert [a, b, c][..2] == [a, b] && [a, b][..1] == [a] && [a][..0] == [];
    assert Pending([a]) == [a];
    assert Pending([a, b]) == [a, b];
  }

  /**
   * The same file run through `IngestFile` on fresh sinks: exactly one bulk
   * insert holding the two valid records in file order, and exactly one
   * publish, for the invalid line.
   */
  method RunTwoValidOneInvalid(cfg: Config, file: string, parse: string -> Option<JsonValue>, clock: nat -> string,
                               a: string, b: string, c: string)
    returns (published: seq<PublishCall>, inserted: seq<InsertCall>)
    requires '\n' !in a && '\n' !in b && '\n' !in c
    requires a != [] && !IsSpace(a[0]) && c != [] && !IsSpace(c[|c| - 1]) && !IsBlank(b)
    requires parse(a).Some? && IsTransaction(parse(a).value)
    requires parse(c).Some? && IsTransaction(parse(c).value)
    requires parse(b).None?
    ensures inserted == [InsertCall(Destination(cfg), [JObject(Enrich(parse(a).value.members, clock(0))),
                                                      JObject(Enrich(parse(c).value.members, clock(2)))])]
    ensures published == [PublishCall(DeadLetterTopic(cfg), Rejection(file, b, DecodeError, clock(1)))]
  {
    var sinks := new Sinks();
    var content := a + "\n" + b + "\n" + c;
    var rows := IngestFile(cfg, file, content, parse, clock, sinks);
    TwoValidOneInvalid(file, parse, clock, a, b, c);
    var msg := Rejection(file, b, DecodeError, clock(1));
    assert [msg][..0] == [];
    assert PublishCalls(DeadLetterTopic(cfg), [msg]) == [PublishCall(DeadLetterTopic(cfg), msg)];
    published, inserted := sinks.published, sinks.inserted;
  }
}
