/**
 * What one run of `ingest_file` decides, line by line, stated as functions:
 * which lines are looked at, whether each becomes a row or a rejection, and
 * what the row or the rejection message holds.
 */
module Pipeline {
  import opened Json
  import opened Text
  import opened JsonSchema

  /**
   * `str(e)` of the two exceptions the loop catches, reduced to what failed:
   * `json.JSONDecodeError` or a `ValidationError` with the violated keyword.
   */
  datatype Reason = DecodeError | ValidationError(violation: Violation)

  /** The dead-letter message: `file`, `raw_data`, `error` and `timestamp`. */
  datatype Rejection = Rejection(file: string, rawData: string, error: Reason, timestamp: string)

  /** What `json.loads` followed by `validate` makes of one line. */
  datatype Checked = Passed(members: seq<Member>) | Failed(reason: Reason)

  /** Where one non-blank line goes. */
  datatype Outcome = Row(record: JsonValue) | Reject(message: Rejection)

  /** The member the enrichment step sets on every accepted record. */
  const IngestionTimestampKey: string := "_ingestion_timestamp"

  /** `content.strip().split('\n')`. */
  function Lines(content: string): (ls: seq<string>)
    ensures |ls| >= 1
    ensures forall i :: 0 <= i < |ls| ==> '\n' !in ls[i]
  {
    SplitPiecesHaveNoNewline(Strip(content));
    Split(Strip(content))
  }

  /** The lines the loop does not skip with `continue`, in order. */
  function Pending(lines: seq<string>): (p: seq<string>)
    ensures |p| <= |lines|
  {
    if lines == [] then []
    else
      var last := lines[|lines| - 1];
      Pending(lines[..|lines| - 1]) + (if IsBlank(last) then [] else [last])
  }

  /**
   * Parsing with `parse` (the model of `json.loads`) and then validating
   * against `TRANSACTION_SCHEMA`. A value that parses but is not an object
   * fails validation, not parsing.
   */
  function Check(parse: string -> Option<JsonValue>, line: string): (c: Checked)
    ensures c == Failed(DecodeError) <==> parse(line).None?
    ensures c.Passed? <==> parse(line).Some? && Valid(TransactionSchema, parse(line).value)
    ensures c.Failed? && c.reason.ValidationError? ==> c.reason.violation in Errors(TransactionSchema, parse(line).value)
  {
    match parse(line)
    case None => Failed(DecodeError)
    case Some(v) =>
      var errs := Errors(TransactionSchema, v);
      if errs == [] then Passed(v.members) else assert errs[0] in errs; Failed(ValidationError(errs[0]))
  }

  /**
   * A line passes exactly when it parses to a transaction; a decode error is
   * reported exactly when it does not parse; and a validation error names a
   * real violation of the parsed value.
   */
  lemma CheckAcceptsExactlyTransactions(parse: string -> Option<JsonValue>, line: string)
    ensures var c := Check(parse, line);
      && (c.Passed? <==> parse(line).Some? && IsTransaction(parse(line).value))
      && (c.Passed? ==> parse(line) == Some(JObject(c.members)))
      && (c == Failed(DecodeError) <==> parse(line).None?)
      && (c.Failed? && c.reason.ValidationError? ==> Genuine(parse(line).value, c.reason.violation))
  {
    if parse(line).Some? {
      var v := parse(line).value;
      TransactionSchemaAcceptsExactlyTransactions(v);
      ErrorsAreGenuine(TransactionSchema, v);
      var errs := Errors(TransactionSchema, v);
      if errs != [] {
        assert errs[0] in errs;
      }
    }
  }

  /**
   * `record['_ingestion_timestamp'] = now`: the timestamp member is set,
   * overwriting any value the line supplied, and every other member keeps
   * its value and its place.
   */
  function Enrich(ms: seq<Member>, now: string): (r: seq<Member>)
    ensures Lookup(r, IngestionTimestampKey) == Some(JString(now))
    ensures forall k :: k != IngestionTimestampKey ==> Lookup(r, k) == Lookup(ms, k)
    ensures Keys(r) == if IngestionTimestampKey in Keys(ms) then Keys(ms) else Keys(ms) + [IngestionTimestampKey]
  {
    PutLookup(ms, IngestionTimestampKey, JString(now));
    PutKeys(ms, IngestionTimestampKey, JString(now));
    Put(ms, IngestionTimestampKey, JString(now))
  }

  /** Stamping a transaction leaves it a transaction: rows sent to the table satisfy the schema. */
  lemma EnrichKeepsTransaction(ms: seq<Member>, now: string)
    requires IsTransaction(JObject(ms))
    ensures IsTransaction(JObject(Enrich(ms, now)))
  {
    var r := Enrich(ms, now);
    assert Lookup(r, "transaction_id") == Lookup(ms, "transaction_id");
    assert Lookup(r, "created_at") == Lookup(ms, "created_at");
    assert Lookup(r, "amount") == Lookup(ms, "amount");
    assert Lookup(r, "customer_id") == Lookup(ms, "customer_id");
  }

  /** One line's outcome, the clock reading `now` taken while handling it. */
  function Route(file: string, parse: string -> Option<JsonValue>, line: string, now: string): (o: Outcome)
    ensures o.Row? <==> Check(parse, line).Passed?
    ensures o.Row? ==> o.record.JObject? && Lookup(o.record.members, IngestionTimestampKey) == Some(JString(now))
    ensures o.Reject? ==> o.message.file == file && o.message.rawData == line && o.message.timestamp == now
  {
    match Check(parse, line)
    case Passed(ms) => Row(JObject(Enrich(ms, now)))
    case Failed(reason) => Reject(Rejection(file, line, reason, now))
  }

  /**
   * The outcome of every non-blank line of `lines`, in order. Each such line
   * reads the clock once (for the timestamp of its row or of its
   * rejection), so the `i`-th of them sees `clock(i)`.
   */
  function Outcomes(file: string, parse: string -> Option<JsonValue>, clock: nat -> string, lines: seq<string>): (o: seq<Outcome>)
    ensures |o| == |Pending(lines)|
  {
    var p := Pending(lines);
    seq(|p|, i requires 0 <= i < |p| => Route(file, parse, p[i], clock(i)))
  }

  /** The rows, in order: `rows_to_insert`. */
  function Accepted(outs: seq<Outcome>): (rows: seq<JsonValue>)
    ensures |rows| <= |outs|
  {
    if outs == [] then []
    else
      var last := outs[|outs| - 1];
      Accepted(outs[..|outs| - 1]) + (if last.Row? then [last.record] else [])
  }

  /** The rejection messages, in the order they are published. */
  function Rejected(outs: seq<Outcome>): (msgs: seq<Rejection>)
    ensures |msgs| <= |outs|
  {
    if outs == [] then []
    else
      var last := outs[|outs| - 1];
      Rejected(outs[..|outs| - 1]) + (if last.Reject? then [last.message] else [])
  }

  /** The positions in `outs` whose outcome is a row (when `rows`) or a rejection (otherwise), ascending. */
  function Positions(outs: seq<Outcome>, rows: bool): (idx: seq<nat>)
    ensures forall k :: 0 <= k < |idx| ==> idx[k] < |outs| && outs[idx[k]].Row? == rows
  {
    if outs == [] then []
    else
      var n := |outs| - 1;
      var front := outs[..n];
      assert forall i :: 0 <= i < n ==> outs[i] == front[i];
      Positions(front, rows) + (if outs[n].Row? == rows then [n] else [])
  }

  // ---------------------------------------------------------------------
  // Lemmas

  /** The filter of non-blank lines distributes over concatenation. */
  lemma {:induction false} PendingAppend(a: seq<string>, b: seq<string>)
    ensures Pending(a + b) == Pending(a) + Pending(b)
    decreases |b|
  {
    if b == [] {
      assert a + b == a;
    } else {
      var n := |b| - 1;
      assert (a + b)[..|a + b| - 1] == a + b[..n];
      assert (a + b)[|a + b| - 1] == b[n];
      PendingAppend(a, b[..n]);
    }
  }

  /** Lines that are all whitespace contribute nothing. */
  lemma {:induction false} PendingOfBlankLines(lines: seq<string>)
    requires forall x :: x in lines ==> AllSpace(x)
    ensures Pending(lines) == []
  {
    if lines != [] {
      var n := |lines| - 1;
      assert lines[n] in lines;
      BlankIffAllSpace(lines[n]);
      assert forall x :: x in lines[..n] ==> x in lines;
      PendingOfBlankLines(lines[..n]);
      assert Pending(lines) == Pending(lines[..n]) + [];
    }
  }

  /**
   * The skip drops the blank lines and only them, keeping file order: the
   * k-th pending line is the line at position `idx[k]` of the file, the
   * positions ascend, and every non-blank line's position is listed.
   */
  lemma {:induction false} PendingIsTheNonBlankLines(lines: seq<string>) returns (idx: seq<nat>)
    ensures |idx| == |Pending(lines)|
    ensures forall k :: 0 <= k < |idx| ==> idx[k] < |lines| && Pending(lines)[k] == lines[idx[k]] && !IsBlank(lines[idx[k]])
    ensures forall k, l :: 0 <= k < l < |idx| ==> idx[k] < idx[l]
    ensures forall i :: 0 <= i < |lines| && !IsBlank(lines[i]) ==> i in idx
  {
    if lines == [] {
      idx := [];
    } else {
      var n := |lines| - 1;
      var init := lines[..n];
      var idx0 := PendingIsTheNonBlankLines(init);
      assert forall i :: 0 <= i < n ==> init[i] == lines[i];
      if IsBlank(lines[n]) {
        idx := idx0;
        assert Pending(lines) == Pending(init) + [];
      } else {
        idx := idx0 + [n];
        assert Pending(lines) == Pending(init) + [lines[n]];
      }
    }
  }

  /** Membership form: a line is pending exactly when it is a non-blank line of the file. */
  lemma {:induction false} PendingMembers(lines: seq<string>)
    ensures forall x :: x in Pending(lines) <==> x in lines && !IsBlank(x)
  {
    var idx := PendingIsTheNonBlankLines(lines);
    forall x | x in lines && !IsBlank(x) ensures x in Pending(lines) {
      var i :| 0 <= i < |lines| && lines[i] == x;
      assert i in idx;
      var k :| 0 <= k < |idx| && idx[k] == i;
      assert Pending(lines)[k] == x;
    }
    forall x | x in Pending(lines) ensures x in lines && !IsBlank(x) {
      var k :| 0 <= k < |Pending(lines)| && Pending(lines)[k] == x;
      assert lines[idx[k]] == x;
    }
  }

  /**
   * A blank line anywhere in the file produces neither a row nor a
   * rejection, and does not shift the clock readings of the lines after it.
   */
  lemma BlankLineProducesNothing(file: string, parse: string -> Option<JsonValue>, clock: nat -> string,
                                 before: seq<string>, blank: string, after: seq<string>)
    requires IsBlank(blank)
    ensures Outcomes(file, parse, clock, before + [blank] + after) == Outcomes(file, parse, clock, before + after)
  {
    PendingSkipsBlank(before, blank, after);
    SamePendingSameOutcomes(file, parse, clock, before + [blank] + after, before + after);
  }

  lemma PendingSkipsBlank(before: seq<string>, blank: string, after: seq<string>)
    requires IsBlank(blank)
    ensures Pending(before + [blank] + after) == Pending(before + after)
  {
    PendingAppend(before + [blank], after);
    PendingAppend(before, [blank]);
    assert [blank][..0] == [];
    assert Pending([blank]) == [];
    PendingAppend(before, after);
  }

  /** The outcomes depend on the lines only through the non-blank ones. */
  lemma SamePendingSameOutcomes(file: string, parse: string -> Option<JsonValue>, clock: nat -> string,
                                a: seq<string>, b: seq<string>)
    requires Pending(a) == Pending(b)
    ensures Outcomes(file, parse, clock, a) == Outcomes(file, parse, clock, b)
  {
  }

  /** Each non-blank line has exactly one outcome: #rows + #rejections = #non-blank lines. */
  lemma {:induction false} RowsAndRejectionsPartition(outs: seq<Outcome>)
    ensures |Accepted(outs)| + |Rejected(outs)| == |outs|
  {
    if outs != [] {
      RowsAndRejectionsPartition(outs[..|outs| - 1]);
    }
  }

  /** `Positions` lists every matching position, each once, in ascending order. */
  lemma {:induction false} PositionsAreTheMatches(outs: seq<Outcome>, rows: bool)
    ensures var idx := Positions(outs, rows);
      && (forall k, l :: 0 <= k < l < |idx| ==> idx[k] < idx[l])
      && (forall i :: 0 <= i < |outs| && outs[i].Row? == rows ==> i in idx)
  {
    if outs != [] {
      var n := |outs| - 1;
      var front := outs[..n];
      PositionsAreTheMatches(front, rows);
      var pre := Positions(front, rows);
      var idx := Positions(outs, rows);
      assert idx == pre + (if outs[n].Row? == rows then [n] else []);
      assert forall i :: 0 <= i < n ==> outs[i] == front[i];
      forall k, l | 0 <= k < l < |idx| ensures idx[k] < idx[l] {
        assert idx[k] == pre[k] && pre[k] < |front|;
        if l < |pre| {
          assert idx[l] == pre[l];
        }
      }
      forall i | 0 <= i < |outs| && outs[i].Row? == rows ensures i in idx {
        if i < n {
          assert i in pre;
        }
      }
    }
  }

  /** The rows are exactly the row outcomes, taken in the order of the lines. */
  lemma {:induction false} AcceptedInFileOrder(outs: seq<Outcome>)
    ensures var idx := Positions(outs, true);
      |Accepted(outs)| == |idx| && forall k :: 0 <= k < |idx| ==> Accepted(outs)[k] == outs[idx[k]].record
  {
    if outs != [] {
      var n := |outs| - 1;
      var front := outs[..n];
      AcceptedInFileOrder(front);
      assert forall i :: 0 <= i < n ==> outs[i] == front[i];
      assert Positions(outs, true) == Positions(front, true) + (if outs[n].Row? == true then [n] else []);
      assert Accepted(outs) == Accepted(front) + (if outs[n].Row? == true then [outs[n].record] else []);
    }
  }

  /** The rejection messages are exactly the rejection outcomes, taken in the order of the lines. */
  lemma {:induction false} RejectedInFileOrder(outs: seq<Outcome>)
    ensures var idx := Positions(outs, false);
      |Rejected(outs)| == |idx| && forall k :: 0 <= k < |idx| ==> Rejected(outs)[k] == outs[idx[k]].message
  {
    if outs != [] {
      var n := |outs| - 1;
      var front := outs[..n];
      RejectedInFileOrder(front);
      assert forall i :: 0 <= i < n ==> outs[i] == front[i];
      assert Positions(outs, false) == Positions(front, false) + (if outs[n].Row? == false then [n] else []);
      assert Rejected(outs) == Rejected(front) + (if outs[n].Row? == false then [outs[n].message] else []);
    }
  }

  /**
   * What happens to the `i`-th non-blank line: it becomes a row exactly when
   * it parses to a transaction, the row is the parsed object with the
   * timestamp set, and otherwise the rejection carries the file name, the
   * line verbatim, why it failed and the clock reading.
   */
  lemma LineOutcome(file: string, parse: string -> Option<JsonValue>, clock: nat -> string, lines: seq<string>, i: nat)
    requires i < |Pending(lines)|
    ensures var line, o := Pending(lines)[i], Outcomes(file, parse, clock, lines)[i];
      && (o.Row? <==> parse(line).Some? && IsTransaction(parse(line).value))
      && (o.Row? ==> o.record == JObject(Enrich(parse(line).value.members, clock(i))) && IsTransaction(o.record))
      && (o.Reject? ==> o.message.file == file && o.message.rawData == line && o.message.timestamp == clock(i))
      && (o.Reject? ==> (o.message.error == DecodeError <==> parse(line).None?))
      && (o.Reject? && o.message.error.ValidationError? ==> Genuine(parse(line).value, o.message.error.violation))
  {
    var line := Pending(lines)[i];
    assert Outcomes(file, parse, clock, lines)[i] == Route(file, parse, line, clock(i));
    CheckAcceptsExactlyTransactions(parse, line);
    if parse(line).Some? && IsTransaction(parse(line).value) {
      EnrichKeepsTransaction(parse(line).value.members, clock(i));
    }
  }

  /** No row at all exactly when no non-blank line parses to a transaction. */
  lemma NothingAcceptedIffNoTransaction(file: string, parse: string -> Option<JsonValue>, clock: nat -> string, lines: seq<string>)
    ensures Accepted(Outcomes(file, parse, clock, lines)) == []
        <==> forall x :: x in Pending(lines) ==> !(parse(x).Some? && IsTransaction(parse(x).value))
  {
    var outs := Outcomes(file, parse, clock, lines);
    var p := Pending(lines);
    AcceptedEmptyIffNoRow(outs);
    forall i | 0 <= i < |p|
      ensures outs[i].Row? <==> parse(p[i]).Some? && IsTransaction(parse(p[i]).value)
    {
      LineOutcome(file, parse, clock, lines, i);
    }
    assert forall x :: x in p <==> exists i :: 0 <= i < |p| && p[i] == x;
  }

  /** No row is collected exactly when every outcome is a rejection. */
  lemma {:induction false} AcceptedEmptyIffNoRow(outs: seq<Outcome>)
    ensures Accepted(outs) == [] <==> forall i :: 0 <= i < |outs| ==> outs[i].Reject?
  {
    if outs != [] {
      var n := |outs| - 1;
      var front := outs[..n];
      AcceptedEmptyIffNoRow(front);
      assert forall i :: 0 <= i < n ==> outs[i] == front[i];
    }
  }

  /** Two lists of lines that are equal once each line is stripped. */
  predicate SameUpToSpace(a: seq<string>, b: seq<string>)
  {
    |a| == |b| && forall i :: 0 <= i < |a| ==> Strip(a[i]) == Strip(b[i])
  }

  /** Lines equal up to surrounding whitespace have equal non-blank lines, up to surrounding whitespace. */
  lemma {:induction false} PendingSameUpToSpace(a: seq<string>, b: seq<string>)
    requires SameUpToSpace(a, b)
    ensures SameUpToSpace(Pending(a), Pending(b))
  {
    if a != [] {
      var n := |a| - 1;
      PendingSameUpToSpace(a[..n], b[..n]);
      assert Strip(a[n]) == Strip(b[n]);
      var ta: seq<string> := if IsBlank(a[n]) then [] else [a[n]];
      var tb: seq<string> := if IsBlank(b[n]) then [] else [b[n]];
      assert Pending(a) == Pending(a[..n]) + ta;
      assert Pending(b) == Pending(b[..n]) + tb;
      SameUpToSpaceAppend(Pending(a[..n]), Pending(b[..n]), ta, tb);
    }
  }

  lemma SameUpToSpaceAppend(a1: seq<string>, b1: seq<string>, a2: seq<string>, b2: seq<string>)
    requires SameUpToSpace(a1, b1) && SameUpToSpace(a2, b2)
    ensures SameUpToSpace(a1 + a2, b1 + b2)
  {
    forall i | 0 <= i < |a1 + a2| ensures Strip((a1 + a2)[i]) == Strip((b1 + b2)[i]) {
      if i >= |a1| {
        assert (a1 + a2)[i] == a2[i - |a1|] && (b1 + b2)[i] == b2[i - |a1|];
      }
    }
  }

  /**
   * Stripping the whole content before splitting only removes whitespace:
   * the non-blank lines are the same as in the unstripped content, one for
   * one, up to the whitespace at the start of the first and the end of the
   * last. So the blank lines at either end are dropped like any other blank
   * line, and no non-blank line is gained or lost.
   */
  lemma StripOnlyTrimsEdgeLines(content: string)
    ensures SameUpToSpace(Pending(Lines(content)), Pending(Split(content)))
  {
    var w1, w2 := StripParts(content);
    SpaceAroundKeepsPending(w1, Strip(content), w2);
  }

  /** Whitespace around a text changes its non-blank lines only by whitespace. */
  lemma SpaceAroundKeepsPending(w1: string, m: string, w2: string)
    requires AllSpace(w1) && AllSpace(w2)
    ensures SameUpToSpace(Pending(Split(m)), Pending(Split(w1 + m + w2)))
  {
    var s1, sm, s2 := Split(w1), Split(m), Split(w2);
    var head, tail := s1[..|s1| - 1], s2[1..];
    var core := Glue(Glue([s1[|s1| - 1]], sm), [s2[0]]);
    SplitAround(w1, m, w2);
    BlankEdgePieces(w1, w2);
    CoreSameUpToSpace(s1[|s1| - 1], sm, s2[0]);
    PendingSameUpToSpace(sm, core);
    PendingBetweenBlanks(head, core, tail);
  }

  /** The pieces of whitespace-only text are whitespace only, and so contribute no line. */
  lemma BlankEdgePieces(w1: string, w2: string)
    requires AllSpace(w1) && AllSpace(w2)
    ensures var s1, s2 := Split(w1), Split(w2);
      && AllSpace(s1[|s1| - 1]) && AllSpace(s2[0])
      && Pending(s1[..|s1| - 1]) == [] && Pending(s2[1..]) == []
  {
    var s1, s2 := Split(w1), Split(w2);
    SplitAllSpace(w1);
    SplitAllSpace(w2);
    assert s1[|s1| - 1] in s1 && s2[0] in s2;
    assert forall x :: x in s1[..|s1| - 1] ==> x in s1;
    assert forall x :: x in s2[1..] ==> x in s2;
    PendingOfBlankLines(s1[..|s1| - 1]);
    PendingOfBlankLines(s2[1..]);
  }

  lemma PendingBetweenBlanks(head: seq<string>, core: seq<string>, tail: seq<string>)
    requires Pending(head) == [] && Pending(tail) == []
    ensures Pending(head + core + tail) == Pending(core)
  {
    PendingAppend(head, core);
    PendingAppend(head + core, tail);
    assert [] + Pending(core) + [] == Pending(core);
  }

  /** The pieces of `w1 + m + w2` in terms of the pieces of each part. */
  lemma SplitAround(w1: string, m: string, w2: string)
    ensures var s1, sm, s2 := Split(w1), Split(m), Split(w2);
      Split(w1 + m + w2) == s1[..|s1| - 1] + Glue(Glue([s1[|s1| - 1]], sm), [s2[0]]) + s2[1..]
  {
    SplitAppend(w1, m);
    SplitAppend(w1 + m, w2);
    GlueShape(Split(w1), Split(m), Split(w2));
  }

  /** How the pieces of `w1 + m + w2` are made of the pieces of `w1`, `m` and `w2`. */
  lemma GlueShape(s1: seq<string>, sm: seq<string>, s2: seq<string>)
    requires |s1| >= 1 && |sm| >= 1 && |s2| >= 1
    ensures Glue(Glue(s1, sm), s2)
         == s1[..|s1| - 1] + Glue(Glue([s1[|s1| - 1]], sm), [s2[0]]) + s2[1..]
  {
    var n := |sm|;
    var g := Glue([s1[|s1| - 1]], sm);
    assert Glue(s1, sm) == s1[..|s1| - 1] + g;
    assert |g| == n;
    assert Glue(s1, sm)[..|s1| - 1 + n - 1] == s1[..|s1| - 1] + g[..n - 1];
  }

  /** The middle pieces differ from the pieces of `m` only by whitespace glued at the ends. */
  lemma CoreSameUpToSpace(first: string, sm: seq<string>, last: string)
    requires AllSpace(first) && AllSpace(last) && |sm| >= 1
    ensures SameUpToSpace(sm, Glue(Glue([first], sm), [last]))
  {
    var n := |sm|;
    var g := Glue([first], sm);
    var core := Glue(g, [last]);
    assert |core| == n;
    forall i | 0 <= i < n ensures Strip(core[i]) == Strip(sm[i]) {
      var w1: string := if i == 0 then first else [];
      var w2: string := if i == n - 1 then last else [];
      assert core[i] == w1 + sm[i] + w2;
      StripIgnoresSurroundingSpace(w1, sm[i], w2);
    }
  }

  /** One more outcome adds its row or its rejection at the end, and nothing else. */
  lemma AcceptedRejectedSnoc(outs: seq<Outcome>, o: Outcome)
    ensures Accepted(outs + [o]) == Accepted(outs) + (if o.Row? then [o.record] else [])
    ensures Rejected(outs + [o]) == Rejected(outs) + (if o.Reject? then [o.message] else [])
  {
    assert (outs + [o])[..|outs|] == outs;
  }

  /**
   * One more line processed: a blank line changes nothing; any other line
   * adds its row, or its rejection, at the end, with the next clock reading.
   */
  lemma ProcessStep(file: string, parse: string -> Option<JsonValue>, clock: nat -> string, lines: seq<string>, k: nat)
    requires k < |lines|
    ensures var done, next := Outcomes(file, parse, clock, lines[..k]), Outcomes(file, parse, clock, lines[..k + 1]);
      var o := Route(file, parse, lines[k], clock(|done|));
      if IsBlank(lines[k]) then next == done
      else
        && |next| == |done| + 1
        && Accepted(next) == Accepted(done) + (if o.Row? then [o.record] else [])
        && Rejected(next) == Rejected(done) + (if o.Reject? then [o.message] else [])
  {
    OutcomesStep(file, parse, clock, lines, k);
    var done := Outcomes(file, parse, clock, lines[..k]);
    if IsBlank(lines[k]) {
      assert done + [] == done;
    } else {
      AcceptedRejectedSnoc(done, Route(file, parse, lines[k], clock(|done|)));
    }
  }

  /** Adding one more line to the processed prefix adds at most one outcome, at the end. */
  lemma OutcomesStep(file: string, parse: string -> Option<JsonValue>, clock: nat -> string, lines: seq<string>, k: nat)
    requires k < |lines|
    ensures var before := Outcomes(file, parse, clock, lines[..k]);
      Outcomes(file, parse, clock, lines[..k + 1])
        == before + (if IsBlank(lines[k]) then [] else [Route(file, parse, lines[k], clock(|before|))])
  {
    assert lines[..k + 1][..k] == lines[..k];
  }
}
