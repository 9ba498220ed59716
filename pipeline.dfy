/** The batch loop shared by the EXIF and the resize handler: for every notification
    envelope of the event, decode its message, then process every storage record of the
    message, counting successes and failures, and report 200 when nothing failed and
    207 otherwise.

    What processing one (bucket, key) item does is supplied by the caller as an oracle;
    each handler module instantiates it with its own item processor. */
module Pipeline {
  import opened Wrappers

  /** One storage record of a decoded message: either both `s3.bucket.name` and
      `s3.object.key` could be read, or reading one of them raised. */
  datatype ChangeRecord = Malformed | Item(bucket: string, key: string)

  /** One notification envelope. `Undecodable` stands for every way the outer `try`
      fails before the inner loop starts: no `Sns.Message`, a message that is not JSON,
      or a payload that is not a dictionary. A decoded message may lack `Records`. */
  datatype Envelope = Undecodable | Message(records: Option<seq<ChangeRecord>>)

  /** The invocation's event; its top-level `Records` may be absent. */
  datatype Event = Event(envelopes: Option<seq<Envelope>>)

  /** The returned dictionary: `statusCode`, `processed`, `failed`. */
  datatype Summary = Summary(statusCode: int, processed: nat, failed: nat)

  /** Whether processing the object at (bucket, key) runs to completion. */
  type Oracle = (string, string) -> bool

  /** The handler's locals that outlive one record: both counters and `object_key`,
      which stays unbound until the first record whose key could be read, and keeps
      its last value from then on, across records and envelopes. */
  datatype Tally = Tally(processed: nat, failed: nat, objectKey: Option<string>)

  const Start: Tally := Tally(0, 0, None)

  function Bump(t: Tally, dp: nat, df: nat): Tally {
    t.(processed := t.processed + dp, failed := t.failed + df)
  }

  /** The summary built from the final counters. */
  function Summarize(t: Tally): (s: Summary)
    ensures s.processed == t.processed && s.failed == t.failed
    ensures s.statusCode == 200 <==> t.failed == 0
    ensures s.statusCode == 207 <==> t.failed > 0
  {
    Summary(if t.failed == 0 then 200 else 207, t.processed, t.failed)
  }

  /** The inner loop over one message's records, starting from tally `t`. The flag of
      the result is true when the inner `except` raised in its turn: it formats
      `object_key` into the error message, and when that name was never bound the
      formatting raises, leaving the loop and abandoning the message's other records. */
  function RunRecords(rs: seq<ChangeRecord>, ok: Oracle, t: Tally): (r: (Tally, bool))
    ensures r.1 ==> t.objectKey.None? && r.0.objectKey.None?
    ensures t.objectKey.Some? ==> r.0.objectKey.Some?
    ensures r.0.processed + r.0.failed <= t.processed + t.failed + |rs|
    decreases |rs|
  {
    if |rs| == 0 then (t, false)
    else match rs[0]
      case Item(b, k) =>
        var bound := t.(objectKey := Some(k));
        RunRecords(rs[1..], ok, if ok(b, k) then Bump(bound, 1, 0) else Bump(bound, 0, 1))
      case Malformed =>
        if t.objectKey.None? then (Bump(t, 0, 1), true)
        else RunRecords(rs[1..], ok, Bump(t, 0, 1))
  }

  /** The outer loop over the envelopes, starting from tally `t`. An undecodable
      envelope, and a message whose inner `except` raised, each cost one failure in the
      outer `except`; the loop goes on with the next envelope either way. */
  function RunEnvelopes(es: seq<Envelope>, ok: Oracle, t: Tally): (r: Tally)
    ensures t.objectKey.Some? ==> r.objectKey.Some?
    ensures r.processed + r.failed <= t.processed + t.failed + |es| + |AllRecords(es)|
    decreases |es|
  {
    if |es| == 0 then t
    else match es[0]
      case Undecodable => RunEnvelopes(es[1..], ok, Bump(t, 0, 1))
      case Message(rs) =>
        var (u, raised) := RunRecords(rs.GetOr([]), ok, t);
        RunEnvelopes(es[1..], ok, if raised then Bump(u, 0, 1) else u)
  }

  /** What a handler returns for `event`. */
  function Outcome(event: Event, ok: Oracle): (s: Summary)
    ensures s.statusCode == 200 <==> s.failed == 0
    ensures s.statusCode == 207 <==> s.failed > 0
    ensures s.processed + s.failed
         <= |event.envelopes.GetOr([])| + |AllRecords(event.envelopes.GetOr([]))|
  {
    Summarize(RunEnvelopes(event.envelopes.GetOr([]), ok, Start))
  }

  /** The body of `exif_handler` and of `resize_handler`, with the item work left to
      `ok`: two nested loops over envelopes and records that keep the two counters and
      `object_key` in local variables. */
  method HandleBatch(event: Event, ok: Oracle) returns (summary: Summary)
    ensures summary == Outcome(event, ok)
  {
    var envelopes := event.envelopes.GetOr([]);
    var processed: nat, failed: nat := 0, 0;
    var objectKey: Option<string> := None;
    var i := 0;
    while i < |envelopes|
      invariant 0 <= i <= |envelopes|
      invariant RunEnvelopes(envelopes[i..], ok, Tally(processed, failed, objectKey))
             == RunEnvelopes(envelopes, ok, Start)
    {
      assert envelopes[i..][0] == envelopes[i] && envelopes[i..][1..] == envelopes[i + 1..];
      match envelopes[i] {
        case Undecodable =>
          failed := failed + 1;
        case Message(rs) =>
          var records := rs.GetOr([]);
          ghost var entry := Tally(processed, failed, objectKey);
          var j := 0;
          var raised := false;
          while j < |records| && !raised
            invariant 0 <= j <= |records|
            invariant RunRecords(records, ok, entry)
                   == if raised then (Tally(processed, failed, objectKey), true)
                      else RunRecords(records[j..], ok, Tally(processed, failed, objectKey))
            decreases |records| - j
          {
            assert records[j..][0] == records[j] && records[j..][1..] == records[j + 1..];
            match records[j] {
              case Item(b, k) =>
                objectKey := Some(k);
                if ok(b, k) {
                  processed := processed + 1;
                } else {
                  failed := failed + 1;
                }
              case Malformed =>
                failed := failed + 1;
                if objectKey.None? {
                  raised := true;
                }
            }
            j := j + 1;
          }
          if raised {
            failed := failed + 1;
          }
      }
      i := i + 1;
    }
    summary := Summary(if failed == 0 then 200 else 207, processed, failed);
  }

  // ---------------------------------------------------------------------------------
  // Properties of the loop

  /** Running two stretches of envelopes one after the other. */
  lemma {:induction false} RunEnvelopesAppend(a: seq<Envelope>, b: seq<Envelope>, ok: Oracle, t: Tally)
    ensures RunEnvelopes(a + b, ok, t) == RunEnvelopes(b, ok, RunEnvelopes(a, ok, t))
    decreases |a|
  {
    if |a| == 0 {
      assert a + b == b;
    } else {
      assert (a + b)[0] == a[0];
      assert (a + b)[1..] == a[1..] + b;
      match a[0]
      case Undecodable =>
        RunEnvelopesAppend(a[1..], b, ok, Bump(t, 0, 1));
      case Message(rs) =>
        var (u, raised) := RunRecords(rs.GetOr([]), ok, t);
        RunEnvelopesAppend(a[1..], b, ok, if raised then Bump(u, 0, 1) else u);
    }
  }

  /** The counters never steer the inner loop: starting with higher counters ends with
      counters higher by as much, the same `object_key` and the same exit. */
  lemma {:induction false} RecordsShift(rs: seq<ChangeRecord>, ok: Oracle, t: Tally, dp: nat, df: nat)
    ensures RunRecords(rs, ok, Bump(t, dp, df)).1 == RunRecords(rs, ok, t).1
    ensures RunRecords(rs, ok, Bump(t, dp, df)).0 == Bump(RunRecords(rs, ok, t).0, dp, df)
    decreases |rs|
  {
    if |rs| > 0 {
      match rs[0]
      case Item(b, k) =>
        var bound := t.(objectKey := Some(k));
        RecordsShift(rs[1..], ok, if ok(b, k) then Bump(bound, 1, 0) else Bump(bound, 0, 1), dp, df);
      case Malformed =>
        RecordsShift(rs[1..], ok, Bump(t, 0, 1), dp, df);
    }
  }

  /** The counters never steer the outer loop either. */
  lemma {:induction false} EnvelopesShift(es: seq<Envelope>, ok: Oracle, t: Tally, dp: nat, df: nat)
    ensures RunEnvelopes(es, ok, Bump(t, dp, df)) == Bump(RunEnvelopes(es, ok, t), dp, df)
    decreases |es|
  {
    if |es| > 0 {
      match es[0]
      case Undecodable =>
        EnvelopesShift(es[1..], ok, Bump(t, 0, 1), dp, df);
      case Message(rs) =>
        RecordsShift(rs.GetOr([]), ok, t, dp, df);
        var (u, raised) := RunRecords(rs.GetOr([]), ok, t);
        EnvelopesShift(es[1..], ok, if raised then Bump(u, 0, 1) else u, dp, df);
    }
  }

  /** An undecodable envelope anywhere in the batch costs exactly one failure, adds
      nothing to `processed`, and the envelopes after it run exactly as they would
      without it. */
  lemma BadEnvelopeIsolated(a: seq<Envelope>, b: seq<Envelope>, ok: Oracle, t: Tally)
    ensures RunEnvelopes(a + [Undecodable] + b, ok, t) == Bump(RunEnvelopes(a + b, ok, t), 0, 1)
  {
    assert a + [Undecodable] + b == a + ([Undecodable] + b);
    RunEnvelopesAppend(a, [Undecodable] + b, ok, t);
    var m := RunEnvelopes(a, ok, t);
    assert ([Undecodable] + b)[1..] == b;
    EnvelopesShift(b, ok, m, 0, 1);
    RunEnvelopesAppend(a, b, ok, t);
  }

  /** Messages without records, whether `Records` is absent or empty, change nothing. */
  lemma {:induction false} EmptyMessagesAddNothing(es: seq<Envelope>, ok: Oracle, t: Tally)
    requires forall i :: 0 <= i < |es| ==> es[i].Message? && es[i].records.GetOr([]) == []
    ensures RunEnvelopes(es, ok, t) == t
    decreases |es|
  {
    if |es| > 0 {
      EmptyMessagesAddNothing(es[1..], ok, t);
    }
  }

  /** An event without records, at either level, reports 200 with nothing processed
      and nothing failed. */
  lemma NoRecordsSucceeds(event: Event, ok: Oracle)
    requires forall e :: e in event.envelopes.GetOr([]) ==> e.Message? && e.records.GetOr([]) == []
    ensures Outcome(event, ok) == Summary(200, 0, 0)
  {
    var es := event.envelopes.GetOr([]);
    assert forall i :: 0 <= i < |es| ==> es[i] in es;
    EmptyMessagesAddNothing(es, ok, Start);
  }

  /** Number of records whose item is processed successfully. */
  function Successes(rs: seq<ChangeRecord>, ok: Oracle): nat
    decreases |rs|
  {
    if |rs| == 0 then 0
    else (if rs[0].Item? && ok(rs[0].bucket, rs[0].key) then 1 else 0) + Successes(rs[1..], ok)
  }

  /** Number of records that fail: malformed ones and items whose processing fails. */
  function Failures(rs: seq<ChangeRecord>, ok: Oracle): nat
    decreases |rs|
  {
    if |rs| == 0 then 0
    else (if rs[0].Item? && ok(rs[0].bucket, rs[0].key) then 0 else 1) + Failures(rs[1..], ok)
  }

  /** Every record is either a success or a failure. */
  lemma {:induction false} SuccessesPlusFailures(rs: seq<ChangeRecord>, ok: Oracle)
    ensures Successes(rs, ok) + Failures(rs, ok) == |rs|
    decreases |rs|
  {
    if |rs| > 0 {
      SuccessesPlusFailures(rs[1..], ok);
    }
  }

  lemma {:induction false} CountsAppend(a: seq<ChangeRecord>, b: seq<ChangeRecord>, ok: Oracle)
    ensures Successes(a + b, ok) == Successes(a, ok) + Successes(b, ok)
    ensures Failures(a + b, ok) == Failures(a, ok) + Failures(b, ok)
    decreases |a|
  {
    if |a| == 0 {
      assert a + b == b;
    } else {
      assert (a + b)[1..] == a[1..] + b;
      CountsAppend(a[1..], b, ok);
    }
  }

  /** The value `object_key` holds after the records `rs`, having held `k` before. */
  function LastKey(rs: seq<ChangeRecord>, k: Option<string>): (r: Option<string>)
    ensures k.Some? ==> r.Some?
    ensures (exists i :: 0 <= i < |rs| && rs[i].Item?) ==> r.Some?
    decreases |rs|
  {
    if |rs| == 0 then k
    else LastKey(rs[1..], if rs[0].Item? then Some(rs[0].key) else k)
  }

  /** Once `object_key` is bound, every record adds exactly one to one counter, one to
      `processed` exactly when it is an item processed successfully, and the inner loop
      runs through to the end of the message. */
  lemma {:induction false} RecordsWithBoundKey(rs: seq<ChangeRecord>, ok: Oracle, t: Tally)
    requires t.objectKey.Some?
    ensures RunRecords(rs, ok, t)
         == (Tally(t.processed + Successes(rs, ok), t.failed + Failures(rs, ok), LastKey(rs, t.objectKey)), false)
    decreases |rs|
  {
    if |rs| > 0 {
      match rs[0]
      case Item(b, k) =>
        var bound := t.(objectKey := Some(k));
        RecordsWithBoundKey(rs[1..], ok, if ok(b, k) then Bump(bound, 1, 0) else Bump(bound, 0, 1));
      case Malformed =>
        RecordsWithBoundKey(rs[1..], ok, Bump(t, 0, 1));
    }
  }

  /** A record that fails before any key was ever read costs two failures: the inner
      `except` counts it, raises while formatting its message, and the outer `except`
      counts again. The rest of its message is skipped whatever it holds, and the next
      envelopes run with `object_key` still unbound. */
  lemma UnboundMalformedAbortsMessage(rest: seq<ChangeRecord>, later: seq<Envelope>, ok: Oracle, t: Tally)
    requires t.objectKey.None?
    ensures RunEnvelopes([Message(Some([Malformed] + rest))] + later, ok, t)
         == RunEnvelopes(later, ok, Bump(t, 0, 2))
  {
    assert ([Message(Some([Malformed] + rest))] + later)[1..] == later;
  }

  /** The counters only grow. */
  lemma {:induction false} RecordsMonotone(rs: seq<ChangeRecord>, ok: Oracle, t: Tally)
    ensures RunRecords(rs, ok, t).0.processed >= t.processed
    ensures RunRecords(rs, ok, t).0.failed >= t.failed
    decreases |rs|
  {
    if |rs| > 0 {
      match rs[0]
      case Item(b, k) =>
        var bound := t.(objectKey := Some(k));
        RecordsMonotone(rs[1..], ok, if ok(b, k) then Bump(bound, 1, 0) else Bump(bound, 0, 1));
      case Malformed =>
        RecordsMonotone(rs[1..], ok, Bump(t, 0, 1));
    }
  }

  /** Number of undecodable envelopes. */
  function BadEnvelopes(es: seq<Envelope>): nat
    decreases |es|
  {
    if |es| == 0 then 0
    else (if es[0].Undecodable? then 1 else 0) + BadEnvelopes(es[1..])
  }

  /** However the records fare, every undecodable envelope is counted as failed. */
  lemma {:induction false} FailedCoversBadEnvelopes(es: seq<Envelope>, ok: Oracle, t: Tally)
    ensures RunEnvelopes(es, ok, t).failed >= t.failed + BadEnvelopes(es)
    ensures RunEnvelopes(es, ok, t).processed >= t.processed
    decreases |es|
  {
    if |es| > 0 {
      match es[0]
      case Undecodable =>
        FailedCoversBadEnvelopes(es[1..], ok, Bump(t, 0, 1));
      case Message(rs) =>
        RecordsMonotone(rs.GetOr([]), ok, t);
        var (u, raised) := RunRecords(rs.GetOr([]), ok, t);
        FailedCoversBadEnvelopes(es[1..], ok, if raised then Bump(u, 0, 1) else u);
    }
  }

  /** All records of all decodable messages, in the order the loops reach them. */
  function AllRecords(es: seq<Envelope>): seq<ChangeRecord>
    decreases |es|
  {
    if |es| == 0 then []
    else (if es[0].Message? then es[0].records.GetOr([]) else []) + AllRecords(es[1..])
  }

  /** The counts that give every record one count: every record of every decodable
      message yields exactly one result, and every undecodable envelope one failure. */
  function IntendedOutcome(event: Event, ok: Oracle): (s: Summary)
    ensures s.processed + s.failed
         == |AllRecords(event.envelopes.GetOr([]))| + BadEnvelopes(event.envelopes.GetOr([]))
    ensures s.failed >= BadEnvelopes(event.envelopes.GetOr([]))
    ensures s.statusCode == 200 <==> s.failed == 0
  {
    var es := event.envelopes.GetOr([]);
    var all := AllRecords(es);
    SuccessesPlusFailures(all, ok);
    Summarize(Tally(Successes(all, ok), Failures(all, ok) + BadEnvelopes(es), None))
  }

  /** A message whose first record is readable, or that has none, or that the loop
      reaches with `object_key` bound, counts each of its records once and runs to its
      end; `object_key` is bound afterwards unless it was unbound and there was no
      record. */
  lemma ReadableFirstRecord(rs: seq<ChangeRecord>, ok: Oracle, t: Tally)
    requires t.objectKey.Some? || rs == [] || rs[0].Item?
    ensures RunRecords(rs, ok, t).1 == false
    ensures RunRecords(rs, ok, t).0.processed == t.processed + Successes(rs, ok)
    ensures RunRecords(rs, ok, t).0.failed == t.failed + Failures(rs, ok)
    ensures RunRecords(rs, ok, t).0.objectKey.Some? || (t.objectKey.None? && rs == [])
  {
    if t.objectKey.Some? {
      RecordsWithBoundKey(rs, ok, t);
    } else if rs != [] {
      var b, k := rs[0].bucket, rs[0].key;
      var bound := t.(objectKey := Some(k));
      RecordsWithBoundKey(rs[1..], ok, if ok(b, k) then Bump(bound, 1, 0) else Bump(bound, 0, 1));
    }
  }

  /** The loop gives the intended counts unless the first record it reaches is
      malformed while `object_key` is still unbound. */
  lemma {:induction false} AgreesWithIntended(es: seq<Envelope>, ok: Oracle, t: Tally)
    requires t.objectKey.Some? || AllRecords(es) == [] || AllRecords(es)[0].Item?
    ensures RunEnvelopes(es, ok, t).processed == t.processed + Successes(AllRecords(es), ok)
    ensures RunEnvelopes(es, ok, t).failed
         == t.failed + Failures(AllRecords(es), ok) + BadEnvelopes(es)
    decreases |es|
  {
    if |es| > 0 {
      match es[0]
      case Undecodable =>
        assert AllRecords(es) == AllRecords(es[1..]);
        AgreesWithIntended(es[1..], ok, Bump(t, 0, 1));
      case Message(o) =>
        var rs := o.GetOr([]);
        assert AllRecords(es) == rs + AllRecords(es[1..]);
        CountsAppend(rs, AllRecords(es[1..]), ok);
        if |rs| > 0 {
          assert rs[0] == AllRecords(es)[0];
        }
        ReadableFirstRecord(rs, ok, t);
        AgreesWithIntended(es[1..], ok, RunRecords(rs, ok, t).0);
    }
  }

  /** When the first record the handler reaches can be read, or there is none, the
      handler reports exactly the intended summary. */
  lemma OutcomeMatchesIntended(event: Event, ok: Oracle)
    requires var all := AllRecords(event.envelopes.GetOr([])); all == [] || all[0].Item?
    ensures Outcome(event, ok) == IntendedOutcome(event, ok)
  {
    AgreesWithIntended(event.envelopes.GetOr([]), ok, Start);
  }

  /** The records an envelope contributes to `AllRecords`. */
  function RecordsOf(e: Envelope): seq<ChangeRecord> {
    if e.Message? then e.records.GetOr([]) else []
  }

  lemma {:induction false} AllRecordsSnoc(es: seq<Envelope>, e: Envelope)
    ensures AllRecords(es + [e]) == AllRecords(es) + RecordsOf(e)
    ensures BadEnvelopes(es + [e]) == BadEnvelopes(es) + if e.Undecodable? then 1 else 0
    decreases |es|
  {
    if |es| == 0 {
      assert AllRecords([e]) == RecordsOf(e) + AllRecords([]);
      assert BadEnvelopes([e]) == (if e.Undecodable? then 1 else 0) + BadEnvelopes([]);
    } else {
      assert (es + [e])[1..] == es[1..] + [e];
      AllRecordsSnoc(es[1..], e);
    }
  }

  /** The inner loop as evidently intended: every record of one message costs exactly
      one count, and the loop never leaves early. */
  method CountRecords(records: seq<ChangeRecord>, ok: Oracle) returns (processed: nat, failed: nat)
    ensures processed == Successes(records, ok)
    ensures failed == Failures(records, ok)
  {
    processed, failed := 0, 0;
    var j := 0;
    while j < |records|
      invariant 0 <= j <= |records|
      invariant processed == Successes(records[..j], ok)
      invariant failed == Failures(records[..j], ok)
    {
      assert records[..j + 1] == records[..j] + [records[j]];
      CountsAppend(records[..j], [records[j]], ok);
      match records[j] {
        case Item(b, k) =>
          if ok(b, k) {
            processed := processed + 1;
          } else {
            failed := failed + 1;
          }
        case Malformed =>
          failed := failed + 1;
      }
      j := j + 1;
    }
    assert records[..j] == records;
  }

  /** The loop as evidently intended, with `object_key` bound (or the error message
      built without it) before the first record: every record of a decodable message
      costs exactly one count, and every undecodable envelope one failure. */
  method HandleBatchIntended(event: Event, ok: Oracle) returns (summary: Summary)
    ensures summary == IntendedOutcome(event, ok)
  {
    var envelopes := event.envelopes.GetOr([]);
    var processed: nat, failed: nat := 0, 0;
    var i := 0;
    while i < |envelopes|
      invariant 0 <= i <= |envelopes|
      invariant processed == Successes(AllRecords(envelopes[..i]), ok)
      invariant failed == Failures(AllRecords(envelopes[..i]), ok) + BadEnvelopes(envelopes[..i])
    {
      AllRecordsSnoc(envelopes[..i], envelopes[i]);
      assert envelopes[..i + 1] == envelopes[..i] + [envelopes[i]];
      CountsAppend(AllRecords(envelopes[..i]), RecordsOf(envelopes[i]), ok);
      match envelopes[i] {
        case Undecodable =>
          failed := failed + 1;
        case Message(rs) =>
          var p, f := CountRecords(rs.GetOr([]), ok);
          processed := processed + p;
          failed := failed + f;
      }
      i := i + 1;
    }
    assert envelopes[..i] == envelopes;
    summary := Summary(if failed == 0 then 200 else 207, processed, failed);
  }

  /** One message whose first record cannot be read, followed by a readable one. */
  function QuirkEvent(bucket: string, key: string): Event {
    Event(Some([Message(Some([Malformed, Item(bucket, key)]))]))
  }

  /** The handler counts the unreadable record twice and never reaches the readable
      one, where the intended summary counts one failure and one success. */
  lemma UnboundKeyCountsTwice(bucket: string, key: string, ok: Oracle)
    requires ok(bucket, key)
    ensures Outcome(QuirkEvent(bucket, key), ok) == Summary(207, 0, 2)
    ensures IntendedOutcome(QuirkEvent(bucket, key), ok) == Summary(207, 1, 1)
  {
    var rs := [Malformed, Item(bucket, key)];
    var es := [Message(Some(rs))];
    assert RunRecords(rs, ok, Start) == (Tally(0, 1, None), true);
    assert RunEnvelopes(es, ok, Start) == RunEnvelopes([], ok, Tally(0, 2, None));
    assert rs[1..] == [Item(bucket, key)];
    assert rs[1..][1..] == [];
    assert Successes(rs[1..], ok) == 1 && Failures(rs[1..], ok) == 0;
    assert Successes(rs, ok) == 1 && Failures(rs, ok) == 1;
    assert AllRecords(es) == rs + AllRecords([]);
    assert BadEnvelopes(es) == 0 + BadEnvelopes([]);
    assert AllRecords(es) == rs;
    assert QuirkEvent(bucket, key).envelopes.GetOr([]) == es;
    assert IntendedOutcome(QuirkEvent(bucket, key), ok) == Summarize(Tally(1, 1, None));
  }
}
