// `pdSendReport`: pending incidents are flagged "in transit" (-1), the
// non-test ones are sent, and each response sets its incident back to
// pending (0) on error or to reported (1).
//
// The responses come back in the order of the requests, that is of the
// incidents actually sent. As written the function applies response `i` to
// `pending[i]`, which is another incident as soon as a test incident was
// filtered out before it. `Reported` takes that choice as a parameter:
// `asWritten` reproduces the source, the other value applies each response
// to the incident it answers, which is what `SendReport` runs.
module Report {
  import opened Js
  import opened Database
  import opened DatabaseStore

  /** The two report timestamps of the preferences, `reports_last` and `reports_last_try`. */
  datatype Stamps = Stamps(last: int, lastTry: int)

  /** An incident that is sent: it is not a test incident, or test incidents are reported. */
  predicate Submitted(x: Incident, withTest: bool)
  {
    x.kind != 0 || withTest
  }

  /** The incidents sent, in order: one request per submitted incident. */
  function Sent(pending: seq<Incident>, withTest: bool): (sent: seq<Incident>)
    ensures |sent| <= |pending|
  {
    if pending == [] then []
    else
      var x := pending[|pending| - 1];
      Sent(pending[..|pending| - 1], withTest) + (if Submitted(x, withTest) then [x] else [])
  }

  /** The listed incidents, `getIncidents(true)` when the argument is null. */
  function Pending(t: Tables, pending: Option<seq<Incident>>): seq<Incident>
  {
    match pending
    case None => Incidents(t, true, |t.incidents|)
    case Some(list) => list
  }

  /** The first loop: every listed incident flagged -1, in order. */
  function InTransit(rows: seq<IncidentRow>, pending: seq<Incident>): seq<IncidentRow>
  {
    if pending == [] then rows
    else SetReported(InTransit(rows, pending[..|pending| - 1]), pending[|pending| - 1].id, -1)
  }

  /** The flag a response sets: 0 (pending again) on error, 1 (reported) otherwise. */
  function Flag(error: bool): int
  {
    if error then 0 else 1
  }

  /** Whether the response to each sent incident carries an `error` member. */
  function Results(sent: seq<Incident>, failed: Incident -> bool): (results: seq<bool>)
    ensures |results| == |sent|
  {
    seq(|sent|, i requires 0 <= i < |sent| => failed(sent[i]))
  }

  /** The response loop: result `i` sets the flag of `targets[i]`. */
  function Settle(rows: seq<IncidentRow>, targets: seq<Incident>, results: seq<bool>): seq<IncidentRow>
    requires |results| <= |targets|
  {
    if results == [] then rows
    else
      var n := |results| - 1;
      SetReported(Settle(rows, targets, results[..n]), targets[n].id, Flag(results[n]))
  }

  /**
   * The incidents table after `pdSendReport(pending, ...)`: everything listed
   * is flagged -1; unless the batch is rejected, the responses are applied
   * to `pending` (as written) or to the incidents sent (corrected).
   */
  function Reported(rows: seq<IncidentRow>, pending: seq<Incident>, withTest: bool, failed: Incident -> bool,
                    rejected: bool, asWritten: bool): seq<IncidentRow>
  {
    var marked := InTransit(rows, pending);
    var sent := Sent(pending, withTest);
    if rejected then marked
    else Settle(marked, if asWritten then pending else sent, Results(sent, failed))
  }

  /** `reports_last` moves only when something was sent; `reports_last_try` always. */
  function Stamped(stamps: Stamps, count: nat, now: int): Stamps
  {
    Stamps(if count > 0 then now else stamps.last, now)
  }

  // ---------------------------------------------------------------------
  // Properties
  // ---------------------------------------------------------------------

  /** No two incidents of the list share an id. */
  predicate DistinctIds(s: seq<Incident>)
  {
    forall i, j :: 0 <= i < j < |s| ==> s[i].id != s[j].id
  }

  /** Some incident of the list has id `id`. */
  predicate Listed(s: seq<Incident>, id: int)
  {
    exists k :: 0 <= k < |s| && s[k].id == id
  }

  /** Exactly the submitted incidents are sent, each once, and the sent list has distinct ids when the listed one has. */
  lemma {:induction false} SentExact(pending: seq<Incident>, withTest: bool)
    ensures forall x :: x in Sent(pending, withTest) <==> x in pending && Submitted(x, withTest)
    ensures DistinctIds(pending) ==> DistinctIds(Sent(pending, withTest))
    decreases |pending|
  {
    if pending != [] {
      var front := pending[..|pending| - 1];
      var x := pending[|pending| - 1];
      SentExact(front, withTest);
      assert pending == front + [x];
      if DistinctIds(pending) {
        var s := Sent(front, withTest);
        assert DistinctIds(front);
        forall y | y in s
          ensures y.id != x.id
        {
          var k :| 0 <= k < |front| && front[k] == y;
          assert pending[k] == y;
        }
      }
    }
  }

  /** The first loop flags every listed incident -1 and leaves every other row as it was. */
  lemma {:induction false} InTransitExact(rows: seq<IncidentRow>, pending: seq<Incident>)
    ensures |InTransit(rows, pending)| == |rows|
    ensures forall i :: 0 <= i < |rows| ==>
              InTransit(rows, pending)[i] == if Listed(pending, i + 1) then rows[i].(reported := -1) else rows[i]
    decreases |pending|
  {
    if pending != [] {
      var front := pending[..|pending| - 1];
      var x := pending[|pending| - 1];
      InTransitExact(rows, front);
      forall i | 0 <= i < |rows|
        ensures InTransit(rows, pending)[i] == if Listed(pending, i + 1) then rows[i].(reported := -1) else rows[i]
      {
        if x.id == i + 1 {
          assert Listed(pending, i + 1);
        } else {
          if Listed(pending, i + 1) {
            var k :| 0 <= k < |pending| && pending[k].id == i + 1;
            assert front[k].id == i + 1;
          }
          if Listed(front, i + 1) {
            var k :| 0 <= k < |front| && front[k].id == i + 1;
            assert pending[k].id == i + 1;
          }
        }
      }
    }
  }

  /**
   * The response loop sets the row of `targets[k]` to the flag of result
   * `k`, and leaves the rows of incidents without a response as they were,
   * when the targets answered have distinct ids.
   */
  lemma {:induction false} SettleExact(rows: seq<IncidentRow>, targets: seq<Incident>, results: seq<bool>)
    requires |results| <= |targets|
    requires forall i, j :: 0 <= i < j < |results| ==> targets[i].id != targets[j].id
    ensures |Settle(rows, targets, results)| == |rows|
    ensures forall k :: 0 <= k < |results| && 1 <= targets[k].id <= |rows| ==>
              Settle(rows, targets, results)[targets[k].id - 1]
              == rows[targets[k].id - 1].(reported := Flag(results[k]))
    ensures forall i :: 0 <= i < |rows| && !Listed(targets[..|results|], i + 1) ==>
              Settle(rows, targets, results)[i] == rows[i]
    decreases |results|
  {
    if results != [] {
      var n := |results| - 1;
      var front := results[..n];
      SettleExact(rows, targets, front);
      var mid := Settle(rows, targets, front);
      var r := Settle(rows, targets, results);
      forall k | 0 <= k < |results| && 1 <= targets[k].id <= |rows|
        ensures r[targets[k].id - 1] == rows[targets[k].id - 1].(reported := Flag(results[k]))
      {
        if k < n {
          assert front[k] == results[k];
        }
      }
      forall id | Listed(targets[..n], id)
        ensures Listed(targets[..|results|], id)
      {
        var k :| 0 <= k < n && targets[..n][k].id == id;
        assert targets[..|results|][k].id == id;
      }
      forall i | 0 <= i < |rows| && !Listed(targets[..|results|], i + 1)
        ensures r[i] == rows[i]
      {
        assert targets[..|results|][n] == targets[n];
      }
    }
  }

  /** `getIncidents` lists each incident once. */
  lemma DefaultPendingDistinct(t: Tables)
    ensures DistinctIds(Incidents(t, true, |t.incidents|))
  {
    IncidentsExact(t, true, |t.incidents|);
  }

  /** `pdSendReport` keeps the number of incident rows. */
  lemma ReportedLength(rows: seq<IncidentRow>, pending: seq<Incident>, withTest: bool, failed: Incident -> bool,
                       rejected: bool, asWritten: bool)
    ensures |Reported(rows, pending, withTest, failed, rejected, asWritten)| == |rows|
  {
    var marked := InTransit(rows, pending);
    var sent := Sent(pending, withTest);
    InTransitExact(rows, pending);
    if !rejected {
      SettleLength(marked, if asWritten then pending else sent, Results(sent, failed));
    }
  }

  /** The response loop keeps the number of incident rows. */
  lemma {:induction false} SettleLength(rows: seq<IncidentRow>, targets: seq<Incident>, results: seq<bool>)
    requires |results| <= |targets|
    ensures |Settle(rows, targets, results)| == |rows|
    decreases |results|
  {
    if results != [] {
      SettleLength(rows, targets, results[..|results| - 1]);
    }
  }

  /** A listed incident ends at 0 or 1 when it was submitted (as its response says) and at -1 otherwise. */
  lemma ListedOutcome(rows: seq<IncidentRow>, pending: seq<Incident>, withTest: bool, failed: Incident -> bool,
                      rejected: bool, k: nat)
    requires DistinctIds(pending) && k < |pending| && 1 <= pending[k].id <= |rows|
    ensures var r := Reported(rows, pending, withTest, failed, rejected, false);
      |r| == |rows|
      && r[pending[k].id - 1] == rows[pending[k].id - 1].(reported :=
           if !rejected && Submitted(pending[k], withTest) then Flag(failed(pending[k])) else -1)
  {
    var marked := InTransit(rows, pending);
    var sent := Sent(pending, withTest);
    var results := Results(sent, failed);
    InTransitExact(rows, pending);
    SentExact(pending, withTest);
    assert sent[..|results|] == sent;
    if !rejected {
      SettleExact(marked, sent, results);
    }
    var id := pending[k].id;
    assert Listed(pending, id);
    if !rejected {
      if Submitted(pending[k], withTest) {
        assert pending[k] in sent;
        var j :| 0 <= j < |sent| && sent[j] == pending[k];
      } else {
        forall j | 0 <= j < |sent|
          ensures sent[j].id != id
        {
          assert sent[j] in pending;
          var k' :| 0 <= k' < |pending| && pending[k'] == sent[j];
          assert k' != k;
        }
      }
    }
  }

  /** An incident that is not listed is untouched. */
  lemma UnlistedOutcome(rows: seq<IncidentRow>, pending: seq<Incident>, withTest: bool, failed: Incident -> bool,
                        rejected: bool, i: nat)
    requires DistinctIds(pending) && i < |rows| && !Listed(pending, i + 1)
    ensures var r := Reported(rows, pending, withTest, failed, rejected, false);
      |r| == |rows| && r[i] == rows[i]
  {
    var marked := InTransit(rows, pending);
    var sent := Sent(pending, withTest);
    var results := Results(sent, failed);
    InTransitExact(rows, pending);
    SentExact(pending, withTest);
    assert sent[..|results|] == sent;
    if !rejected {
      SettleExact(marked, sent, results);
    }
    forall j | 0 <= j < |sent|
      ensures sent[j].id != i + 1
    {
      assert sent[j] in pending;
      var k :| 0 <= k < |pending| && pending[k] == sent[j];
    }
  }

  /**
   * With the responses applied to the incidents they answer: a submitted
   * incident ends at 0 when its report failed and at 1 otherwise, a filtered
   * test incident stays at -1, and every other incident is untouched. A
   * rejected batch leaves every listed incident at -1.
   */
  lemma SendReportOutcome(rows: seq<IncidentRow>, pending: seq<Incident>, withTest: bool, failed: Incident -> bool,
                          rejected: bool)
    requires DistinctIds(pending)
    ensures var r := Reported(rows, pending, withTest, failed, rejected, false);
      |r| == |rows|
      && (forall k :: 0 <= k < |pending| && 1 <= pending[k].id <= |rows| ==>
            r[pending[k].id - 1] == rows[pending[k].id - 1].(reported :=
              if !rejected && Submitted(pending[k], withTest) then Flag(failed(pending[k])) else -1))
      && (forall i :: 0 <= i < |rows| && !Listed(pending, i + 1) ==> r[i] == rows[i])
  {
    ReportedLength(rows, pending, withTest, failed, rejected, false);
    forall k | 0 <= k < |pending| && 1 <= pending[k].id <= |rows|
      ensures Reported(rows, pending, withTest, failed, rejected, false)[pending[k].id - 1]
              == rows[pending[k].id - 1].(reported :=
                   if !rejected && Submitted(pending[k], withTest) then Flag(failed(pending[k])) else -1)
    {
      ListedOutcome(rows, pending, withTest, failed, rejected, k);
    }
    forall i | 0 <= i < |rows| && !Listed(pending, i + 1)
      ensures Reported(rows, pending, withTest, failed, rejected, false)[i] == rows[i]
    {
      UnlistedOutcome(rows, pending, withTest, failed, rejected, i);
    }
  }

  /** Without a filtered test incident the call as written and the corrected one agree. */
  lemma {:induction false} NothingFilteredAgrees(pending: seq<Incident>, withTest: bool)
    requires forall k :: 0 <= k < |pending| ==> Submitted(pending[k], withTest)
    ensures Sent(pending, withTest) == pending
    decreases |pending|
  {
    if pending != [] {
      NothingFilteredAgrees(pending[..|pending| - 1], withTest);
      assert pending == pending[..|pending| - 1] + [pending[|pending| - 1]];
    }
  }

  /**
   * As written, a test incident filtered out ahead of a genuine one takes the
   * genuine one's response: the test incident, never sent, is marked reported,
   * and the incident that was sent stays in transit for good.
   */
  lemma AsWrittenMisroutes()
    ensures var rows := [IncidentRow(0, 1, 0), IncidentRow(0, 2, 0)];
      var test := Incident(1, 0, "a", "h1", "email_from", 0, "m");
      var genuine := Incident(2, 0, "b", "h2", "email_from", 2, "m");
      var asWritten := Reported(rows, [test, genuine], false, _ => false, false, true);
      var corrected := Reported(rows, [test, genuine], false, _ => false, false, false);
      |asWritten| == 2 && asWritten[0].reported == 1 && asWritten[1].reported == -1
      && |corrected| == 2 && corrected[0].reported == -1 && corrected[1].reported == 1
  {
    var rows := [IncidentRow(0, 1, 0), IncidentRow(0, 2, 0)];
    var test := Incident(1, 0, "a", "h1", "email_from", 0, "m");
    var genuine := Incident(2, 0, "b", "h2", "email_from", 2, "m");
    var pending := [test, genuine];
    assert pending[..1] == [test] && [test][..0] == [];
    assert Sent(pending, false) == [genuine];
    var marked := InTransit(rows, pending);
    assert InTransit(rows, [test]) == [IncidentRow(0, 1, -1), IncidentRow(0, 2, 0)];
    assert marked == [IncidentRow(0, 1, -1), IncidentRow(0, 2, -1)];
    var results := Results([genuine], _ => false);
    assert results == [false] && results[..0] == [];
  }

  // ---------------------------------------------------------------------
  // The report as it runs
  // ---------------------------------------------------------------------

  /**
   * `pdSendReport(pending, withContext, final)` at time `now`: `failed`
   * says which reports come back with an error, `rejected` that the batch
   * as a whole failed. Returns the number of reports sent and the new
   * timestamps.
   */
  method SendReport(db: Store, pending: Option<seq<Incident>>, withTest: bool, failed: Incident -> bool,
                    rejected: bool, stamps: Stamps, now: int)
    returns (count: nat, stamps': Stamps)
    requires db.Valid()
    modifies db
    ensures db.Valid()
    ensures var list := Pending(old(db.State()), pending);
      count == |Sent(list, withTest)|
      && db.State() == old(db.State()).(incidents := Reported(old(db.incidents), list, withTest, failed, rejected, false))
    ensures stamps' == Stamped(stamps, count, now)
  {
    var list: seq<Incident>;
    if pending.None? {
      list := db.GetIncidents(true);
    } else {
      list := pending.value;
    }
    var tasks := QueueReports(db, list, withTest);
    count := |tasks|;
    stamps' := Stamps(if |tasks| > 0 then now else stamps.last, now);
    if rejected {
      return;
    }
    ApplyResponses(db, tasks, failed);
  }

  /** The sending loop: flag every listed incident -1, in order, and queue the ones that are submitted. */
  method QueueReports(db: Store, list: seq<Incident>, withTest: bool) returns (tasks: seq<Incident>)
    requires db.Valid()
    modifies db
    ensures db.Valid()
    ensures db.State() == old(db.State()).(incidents := InTransit(old(db.incidents), list))
    ensures tasks == Sent(list, withTest)
  {
    tasks := [];
    for i := 0 to |list|
      invariant db.Valid()
      invariant db.State() == old(db.State()).(incidents := InTransit(old(db.incidents), list[..i]))
      invariant tasks == Sent(list[..i], withTest)
    {
      assert list[..i + 1][..i] == list[..i];
      db.SetReported(list[i].id, -1);
      if list[i].kind != 0 || withTest {
        tasks := tasks + [list[i]];
      }
    }
    assert list[..|list|] == list;
  }

  /** The response callback: the response to the `i`-th request sets the flag of the `i`-th incident sent. */
  method ApplyResponses(db: Store, tasks: seq<Incident>, failed: Incident -> bool)
    requires db.Valid()
    modifies db
    ensures db.Valid()
    ensures db.State() == old(db.State()).(incidents := Settle(old(db.incidents), tasks, Results(tasks, failed)))
  {
    ghost var results := Results(tasks, failed);
    for i := 0 to |tasks|
      invariant db.Valid()
      invariant db.State() == old(db.State()).(incidents := Settle(old(db.incidents), tasks, results[..i]))
    {
      assert results[..i + 1][..i] == results[..i];
      if failed(tasks[i]) {
        db.SetReported(tasks[i].id, 0);
      } else {
        db.SetReported(tasks[i].id, 1);
      }
    }
    assert results[..|tasks|] == results;
  }
}
