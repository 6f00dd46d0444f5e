// The extension's periodic task scheduler and its message-window state:
// when a node sync and a report run are due, the status messages they
// produce, the per-message "phish" check on the stored status, the guard
// that keeps one message-pane scan running at a time, and the counters of
// a folder scan.
//
// Time is given in milliseconds (the value of `Date.now()`): the scheduler
// compares `Date.now() / 1000` with whole-second timestamps without
// rounding, and milliseconds keep that comparison exact on integers.
module Scheduler {
  import opened Js
  import opened Database
  import opened DatabaseStore
  import opened Report

  // ---------------------------------------------------------------------
  // When tasks are due
  // ---------------------------------------------------------------------

  /** A node sync is due: the interval `syncMinutes*60` is positive and `now > lastTry + interval` (seconds). */
  predicate SyncDue(nowMs: int, lastTry: int, syncMinutes: int)
  {
    syncMinutes * 60 > 0 && nowMs > 1000 * (lastTry + syncMinutes * 60)
  }

  /** A report run is due: more than an hour (3600 s) has passed since the last try. */
  predicate ReportDue(nowMs: int, lastTry: int)
  {
    nowMs > 1000 * (lastTry + 3600)
  }

  /** A sync interval of zero minutes or less switches node syncs off. */
  lemma SyncOff(nowMs: int, lastTry: int, syncMinutes: int)
    requires syncMinutes <= 0
    ensures !SyncDue(nowMs, lastTry, syncMinutes)
  {
  }

  /** Once due, a task stays due as time goes on (until its timestamp moves). */
  lemma DueStaysDue(nowMs: int, later: int, syncLastTry: int, syncMinutes: int, reportsLastTry: int)
    requires nowMs <= later
    ensures SyncDue(nowMs, syncLastTry, syncMinutes) ==> SyncDue(later, syncLastTry, syncMinutes)
    ensures ReportDue(nowMs, reportsLastTry) ==> ReportDue(later, reportsLastTry)
  {
  }

  /**
   * A report run at `nowMs` stamps `reports_last_try` with the whole second
   * `floor(nowMs/1000)`; the next run is due no sooner than 3599 s and no
   * later than 3601 s after it.
   */
  lemma ReportsAtMostHourly(nowMs: int, later: int)
    ensures ReportDue(later, nowMs / 1000) ==> later > nowMs + 3_599_000
    ensures later >= nowMs + 3_600_001 ==> ReportDue(later, nowMs / 1000)
  {
    var s := nowMs / 1000;
    assert nowMs - 1000 < 1000 * s <= nowMs;
  }

  // ---------------------------------------------------------------------
  // Status messages
  // ---------------------------------------------------------------------

  /** The status line after a report run that sent `num` reports. */
  function ReportMessage(num: nat): (msg: string)
  {
    if num > 0 then Decimal(num) + " pending incident reports sent." else "No incidents to be reported."
  }

  /** The count can be read back out of the status line: `parseInt` of a "sent" message is the number of reports. */
  lemma ReportMessageCount(num: nat)
    ensures num > 0 ==> ParseInt(ReportMessage(num), 0) == Int(num)
    ensures num == 0 <==> ReportMessage(num) == "No incidents to be reported."
  {
    if num > 0 {
      var rest := " pending incident reports sent.";
      ParseDecimalPrefix(num, rest);
      DecimalDigits(num);
      var m := ReportMessage(num);
      assert m[0] == Decimal(num)[0];
      assert DigitValue(m[0]) < 10;
      assert DigitValue("No incidents to be reported."[0]) >= 10;
    }
  }

  /** The message the fetch callback shows for `(rc, msg)`, if any. */
  function FetchMessage(rc: int, msg: string): (out: Option<string>)
  {
    if rc == -1 then Some("Database error -- " + msg)
    else if rc == 1 then Some(if msg == "DONE" then "Fetched indicators." else "Fetch cancelled.")
    else None
  }

  /** The messages shown for a list of callback calls, in order. */
  function FetchMessages(calls: seq<(int, string)>): seq<string>
  {
    if calls == [] then []
    else
      var first := match FetchMessage(calls[0].0, calls[0].1)
                   case None => []
                   case Some(m) => [m];
      first + FetchMessages(calls[1..])
  }

  /**
   * What an indicator batch shows: a finished batch reports "Fetched
   * indicators.", a cancelled one "Fetch cancelled.", and a failed one the
   * database error followed by "Fetch cancelled.".
   */
  lemma FetchOutcome(reason: Completion)
    ensures var shown := FetchMessages(AddIndicatorsCallbacks(reason));
      |shown| >= 1
      && (shown[|shown| - 1] == "Fetched indicators." <==> reason == Finished)
      && (reason.Failed? ==> shown == ["Database error -- " + reason.message, "Fetch cancelled."])
  {
    var calls := AddIndicatorsCallbacks(reason);
    match reason
    case Finished =>
      assert FetchMessages(calls) == ["Fetched indicators."];
    case Canceled =>
      assert FetchMessages(calls) == ["Fetch cancelled."];
    case Failed(msg) =>
      assert calls[1..] == [(1, "CANCELED")];
      assert FetchMessages(calls[1..]) == ["Fetch cancelled."];
  }

  // ---------------------------------------------------------------------
  // The "phish" check on the stored status
  // ---------------------------------------------------------------------

  /** `pdCheckForPhish`: the email's stored status is -1. */
  function CheckForPhish(rows: seq<EmailRow>, msgId: string): bool
  {
    match GetEmailStatus(rows, Some(msgId))
    case None => false
    case Some(rc) => rc.status == -1
  }

  /**
   * An email nobody recorded is not phish; once a status is stored for a
   * (non-empty) message id the check answers from that status alone, and
   * other emails' answers do not change.
   */
  lemma CheckForPhishStored(rows: seq<EmailRow>, msgId: string, rc: EmailStatus, other: string)
    requires UniqueEmails(rows)
    ensures EmailId(rows, msgId) == 0 ==> !CheckForPhish(rows, msgId)
    ensures msgId != "" && other != msgId ==>
      var r := SetEmailStatus(rows, Some(msgId), rc).0;
      (CheckForPhish(r, msgId) <==> rc.status == -1)
      && CheckForPhish(r, other) == CheckForPhish(rows, other)
  {
    if msgId != "" && other != msgId {
      EmailStatusRoundTrip(rows, msgId, rc, other);
    }
  }

  // ---------------------------------------------------------------------
  // The scheduler run
  // ---------------------------------------------------------------------

  /**
   * `pdTaskScheduler` at `nowMs`: `sync` says whether a node sync starts;
   * a due report run sends the pending incidents (`pdSendReport(null, …)`)
   * and yields its status message. `withTest` stands for
   * `pdPrefs.test && pdPrefs.test_report`, which `pdSendReport` computes
   * itself; the `reports_context` preference goes to its unused
   * `withContext` argument.
   */
  method TaskScheduler(db: Store, syncMinutes: int, syncLastTry: int, stamps: Stamps, withTest: bool,
                       failed: Incident -> bool, rejected: bool, nowMs: int)
    returns (sync: bool, status: Option<string>, stamps': Stamps)
    requires db.Valid()
    modifies db
    ensures db.Valid()
    ensures sync == SyncDue(nowMs, syncLastTry, syncMinutes)
    ensures status.Some? == ReportDue(nowMs, stamps.lastTry)
    ensures !ReportDue(nowMs, stamps.lastTry) ==> db.State() == old(db.State()) && stamps' == stamps
    ensures ReportDue(nowMs, stamps.lastTry) ==>
      var list := Pending(old(db.State()), None);
      var num := |Sent(list, withTest)|;
      status == Some(ReportMessage(num))
      && db.State() == old(db.State()).(incidents := Reported(old(db.incidents), list, withTest, failed, rejected, false))
      && stamps' == Stamped(stamps, num, nowMs / 1000)
  {
    sync := nowMs > 1000 * (syncLastTry + syncMinutes * 60) && syncMinutes * 60 > 0;
    status, stamps' := None, stamps;
    if nowMs > 1000 * (stamps.lastTry + 3600) {
      var num;
      num, stamps' := SendReport(db, None, withTest, failed, rejected, stamps, nowMs / 1000);
      status := Some(ReportMessage(num));
    }
  }

  // ---------------------------------------------------------------------
  // One message-pane scan at a time
  // ---------------------------------------------------------------------

  /** What the message pane does once a message's headers are shown. */
  datatype HeaderAction = StartScan | Busy | ShowBar(rc: EmailStatus)

  /** `window.pdScanning`: the message id being scanned, or null. */
  class ScanGuard {
    var scanning: Option<string>

    /** Extension load sets `pdScanning` to null. */
    constructor ()
      ensures scanning == None
    {
      scanning := None;
    }

    /**
     * `onEndHeaders` for `msgId`: an email with a stored status shows the
     * notification bar; an unprocessed one is scanned only when no scan is
     * running, and then becomes the running scan.
     */
    method EndHeaders(db: Store, msgId: string) returns (action: HeaderAction)
      requires db.Valid()
      modifies this
      ensures var stored := GetEmailStatus(db.emails, Some(msgId));
        (action == StartScan <==> stored == None && old(scanning) == None)
        && (action == Busy <==> stored == None && old(scanning) != None)
        && (stored != None ==> action == ShowBar(stored.value))
      ensures scanning == if action == StartScan then Some(msgId) else old(scanning)
    {
      var rc := db.GetEmailStatus(Some(msgId));
      if rc == None {
        if scanning == None {
          scanning := Some(msgId);
          action := StartScan;
        } else {
          action := Busy;
        }
      } else {
        action := ShowBar(rc.value);
      }
    }

    /** The scan's completion callback: clears `pdScanning` and stores the result. */
    method ScanDone(db: Store, msgId: string, rc: EmailStatus)
      requires db.Valid()
      modifies this, db
      ensures db.Valid()
      ensures scanning == None
      ensures db.State() == old(db.State()).(emails := SetEmailStatus(old(db.emails), Some(msgId), rc).0)
    {
      scanning := None;
      var _ := db.SetEmailStatus(Some(msgId), rc);
    }
  }

  /**
   * A message scanned to completion is not scanned again: showing it
   * afterwards shows the bar with the stored result. This holds only for a
   * non-empty message id, which the database refuses to store otherwise.
   */
  method ScanThenShow(db: Store, msgId: string, rc: EmailStatus) returns (first: HeaderAction, second: HeaderAction)
    requires db.Valid() && msgId != ""
    requires GetEmailStatus(db.emails, Some(msgId)) == None
    modifies db
    ensures first == StartScan && second == ShowBar(rc)
  {
    var guard := new ScanGuard();
    first := guard.EndHeaders(db, msgId);
    guard.ScanDone(db, msgId, rc);
    EmailStatusRoundTrip(old(db.emails), msgId, rc, msgId + "x");
    second := guard.EndHeaders(db, msgId);
  }

  /** While one scan runs, no other unprocessed message starts a second one. */
  method OneScanAtATime(db: Store, a: string, b: string) returns (first: HeaderAction, second: HeaderAction)
    requires db.Valid()
    requires GetEmailStatus(db.emails, Some(a)) == None && GetEmailStatus(db.emails, Some(b)) == None
    ensures first == StartScan && second == Busy
  {
    var guard := new ScanGuard();
    first := guard.EndHeaders(db, a);
    second := guard.EndHeaders(db, b);
  }

  // ---------------------------------------------------------------------
  // Folder scan counters
  // ---------------------------------------------------------------------

  /** How many of the reported statuses are -1 (the source compares `aRC.status === -1`; `None` is undefined). */
  function Flagged(seen: seq<Option<int>>): (n: nat)
    ensures n <= |seen|
  {
    if seen == [] then 0 else Flagged(seen[..|seen| - 1]) + (if seen[|seen| - 1] == Some(-1) then 1 else 0)
  }

  /** `Flagged` counts the occurrences of status -1. */
  lemma {:induction false} FlaggedCounts(seen: seq<Option<int>>)
    ensures Flagged(seen) == multiset(seen)[Some(-1)]
  {
    if seen != [] {
      FlaggedCounts(seen[..|seen| - 1]);
      assert seen == seen[..|seen| - 1] + [seen[|seen| - 1]];
    }
  }

  /** The state of `pdScanFolder`: `pos` and `flagged`, with the statuses seen so far. */
  class FolderScan {
    const count: int
    var pos: int
    var flagged: int
    ghost var seen: seq<Option<int>>

    ghost predicate Valid()
      reads this
    {
      pos == |seen| + 1 && flagged == Flagged(seen)
    }

    /** A scan of a folder holding `count` messages starts at position 1 with nothing flagged. */
    constructor (count: int)
      ensures Valid() && this.count == count && seen == [] && pos == 1 && flagged == 0
    {
      this.count := count;
      pos, flagged := 1, 0;
      seen := [];
    }

    /** The check callback: counts a status -1, reports progress and moves to the next position. */
    method Inspected(status: Option<int>) returns (msg: string)
      requires Valid()
      modifies this
      ensures Valid() && seen == old(seen) + [status]
      ensures msg == "Inspected " + Decimal(old(pos)) + " of " + Decimal(count) + " emails in folder: "
                     + Decimal(flagged) + " suspicious."
    {
      if status == Some(-1) {
        flagged := flagged + 1;
      }
      msg := "Inspected " + Decimal(pos) + " of " + Decimal(count) + " emails in folder: "
             + Decimal(flagged) + " suspicious.";
      pos := pos + 1;
      seen := seen + [status];
      assert seen[..|seen| - 1] == old(seen);
    }

    /** The message once all headers are processed: it reports how many of the statuses seen were -1. */
    method Complete() returns (msg: string)
      requires Valid()
      ensures msg == "Folder scan complete: " + Decimal(multiset(seen)[Some(-1)]) + " suspicious emails found."
    {
      FlaggedCounts(seen);
      msg := "Folder scan complete: " + Decimal(flagged) + " suspicious emails found.";
    }
  }

  /** The counters never disagree: `0 <= flagged <= pos - 1`, `flagged` counts the statuses -1, and the final line reports that count. */
  method ScanFolder(count: int, statuses: seq<Option<int>>) returns (flagged: int, pos: int, done: string)
    ensures flagged == multiset(statuses)[Some(-1)] && pos == |statuses| + 1
    ensures 0 <= flagged <= pos - 1
    ensures done == "Folder scan complete: " + Decimal(flagged) + " suspicious emails found."
  {
    var scan := new FolderScan(count);
    for i := 0 to |statuses|
      invariant scan.Valid() && scan.seen == statuses[..i]
    {
      var _ := scan.Inspected(statuses[i]);
    }
    assert statuses[..|statuses|] == statuses;
    FlaggedCounts(statuses);
    flagged, pos := scan.flagged, scan.pos;
    done := scan.Complete();
  }
}
