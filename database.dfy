// The extension's SQLite store: five tables with their uniqueness
// constraints, the get-or-create and INSERT OR IGNORE operations, the
// updates, and the three views as comprehensions over the tables.
//
// Rows are never deleted, so a table is a sequence and the row at position
// `i` has the id `i + 1` that SQLite's INTEGER PRIMARY KEY hands out.
module Database {
  import opened Js

  datatype IndicatorRow = IndicatorRow(indicator: string, kind: int)
  datatype EmailRow = EmailRow(messageId: string, timestamp: int, status: int)
  datatype TagRow = TagRow(raw: string, tagType: string, hash: string, indicator: int)
  datatype EmailTagRow = EmailTagRow(email: int, tag: int)
  datatype IncidentRow = IncidentRow(timestamp: int, emailTag: int, reported: int)

  /** The contents of all five tables. */
  datatype Tables = Tables(indicators: seq<IndicatorRow>, emails: seq<EmailRow>, tags: seq<TagRow>,
                           emailTags: seq<EmailTagRow>, incidents: seq<IncidentRow>)

  /** The stored status of an email and the time it was set. */
  datatype EmailStatus = EmailStatus(status: int, date: int)

  /** A table after a get-or-create, and the id that came back (0 for none). */
  datatype Got<T> = Got(rows: seq<T>, id: nat)

  /** A row of `getPendingTags`. */
  datatype PendingTag = PendingTag(id: nat, hash: string)

  /** A row of `getEmailsWithTag`. */
  datatype TaggedEmail = TaggedEmail(id: nat, messageId: string)

  /** A row of `getIncidents`. */
  datatype Incident = Incident(id: nat, timestamp: int, raw: string, indicator: string,
                               tagType: string, kind: int, context: string)

  /** A row of `getIndications`. */
  datatype Indication = Indication(id: nat, reported: int, raw: string, tagType: string)

  // ---------------------------------------------------------------------
  // Lookups: `SELECT id ... WHERE key = :key`
  // ---------------------------------------------------------------------

  /** The id of the first row that satisfies `hit`, or 0 when there is none. */
  function Find<R>(rows: seq<R>, hit: R -> bool): (id: nat)
    ensures id <= |rows|
  {
    if |rows| == 0 then 0
    else if hit(rows[0]) then 1
    else var k := Find(rows[1..], hit); if k == 0 then 0 else k + 1
  }

  /** `Find` returns the id of the first hit, and 0 exactly when no row is a hit. */
  lemma {:induction false} FindExact<R>(rows: seq<R>, hit: R -> bool)
    ensures Find(rows, hit) == 0 <==> forall i :: 0 <= i < |rows| ==> !hit(rows[i])
    ensures Find(rows, hit) > 0 ==> hit(rows[Find(rows, hit) - 1])
    ensures forall i :: 0 <= i < Find(rows, hit) - 1 ==> !hit(rows[i])
    decreases |rows|
  {
    if |rows| > 0 && !hit(rows[0]) {
      FindExact(rows[1..], hit);
      assert forall i :: 1 <= i < |rows| ==> rows[i] == rows[1..][i - 1];
    }
  }

  function IndicatorKey(fp: string): IndicatorRow -> bool
  {
    (r: IndicatorRow) => r.indicator == fp
  }

  function EmailKey(msgId: string): EmailRow -> bool
  {
    (r: EmailRow) => r.messageId == msgId
  }

  function TagKey(raw: string, tagType: string): TagRow -> bool
  {
    (r: TagRow) => r.raw == raw && r.tagType == tagType
  }

  function EmailTagKey(email: int, tag: int): EmailTagRow -> bool
  {
    (r: EmailTagRow) => r.email == email && r.tag == tag
  }

  function IncidentKey(emailTag: int): IncidentRow -> bool
  {
    (r: IncidentRow) => r.emailTag == emailTag
  }

  /** The indicator lookup finds the first row with that fingerprint, and 0 exactly when there is none. */
  lemma IndicatorIdExact(rows: seq<IndicatorRow>, fp: string)
    ensures IndicatorId(rows, fp) == 0 <==> forall i :: 0 <= i < |rows| ==> rows[i].indicator != fp
    ensures IndicatorId(rows, fp) > 0 ==> rows[IndicatorId(rows, fp) - 1].indicator == fp
    ensures forall i :: 0 <= i < IndicatorId(rows, fp) - 1 ==> rows[i].indicator != fp
  {
    FindExact(rows, IndicatorKey(fp));
  }

  /** The email lookup finds the first row with that message id, and 0 exactly when there is none. */
  lemma EmailIdExact(rows: seq<EmailRow>, msgId: string)
    ensures EmailId(rows, msgId) == 0 <==> forall i :: 0 <= i < |rows| ==> rows[i].messageId != msgId
    ensures EmailId(rows, msgId) > 0 ==> rows[EmailId(rows, msgId) - 1].messageId == msgId
    ensures forall i :: 0 <= i < EmailId(rows, msgId) - 1 ==> rows[i].messageId != msgId
  {
    FindExact(rows, EmailKey(msgId));
  }

  /** The tag lookup finds the first row with that raw text and type, and 0 exactly when there is none. */
  lemma TagIdExact(rows: seq<TagRow>, raw: string, tagType: string)
    ensures TagId(rows, raw, tagType) == 0 <==> forall i :: 0 <= i < |rows| ==> !(rows[i].raw == raw && rows[i].tagType == tagType)
    ensures TagId(rows, raw, tagType) > 0 ==>
              rows[TagId(rows, raw, tagType) - 1].raw == raw && rows[TagId(rows, raw, tagType) - 1].tagType == tagType
    ensures forall i :: 0 <= i < TagId(rows, raw, tagType) - 1 ==> !(rows[i].raw == raw && rows[i].tagType == tagType)
  {
    FindExact(rows, TagKey(raw, tagType));
  }

  /** The email tag lookup finds the first row joining that email and tag, and 0 exactly when there is none. */
  lemma EmailTagIdExact(rows: seq<EmailTagRow>, email: int, tag: int)
    ensures EmailTagId(rows, email, tag) == 0 <==> forall i :: 0 <= i < |rows| ==> rows[i] != EmailTagRow(email, tag)
    ensures EmailTagId(rows, email, tag) > 0 ==> rows[EmailTagId(rows, email, tag) - 1] == EmailTagRow(email, tag)
    ensures forall i :: 0 <= i < EmailTagId(rows, email, tag) - 1 ==> rows[i] != EmailTagRow(email, tag)
  {
    FindExact(rows, EmailTagKey(email, tag));
  }

  /** The incident lookup finds the first incident of that email tag, and 0 exactly when there is none. */
  lemma IncidentIdExact(rows: seq<IncidentRow>, emailTag: int)
    ensures IncidentId(rows, emailTag) == 0 <==> forall i :: 0 <= i < |rows| ==> rows[i].emailTag != emailTag
    ensures IncidentId(rows, emailTag) > 0 ==> rows[IncidentId(rows, emailTag) - 1].emailTag == emailTag
    ensures forall i :: 0 <= i < IncidentId(rows, emailTag) - 1 ==> rows[i].emailTag != emailTag
  {
    FindExact(rows, IncidentKey(emailTag));
  }

  /** `hasIndicator`: the id of the indicator with fingerprint `fp`, or 0. */
  function IndicatorId(rows: seq<IndicatorRow>, fp: string): nat
  {
    Find(rows, IndicatorKey(fp))
  }

  function EmailId(rows: seq<EmailRow>, msgId: string): nat
  {
    Find(rows, EmailKey(msgId))
  }

  function TagId(rows: seq<TagRow>, raw: string, tagType: string): nat
  {
    Find(rows, TagKey(raw, tagType))
  }

  function EmailTagId(rows: seq<EmailTagRow>, email: int, tag: int): nat
  {
    Find(rows, EmailTagKey(email, tag))
  }

  function IncidentId(rows: seq<IncidentRow>, emailTag: int): nat
  {
    Find(rows, IncidentKey(emailTag))
  }

  /** The row with id `id`, if there is one. */
  function RowById<R>(rows: seq<R>, id: int): Option<R>
  {
    if 1 <= id <= |rows| then Some(rows[id - 1]) else None
  }

  // ---------------------------------------------------------------------
  // Constraints
  // ---------------------------------------------------------------------

  /** UNIQUE(indicator) of the indicators table. */
  predicate UniqueIndicators(rows: seq<IndicatorRow>)
  {
    forall i, j :: 0 <= i < j < |rows| ==> rows[i].indicator != rows[j].indicator
  }

  /** UNIQUE(message_id) of the emails table. */
  predicate UniqueEmails(rows: seq<EmailRow>)
  {
    forall i, j :: 0 <= i < j < |rows| ==> rows[i].messageId != rows[j].messageId
  }

  /** UNIQUE(raw, type) of the tags table. */
  predicate UniqueTags(rows: seq<TagRow>)
  {
    forall i, j :: 0 <= i < j < |rows| ==> rows[i].raw != rows[j].raw || rows[i].tagType != rows[j].tagType
  }

  /** UNIQUE(email, tag) of the email_tags table. */
  predicate UniqueEmailTags(rows: seq<EmailTagRow>)
  {
    forall i, j :: 0 <= i < j < |rows| ==> rows[i].email != rows[j].email || rows[i].tag != rows[j].tag
  }

  /** UNIQUE(email_tag) of the incidents table. */
  predicate UniqueIncidents(rows: seq<IncidentRow>)
  {
    forall i, j :: 0 <= i < j < |rows| ==> rows[i].emailTag != rows[j].emailTag
  }

  /** All five uniqueness constraints of the schema. */
  predicate Consistent(t: Tables)
  {
    UniqueIndicators(t.indicators) && UniqueEmails(t.emails) && UniqueTags(t.tags)
    && UniqueEmailTags(t.emailTags) && UniqueIncidents(t.incidents)
  }

  // ---------------------------------------------------------------------
  // Operations on table contents
  // ---------------------------------------------------------------------

  /** `addIndicators` on a finished batch: INSERT OR IGNORE of each fingerprint, in order. */
  function AddIndicators(rows: seq<IndicatorRow>, list: seq<string>, kind: int): seq<IndicatorRow>
    decreases |list|
  {
    if |list| == 0 then rows
    else
      var next := if IndicatorId(rows, list[0]) == 0 then rows + [IndicatorRow(list[0], kind)] else rows;
      AddIndicators(next, list[1..], kind)
  }

  /** `getEmailStatus`: nothing for a null or empty id or an unknown email. */
  function GetEmailStatus(rows: seq<EmailRow>, msgId: Option<string>): Option<EmailStatus>
  {
    if msgId == None || msgId.value == "" then None
    else
      var id := EmailId(rows, msgId.value);
      if id == 0 then None else Some(EmailStatus(rows[id - 1].status, rows[id - 1].timestamp))
  }

  /**
   * `setEmailStatus`: refused for a null or empty id; otherwise the email's
   * row is inserted or its status and timestamp updated.
   */
  function SetEmailStatus(rows: seq<EmailRow>, msgId: Option<string>, rc: EmailStatus): (seq<EmailRow>, bool)
  {
    if msgId == None || msgId.value == "" then (rows, false)
    else
      var id := EmailId(rows, msgId.value);
      var row := EmailRow(msgId.value, rc.date, rc.status);
      if id == 0 then (rows + [row], true) else (rows[id - 1 := row], true)
  }

  /** `getEmailId(msgId, isRetry)`: select, and when absent and not a retry insert and select again. */
  function GetEmailId(rows: seq<EmailRow>, msgId: string, isRetry: bool): Got<EmailRow>
    decreases !isRetry
  {
    var id := EmailId(rows, msgId);
    if id > 0 then Got(rows, id)
    else if isRetry then Got(rows, 0)
    else GetEmailId(rows + [EmailRow(msgId, 0, 0)], msgId, true)
  }

  /** `getTagId(raw, type, hash, indicator, isRetry)`: get-or-create keyed on (raw, type). */
  function GetTagId(rows: seq<TagRow>, raw: string, tagType: string, hash: string, indicator: int,
                    isRetry: bool): Got<TagRow>
    decreases !isRetry
  {
    var id := TagId(rows, raw, tagType);
    if id > 0 then Got(rows, id)
    else if isRetry then Got(rows, 0)
    else GetTagId(rows + [TagRow(raw, tagType, hash, indicator)], raw, tagType, hash, indicator, true)
  }

  /** `getEmailTagId(email, tag, isRetry)`: get-or-create keyed on (email, tag). */
  function GetEmailTagId(rows: seq<EmailTagRow>, email: int, tag: int, isRetry: bool): Got<EmailTagRow>
    decreases !isRetry
  {
    var id := EmailTagId(rows, email, tag);
    if id > 0 then Got(rows, id)
    else if isRetry then Got(rows, 0)
    else GetEmailTagId(rows + [EmailTagRow(email, tag)], email, tag, true)
  }

  /** `recordIncident`: INSERT OR IGNORE under UNIQUE(email_tag), stamped `now`, not yet reported. */
  function RecordIncident(rows: seq<IncidentRow>, emailTag: int, now: int): seq<IncidentRow>
  {
    if IncidentId(rows, emailTag) > 0 then rows else rows + [IncidentRow(now, emailTag, 0)]
  }

  /** `resolveTagIndicator`: sets the indicator reference of tag `tagId`, if it exists. */
  function ResolveTagIndicator(rows: seq<TagRow>, tagId: int, indicatorId: int): seq<TagRow>
  {
    if 1 <= tagId <= |rows| then rows[tagId - 1 := rows[tagId - 1].(indicator := indicatorId)] else rows
  }

  /** `setReported`: sets the reported flag of incident `id`, if it exists. */
  function SetReported(rows: seq<IncidentRow>, id: int, flag: int): seq<IncidentRow>
  {
    if 1 <= id <= |rows| then rows[id - 1 := rows[id - 1].(reported := flag)] else rows
  }

  // ---------------------------------------------------------------------
  // Queries and views, row by row. The SELECTs have no ORDER BY, so SQLite
  // promises no row order; the model lists rows in id order.
  // ---------------------------------------------------------------------

  /** `getPendingTags` over the first `n` tags: those whose indicator is still 0. */
  function PendingTags(rows: seq<TagRow>, n: nat): seq<PendingTag>
    requires n <= |rows|
  {
    if n == 0 then []
    else PendingTags(rows, n - 1) + (if rows[n - 1].indicator == 0 then [PendingTag(n, rows[n - 1].hash)] else [])
  }

  /** The `v_incidents` row of incident `id`: present when its email tag, email, tag and indicator all exist. */
  function IncidentView(t: Tables, id: nat): (r: Option<Incident>)
    requires 1 <= id <= |t.incidents|
    ensures r.Some? ==> r.value.id == id
  {
    var inc := t.incidents[id - 1];
    match RowById(t.emailTags, inc.emailTag)
    case None => None
    case Some(et) =>
      match (RowById(t.emails, et.email), RowById(t.tags, et.tag))
      case (Some(email), Some(tag)) =>
        (match RowById(t.indicators, tag.indicator)
         case Some(ind) => Some(Incident(id, inc.timestamp, tag.raw, ind.indicator, tag.tagType, ind.kind, email.messageId))
         case None => None)
      case _ => None
  }

  /** `getIncidents(unreported)` over the first `n` incidents. */
  function Incidents(t: Tables, unreported: bool, n: nat): seq<Incident>
    requires n <= |t.incidents|
  {
    if n == 0 then []
    else
      var row := IncidentView(t, n);
      Incidents(t, unreported, n - 1)
      + (if row.Some? && (!unreported || t.incidents[n - 1].reported == 0) then [row.value] else [])
  }

  /** The `v_indications` row of incident `id`: present when its email tag, email and tag exist. */
  function IndicationView(t: Tables, id: nat): (r: Option<(string, Indication)>)
    requires 1 <= id <= |t.incidents|
    ensures r.Some? ==> r.value.1.id == id
  {
    var inc := t.incidents[id - 1];
    match RowById(t.emailTags, inc.emailTag)
    case None => None
    case Some(et) =>
      match (RowById(t.emails, et.email), RowById(t.tags, et.tag))
      case (Some(email), Some(tag)) => Some((email.messageId, Indication(id, inc.reported, tag.raw, tag.tagType)))
      case _ => None
  }

  /** `getIndications(msgId)` over the first `n` incidents. */
  function Indications(t: Tables, msgId: string, n: nat): seq<Indication>
    requires n <= |t.incidents|
  {
    if n == 0 then []
    else
      var row := IndicationView(t, n);
      Indications(t, msgId, n - 1) + (if row.Some? && row.value.0 == msgId then [row.value.1] else [])
  }

  /** `getEmailsWithTag(tagId)` over the first `n` email tags (the view `v_email_tags`). */
  function EmailsWithTag(t: Tables, tagId: int, n: nat): seq<TaggedEmail>
    requires n <= |t.emailTags|
  {
    if n == 0 then []
    else
      var et := t.emailTags[n - 1];
      var email := RowById(t.emails, et.email);
      EmailsWithTag(t, tagId, n - 1)
      + (if et.tag == tagId && RowById(t.tags, et.tag).Some? && email.Some?
         then [TaggedEmail(n, email.value.messageId)] else [])
  }

  // ---------------------------------------------------------------------
  // Properties
  // ---------------------------------------------------------------------

  /** Under UNIQUE(message_id) the lookup finds the one row with that id. */
  lemma EmailIdUnique(t: Tables, k: nat)
    requires Consistent(t) && k < |t.emails|
    ensures EmailId(t.emails, t.emails[k].messageId) == k + 1
  {
    EmailIdExact(t.emails, t.emails[k].messageId);
  }

  /** Adding indicators keeps the existing rows (and so their kind), adds only listed fingerprints, and keeps them unique. */
  lemma {:induction false} AddIndicatorsFacts(rows: seq<IndicatorRow>, list: seq<string>, kind: int)
    requires UniqueIndicators(rows)
    ensures var r := AddIndicators(rows, list, kind);
      |rows| <= |r| && r[..|rows|] == rows
      && UniqueIndicators(r)
      && (forall i :: |rows| <= i < |r| ==> r[i].indicator in list && r[i].kind == kind)
      && (forall fp :: fp in list ==> IndicatorId(r, fp) > 0)
    decreases |list|
  {
    if |list| > 0 {
      var next := if IndicatorId(rows, list[0]) == 0 then rows + [IndicatorRow(list[0], kind)] else rows;
      IndicatorIdExact(rows, list[0]);
      AddIndicatorsFacts(next, list[1..], kind);
      var r := AddIndicators(rows, list, kind);
      assert r == AddIndicators(next, list[1..], kind);
      assert r[..|next|] == next;
      assert r[..|rows|] == next[..|rows|];
      forall fp | fp in list
        ensures IndicatorId(r, fp) > 0
      {
        if fp != list[0] {
          assert fp in list[1..];
        } else {
          if IndicatorId(rows, fp) == 0 {
            assert next[|rows|].indicator == fp;
          }
          IndicatorIdExact(next, fp);
          IndicatorIdExact(r, fp);
          var k := IndicatorId(next, fp);
          assert r[k - 1] == next[k - 1];
        }
      }
    }
  }

  /** A batch of fingerprints that are all known already changes nothing. */
  lemma {:induction false} AddKnownIndicators(rows: seq<IndicatorRow>, list: seq<string>, kind: int)
    requires forall fp :: fp in list ==> IndicatorId(rows, fp) > 0
    ensures AddIndicators(rows, list, kind) == rows
    decreases |list|
  {
    if |list| > 0 {
      AddKnownIndicators(rows, list[1..], kind);
    }
  }

  /** Re-adding the same fingerprints, under any kind, changes nothing. */
  lemma AddIndicatorsIdempotent(rows: seq<IndicatorRow>, list: seq<string>, kind: int, kind': int)
    requires UniqueIndicators(rows)
    ensures var r := AddIndicators(rows, list, kind);
      AddIndicators(r, list, kind') == r
  {
    AddIndicatorsFacts(rows, list, kind);
    AddKnownIndicators(AddIndicators(rows, list, kind), list, kind');
  }

  /** `hasIndicator` finds exactly the stored fingerprints, and its id names the row. */
  lemma HasIndicatorExact(rows: seq<IndicatorRow>, fp: string)
    ensures IndicatorId(rows, fp) > 0 <==> exists i :: 0 <= i < |rows| && rows[i].indicator == fp
    ensures IndicatorId(rows, fp) > 0 ==> rows[IndicatorId(rows, fp) - 1].indicator == fp
  {
    IndicatorIdExact(rows, fp);
  }

  /**
   * Get-or-create of an email: the id names a row for `msgId`, at most one
   * row is appended, and it is appended only when none existed.
   */
  lemma GetEmailIdCreates(rows: seq<EmailRow>, msgId: string)
    ensures var g := GetEmailId(rows, msgId, false);
      1 <= g.id <= |g.rows| && g.rows[g.id - 1].messageId == msgId
      && g.rows[..|rows|] == rows
      && (if EmailId(rows, msgId) > 0 then g.rows == rows && g.id == EmailId(rows, msgId)
          else g.rows == rows + [EmailRow(msgId, 0, 0)] && g.id == |rows| + 1)
      && (UniqueEmails(rows) ==> UniqueEmails(g.rows))
  {
    EmailIdExact(rows, msgId);
    if EmailId(rows, msgId) == 0 {
      var rows' := rows + [EmailRow(msgId, 0, 0)];
      EmailIdExact(rows', msgId);
      assert rows'[|rows|].messageId == msgId;
      assert EmailId(rows', msgId) == |rows| + 1;
    }
  }

  /** Calling `getEmailId` again for the same message returns the same id and inserts nothing. */
  lemma GetEmailIdIdempotent(rows: seq<EmailRow>, msgId: string)
    ensures var g := GetEmailId(rows, msgId, false);
      GetEmailId(g.rows, msgId, false) == g
  {
    GetEmailIdCreates(rows, msgId);
    var g := GetEmailId(rows, msgId, false);
    EmailIdExact(g.rows, msgId);
    assert EmailId(g.rows, msgId) == g.id;
  }

  /** With the retry argument present `getEmailId` never inserts, and returns 0 exactly for an unknown email. */
  lemma GetEmailIdRetryNeverInserts(rows: seq<EmailRow>, msgId: string)
    ensures GetEmailId(rows, msgId, true).rows == rows
    ensures GetEmailId(rows, msgId, true).id == 0 <==> forall i :: 0 <= i < |rows| ==> rows[i].messageId != msgId
  {
    EmailIdExact(rows, msgId);
  }

  /** Get-or-create of a tag: an existing (raw, type) row is returned untouched, whatever hash and indicator are passed. */
  lemma GetTagIdKeepsExisting(rows: seq<TagRow>, raw: string, tagType: string, hash: string, indicator: int)
    ensures var g := GetTagId(rows, raw, tagType, hash, indicator, false);
      1 <= g.id <= |g.rows| && g.rows[g.id - 1].raw == raw && g.rows[g.id - 1].tagType == tagType
      && (if TagId(rows, raw, tagType) > 0 then g.rows == rows
          else g.rows == rows + [TagRow(raw, tagType, hash, indicator)] && g.id == |rows| + 1)
      && (UniqueTags(rows) ==> UniqueTags(g.rows))
  {
    TagIdExact(rows, raw, tagType);
    if TagId(rows, raw, tagType) == 0 {
      var rows' := rows + [TagRow(raw, tagType, hash, indicator)];
      TagIdExact(rows', raw, tagType);
      assert rows'[|rows|].raw == raw && rows'[|rows|].tagType == tagType;
      assert TagId(rows', raw, tagType) == |rows| + 1;
    }
  }

  /** Get-or-create of an email tag: returns a row for the pair and inserts only when it was missing. */
  lemma GetEmailTagIdCreates(rows: seq<EmailTagRow>, email: int, tag: int)
    ensures var g := GetEmailTagId(rows, email, tag, false);
      1 <= g.id <= |g.rows| && g.rows[g.id - 1] == EmailTagRow(email, tag)
      && (if EmailTagId(rows, email, tag) > 0 then g.rows == rows
          else g.rows == rows + [EmailTagRow(email, tag)] && g.id == |rows| + 1)
      && (UniqueEmailTags(rows) ==> UniqueEmailTags(g.rows))
  {
    EmailTagIdExact(rows, email, tag);
    if EmailTagId(rows, email, tag) == 0 {
      var rows' := rows + [EmailTagRow(email, tag)];
      EmailTagIdExact(rows', email, tag);
      assert rows'[|rows|] == EmailTagRow(email, tag);
      assert EmailTagId(rows', email, tag) == |rows| + 1;
    }
  }

  /** Recording an incident twice for the same email tag records it once, and keeps at most one incident per email tag. */
  lemma RecordIncidentOnce(rows: seq<IncidentRow>, emailTag: int, now: int, later: int)
    requires UniqueIncidents(rows)
    ensures var r := RecordIncident(rows, emailTag, now);
      RecordIncident(r, emailTag, later) == r
      && UniqueIncidents(r)
      && exists i :: 0 <= i < |r| && r[i].emailTag == emailTag
  {
    var r := RecordIncident(rows, emailTag, now);
    IncidentIdExact(rows, emailTag);
    IncidentIdExact(r, emailTag);
    if IncidentId(rows, emailTag) == 0 {
      assert r[|rows|].emailTag == emailTag;
    } else {
      assert r[IncidentId(rows, emailTag) - 1].emailTag == emailTag;
    }
  }

  /** `resolveTagIndicator` changes only that tag's indicator. */
  lemma ResolveTouchesOneTag(rows: seq<TagRow>, tagId: int, indicatorId: int)
    ensures var r := ResolveTagIndicator(rows, tagId, indicatorId);
      |r| == |rows|
      && (forall i :: 0 <= i < |rows| && i != tagId - 1 ==> r[i] == rows[i])
      && (1 <= tagId <= |rows| ==>
            r[tagId - 1].indicator == indicatorId && r[tagId - 1] == rows[tagId - 1].(indicator := indicatorId))
  {
  }

  /** `setReported` changes only the reported flag of that incident. */
  lemma SetReportedTouchesOneIncident(rows: seq<IncidentRow>, id: int, flag: int)
    ensures var r := SetReported(rows, id, flag);
      |r| == |rows|
      && (forall i :: 0 <= i < |rows| && i != id - 1 ==> r[i] == rows[i])
      && (1 <= id <= |rows| ==>
            r[id - 1].reported == flag && r[id - 1].timestamp == rows[id - 1].timestamp
            && r[id - 1].emailTag == rows[id - 1].emailTag)
  {
  }

  /** What `setEmailStatus` stored is what `getEmailStatus` reads back, and other emails keep their status. */
  lemma EmailStatusRoundTrip(rows: seq<EmailRow>, msgId: string, rc: EmailStatus, other: string)
    requires UniqueEmails(rows)
    requires msgId != "" && other != msgId
    ensures var (r, ok) := SetEmailStatus(rows, Some(msgId), rc);
      ok && GetEmailStatus(r, Some(msgId)) == Some(rc)
      && GetEmailStatus(r, Some(other)) == GetEmailStatus(rows, Some(other))
  {
    var (r, ok) := SetEmailStatus(rows, Some(msgId), rc);
    var id := EmailId(rows, msgId);
    EmailIdExact(rows, msgId);
    EmailIdExact(r, msgId);
    EmailIdExact(rows, other);
    EmailIdExact(r, other);
    if id == 0 {
      assert r[|rows|].messageId == msgId;
      assert EmailId(r, msgId) == |rows| + 1;
      if other != "" {
        var k := EmailId(rows, other);
        if k > 0 {
          assert r[k - 1] == rows[k - 1];
          assert EmailId(r, other) == k;
        } else {
          assert EmailId(r, other) == 0;
        }
      }
    } else {
      assert r[id - 1].messageId == msgId;
      assert EmailId(r, msgId) == id;
      if other != "" {
        var k := EmailId(rows, other);
        assert forall i :: 0 <= i < |r| && i != id - 1 ==> r[i] == rows[i];
        if k > 0 {
          assert k != id;
          assert EmailId(r, other) == k;
        } else {
          assert EmailId(r, other) == 0;
        }
      }
    }
  }

  /** `getEmailStatus` and `setEmailStatus` refuse a null or empty message id. */
  lemma EmailStatusNeedsId(rows: seq<EmailRow>, msgId: Option<string>, rc: EmailStatus)
    requires msgId == None || msgId == Some("")
    ensures GetEmailStatus(rows, msgId) == None && SetEmailStatus(rows, msgId, rc) == (rows, false)
  {
  }

  /** `getPendingTags` returns exactly the tags whose indicator is 0, listed in the model's id order. */
  lemma {:induction false} PendingTagsExact(rows: seq<TagRow>, n: nat)
    requires n <= |rows|
    ensures var p := PendingTags(rows, n);
      (forall x :: x in p <==> 1 <= x.id <= n && rows[x.id - 1].indicator == 0 && x.hash == rows[x.id - 1].hash)
      && (forall i, j :: 0 <= i < j < |p| ==> p[i].id < p[j].id)
  {
    if n > 0 {
      PendingTagsExact(rows, n - 1);
    }
  }

  /** The rows of `getIncidents` over the first `n` incidents are those whose view row exists and passes the filter. */
  lemma {:induction false} IncidentsMembers(t: Tables, unreported: bool, n: nat)
    requires n <= |t.incidents|
    ensures forall x :: x in Incidents(t, unreported, n) <==>
      1 <= x.id <= n && IncidentView(t, x.id) == Some(x) && (!unreported || t.incidents[x.id - 1].reported == 0)
  {
    if n > 0 {
      IncidentsMembers(t, unreported, n - 1);
    }
  }

  /** The ids of `rows` increase. */
  predicate Ordered(rows: seq<Incident>)
  {
    forall i, j :: 0 <= i < j < |rows| ==> rows[i].id < rows[j].id
  }

  /** The rows of `getIncidents` come in increasing id order, the order the model chooses for a query without ORDER BY. */
  lemma {:induction false} IncidentsOrdered(t: Tables, unreported: bool, n: nat)
    requires n <= |t.incidents|
    ensures Ordered(Incidents(t, unreported, n))
  {
    if n > 0 {
      IncidentsOrdered(t, unreported, n - 1);
      IncidentsMembers(t, unreported, n - 1);
      var p := Incidents(t, unreported, n - 1);
      assert forall i :: 0 <= i < |p| ==> p[i] in p && p[i].id < n;
      var row := IncidentView(t, n);
      var q := Incidents(t, unreported, n);
      if q != p {
        assert row.Some? && row.value.id == n && q == p + [row.value];
        forall i, j | 0 <= i < j < |q|
          ensures q[i].id < q[j].id
        {
          if j < |p| {
            assert q[i] == p[i] && q[j] == p[j];
          } else {
            assert q[i] == p[i] && q[j] == row.value;
          }
        }
      }
    }
  }

  /**
   * `getIncidents(true)` returns exactly the incidents with reported = 0
   * whose tag joins to an existing indicator (and whose email tag and email
   * exist), in the model's id order; `getIncidents(false)` drops the reported condition.
   */
  lemma IncidentsExact(t: Tables, unreported: bool, n: nat)
    requires n <= |t.incidents|
    ensures var p := Incidents(t, unreported, n);
      (forall x :: x in p <==> 1 <= x.id <= n && IncidentView(t, x.id) == Some(x)
                                && (!unreported || t.incidents[x.id - 1].reported == 0))
      && Ordered(p)
  {
    IncidentsMembers(t, unreported, n);
    IncidentsOrdered(t, unreported, n);
  }

  /** An incident appears in `v_incidents` exactly when its joins succeed, down to the indicator. */
  lemma IncidentViewJoins(t: Tables, id: nat)
    requires 1 <= id <= |t.incidents|
    ensures IncidentView(t, id).Some? <==>
      var et := RowById(t.emailTags, t.incidents[id - 1].emailTag);
      et.Some? && RowById(t.emails, et.value.email).Some? && RowById(t.tags, et.value.tag).Some?
      && RowById(t.indicators, t.tags[et.value.tag - 1].indicator).Some?
  {
  }

  /** `getIndications(msgId)` returns exactly the incidents of that email whose email tag and tag exist. */
  lemma {:induction false} IndicationsExact(t: Tables, msgId: string, n: nat)
    requires n <= |t.incidents|
    ensures forall x :: x in Indications(t, msgId, n) <==> 1 <= x.id <= n && IndicationView(t, x.id) == Some((msgId, x))
  {
    if n > 0 {
      IndicationsExact(t, msgId, n - 1);
    }
  }

  /** `getEmailsWithTag(tagId)` returns exactly the email tags of that tag whose email exists. */
  lemma {:induction false} EmailsWithTagExact(t: Tables, tagId: int, n: nat)
    requires n <= |t.emailTags|
    ensures forall x :: x in EmailsWithTag(t, tagId, n) <==>
      1 <= x.id <= n && t.emailTags[x.id - 1].tag == tagId && RowById(t.tags, tagId).Some?
      && RowById(t.emails, t.emailTags[x.id - 1].email).Some?
      && x.messageId == RowById(t.emails, t.emailTags[x.id - 1].email).value.messageId
  {
    if n > 0 {
      EmailsWithTagExact(t, tagId, n - 1);
    }
  }

  // ---------------------------------------------------------------------
  // The store object
  // ---------------------------------------------------------------------

  /** How the asynchronous `addIndicators` statement ended. */
  datatype Completion = Finished | Canceled | Failed(message: string)

  /** The calls `addIndicators` makes to its callback: (rc, message) in order. */
  function AddIndicatorsCallbacks(reason: Completion): (calls: seq<(int, string)>)
    ensures |calls| >= 1 && calls[|calls| - 1].0 == 1
    ensures calls[|calls| - 1].1 == "DONE" <==> reason == Finished
    ensures reason.Failed? <==> |calls| == 2
    ensures reason.Failed? ==> calls[0] == (-1, reason.message)
  {
    match reason
    case Finished => [(1, "DONE")]
    case Canceled => [(1, "CANCELED")]
    case Failed(msg) => [(-1, msg), (1, "CANCELED")]
  }
}
