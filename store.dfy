// The database object: the five tables as fields that its methods
// reassign, each method proved against the operation it performs on the
// table contents.
module DatabaseStore {
  import opened Js
  import opened Database

  class Store {
    var indicators: seq<IndicatorRow>
    var emails: seq<EmailRow>
    var tags: seq<TagRow>
    var emailTags: seq<EmailTagRow>
    var incidents: seq<IncidentRow>

    function State(): Tables
      reads this
    {
      Tables(indicators, emails, tags, emailTags, incidents)
    }

    ghost predicate Valid()
      reads this
    {
      Consistent(State())
    }

    /** A freshly created database: five empty tables. */
    constructor ()
      ensures State() == Tables([], [], [], [], []) && Valid()
    {
      indicators, emails, tags, emailTags, incidents := [], [], [], [], [];
    }

    /**
     * `addIndicators(list, kind, callback)`: a finished batch inserts the
     * unknown fingerprints; a cancelled or failed one is rolled back. The
     * callback calls come back as a list.
     */
    method AddIndicators(list: seq<string>, kind: int, reason: Completion) returns (calls: seq<(int, string)>)
      requires Valid()
      modifies this
      ensures Valid()
      ensures calls == AddIndicatorsCallbacks(reason)
      ensures reason == Finished ==> State() == old(State()).(indicators := Database.AddIndicators(old(indicators), list, kind))
      ensures reason != Finished ==> State() == old(State())
    {
      if reason == Finished {
        var rows := indicators;
        var i := 0;
        while i < |list|
          invariant 0 <= i <= |list|
          invariant Database.AddIndicators(rows, list[i..], kind) == Database.AddIndicators(indicators, list, kind)
          invariant UniqueIndicators(rows)
          invariant State() == old(State())
        {
          IndicatorIdExact(rows, list[i]);
          if IndicatorId(rows, list[i]) == 0 {
            rows := rows + [IndicatorRow(list[i], kind)];
          }
          assert list[i..][1..] == list[i + 1..];
          i := i + 1;
        }
        assert list[i..] == [];
        indicators := rows;
      }
      calls := AddIndicatorsCallbacks(reason);
    }

    /** `hasIndicator(fp)`. */
    method HasIndicator(fp: string) returns (id: nat)
      ensures id == IndicatorId(indicators, fp)
      ensures id > 0 ==> indicators[id - 1].indicator == fp
      ensures id == 0 <==> forall i :: 0 <= i < |indicators| ==> indicators[i].indicator != fp
    {
      id := IndicatorId(indicators, fp);
      IndicatorIdExact(indicators, fp);
    }

    /** `getEmailStatus(msgId)`. */
    method GetEmailStatus(msgId: Option<string>) returns (r: Option<EmailStatus>)
      ensures r == Database.GetEmailStatus(emails, msgId)
      ensures r.Some? ==>
                msgId.Some? && exists i ::
                  0 <= i < |emails| && emails[i].messageId == msgId.value
                  && r.value == EmailStatus(emails[i].status, emails[i].timestamp)
    {
      r := Database.GetEmailStatus(emails, msgId);
      if msgId.Some? {
        EmailIdExact(emails, msgId.value);
      }
    }

    /** `setEmailStatus(msgId, rc)`: `ok` is false for a refused id (the source returns `undefined` otherwise). */
    method SetEmailStatus(msgId: Option<string>, rc: EmailStatus) returns (ok: bool)
      requires Valid()
      modifies this
      ensures Valid()
      ensures (emails, ok) == Database.SetEmailStatus(old(emails), msgId, rc)
      ensures State() == old(State()).(emails := emails)
    {
      var status := Database.GetEmailStatus(emails, msgId);
      if msgId == None || msgId.value == "" {
        return false;
      }
      var row := EmailRow(msgId.value, rc.date, rc.status);
      EmailIdExact(emails, msgId.value);
      if status == None {
        emails := emails + [row];
      } else {
        emails := emails[EmailId(emails, msgId.value) - 1 := row];
      }
      return true;
    }

    /** `getEmailId(msgId, isRetry)`, with the retry argument present or absent. */
    method GetEmailId(msgId: string, isRetry: bool) returns (id: nat)
      requires Valid()
      modifies this
      decreases !isRetry
      ensures Valid()
      ensures Got(emails, id) == Database.GetEmailId(old(emails), msgId, isRetry)
      ensures State() == old(State()).(emails := emails)
    {
      id := EmailId(emails, msgId);
      if id > 0 {
        return;
      }
      if isRetry {
        return 0;
      }
      EmailIdExact(emails, msgId);
      emails := emails + [EmailRow(msgId, 0, 0)];
      id := GetEmailId(msgId, true);
    }

    /** `getTagId(raw, type, hash, indicator, isRetry)`. */
    method GetTagId(raw: string, tagType: string, hash: string, indicator: int, isRetry: bool) returns (id: nat)
      requires Valid()
      modifies this
      decreases !isRetry
      ensures Valid()
      ensures Got(tags, id) == Database.GetTagId(old(tags), raw, tagType, hash, indicator, isRetry)
      ensures State() == old(State()).(tags := tags)
    {
      id := TagId(tags, raw, tagType);
      if id > 0 {
        return;
      }
      if isRetry {
        return 0;
      }
      TagIdExact(tags, raw, tagType);
      tags := tags + [TagRow(raw, tagType, hash, indicator)];
      id := GetTagId(raw, tagType, hash, indicator, true);
    }

    /** `getEmailTagId(emailId, tagId, isRetry)`. */
    method GetEmailTagId(email: int, tag: int, isRetry: bool) returns (id: nat)
      requires Valid()
      modifies this
      decreases !isRetry
      ensures Valid()
      ensures Got(emailTags, id) == Database.GetEmailTagId(old(emailTags), email, tag, isRetry)
      ensures State() == old(State()).(emailTags := emailTags)
    {
      id := EmailTagId(emailTags, email, tag);
      if id > 0 {
        return;
      }
      if isRetry {
        return 0;
      }
      EmailTagIdExact(emailTags, email, tag);
      emailTags := emailTags + [EmailTagRow(email, tag)];
      id := GetEmailTagId(email, tag, true);
    }

    /** `recordIncident(emailTagId)` at time `now` (the source reads the clock). */
    method RecordIncident(emailTag: int, now: int)
      requires Valid()
      modifies this
      ensures Valid()
      ensures State() == old(State()).(incidents := Database.RecordIncident(old(incidents), emailTag, now))
    {
      IncidentIdExact(incidents, emailTag);
      if IncidentId(incidents, emailTag) == 0 {
        incidents := incidents + [IncidentRow(now, emailTag, 0)];
      }
    }

    /** `resolveTagIndicator(tagId, indicatorId)`. */
    method ResolveTagIndicator(tagId: int, indicatorId: int)
      requires Valid()
      modifies this
      ensures Valid()
      ensures State() == old(State()).(tags := Database.ResolveTagIndicator(old(tags), tagId, indicatorId))
    {
      if 1 <= tagId <= |tags| {
        tags := tags[tagId - 1 := tags[tagId - 1].(indicator := indicatorId)];
      }
    }

    /** `setReported(id, flag)`. */
    method SetReported(id: int, flag: int)
      requires Valid()
      modifies this
      ensures Valid()
      ensures State() == old(State()).(incidents := Database.SetReported(old(incidents), id, flag))
    {
      if 1 <= id <= |incidents| {
        incidents := incidents[id - 1 := incidents[id - 1].(reported := flag)];
      }
    }

    /** `getPendingTags()`: the result rows one step at a time. */
    method GetPendingTags() returns (result: seq<PendingTag>)
      ensures result == PendingTags(tags, |tags|)
      ensures forall x :: x in result <==>
                1 <= x.id <= |tags| && tags[x.id - 1].indicator == 0 && x.hash == tags[x.id - 1].hash
    {
      result := [];
      for i := 0 to |tags|
        invariant result == PendingTags(tags, i)
      {
        if tags[i].indicator == 0 {
          result := result + [PendingTag(i + 1, tags[i].hash)];
        }
      }
      PendingTagsExact(tags, |tags|);
    }

    /** `getIncidents(unreported)`: the rows of `v_incidents`, restricted to reported = 0 on request. */
    method GetIncidents(unreported: bool) returns (result: seq<Incident>)
      ensures result == Incidents(State(), unreported, |incidents|)
    {
      result := [];
      for i := 0 to |incidents|
        invariant result == Incidents(State(), unreported, i)
      {
        var row := IncidentView(State(), i + 1);
        if row.Some? && (!unreported || incidents[i].reported == 0) {
          result := result + [row.value];
        }
      }
    }

    /** `getIndications(msgId)`: the rows of `v_indications` for one email. */
    method GetIndications(msgId: string) returns (result: seq<Indication>)
      ensures result == Indications(State(), msgId, |incidents|)
    {
      result := [];
      for i := 0 to |incidents|
        invariant result == Indications(State(), msgId, i)
      {
        var row := IndicationView(State(), i + 1);
        if row.Some? && row.value.0 == msgId {
          result := result + [row.value.1];
        }
      }
    }

    /** `getEmailsWithTag(tagId)`: the rows of `v_email_tags` for one tag. */
    method GetEmailsWithTag(tagId: int) returns (result: seq<TaggedEmail>)
      ensures result == EmailsWithTag(State(), tagId, |emailTags|)
    {
      result := [];
      for i := 0 to |emailTags|
        invariant result == EmailsWithTag(State(), tagId, i)
      {
        var et := emailTags[i];
        var email := RowById(emails, et.email);
        if et.tag == tagId && RowById(tags, et.tag).Some? && email.Some? {
          result := result + [TaggedEmail(i + 1, email.value.messageId)];
        }
      }
    }
  }
}
