// `pdInspectEMail`: the scan of one email's headers and MIME parts into a
// tag list and a summary of indications, followed by the recording of the
// tags, email tags and incidents in the database.
//
// The email's database id is looked up with `getEmailId(msgId, label)`. The
// label sits where `getEmailId` expects its retry flag, so a message that
// is not yet stored is never inserted and the inspection ends with null.
// `InspectWith` takes that flag as a parameter: `true` is the call as
// written, `false` the get-or-create the rest of the function relies on,
// which is what `InspectEMail` runs.
module Inspect {
  import opened Js
  import opened Database
  import opened DatabaseStore
  import opened Tagging
  import opened Mime

  /** A parsed message: its headers, each a list of values, and its top-level MIME parts. */
  datatype Email = Email(headers: map<string, seq<string>>, parts: seq<Part>)

  /** The object `pdInspectEMail` returns. */
  datatype Inspection = Inspection(phish: bool, date: int, indications: seq<string>)

  /** The hit count and the total of one group of headers, as an indication line shows them. */
  datatype Score = Score(count: nat, total: nat)

  /** The result of an inspection and the tables after it. */
  datatype Inspected = Inspected(result: Option<Inspection>, tables: Tables)

  /** `email.headers[name]`, none for `undefined`. */
  function Header(email: Email, name: string): Option<seq<string>>
  {
    if name in email.headers then Some(email.headers[name]) else None
  }

  /** An indication line such as `Sender (1/2)`. */
  function Entry(name: string, count: int, total: int): string
  {
    name + " (" + Decimal(count) + "/" + Decimal(total) + ")"
  }

  function Hit(b: bool): nat
  {
    if b then 1 else 0
  }

  /** The address checks of the values of a header, one per value, as `forEach` runs them. */
  function AddressChecks(env: Env, indicators: seq<IndicatorRow>, items: seq<string>, tagType: string): (r: seq<Checked<bool>>)
    ensures |r| == |items|
  {
    if items == [] then []
    else AddressChecks(env, indicators, items[..|items| - 1], tagType) + [AddressCheck(env, indicators, items[|items| - 1], tagType)]
  }

  /** The `i`-th check of a `forEach` is the check of the `i`-th value. */
  lemma {:induction false} AddressChecksAt(env: Env, indicators: seq<IndicatorRow>, items: seq<string>, tagType: string, i: nat)
    requires i < |items|
    ensures AddressChecks(env, indicators, items, tagType)[i] == AddressCheck(env, indicators, items[i], tagType)
  {
    if i < |items| - 1 {
      AddressChecksAt(env, indicators, items[..|items| - 1], tagType, i);
    }
  }

  /** The first `n` checks of a `forEach`: their tags, in order, and the number of hits. */
  function CountHits(checks: seq<Checked<bool>>, n: nat): Checked<nat>
    requires n <= |checks|
  {
    if n == 0 then Checked([], 0)
    else
      var before := CountHits(checks, n - 1);
      Checked(before.tags + checks[n - 1].tags, before.value + Hit(checks[n - 1].value))
  }

  /** One more check appends its tags to the list and adds its hit to the count. */
  lemma CountHitsStep(checks: seq<Checked<bool>>, i: nat, start: seq<Tag>, data: seq<Tag>, count: nat)
    requires i < |checks| && data == start + CountHits(checks, i).tags && count == CountHits(checks, i).value
    ensures data + checks[i].tags == start + CountHits(checks, i + 1).tags
    ensures count + Hit(checks[i].value) == CountHits(checks, i + 1).value
  {
  }

  /** The `from` header, checked as one array, and each `sender` value; the total starts at 1 for `from`. */
  function SenderSection(env: Env, indicators: seq<IndicatorRow>, from: seq<string>, sender: Option<seq<string>>): Checked<Score>
  {
    var f := AddressesCheck(env, indicators, from, "email_from");
    match sender
    case None => Checked(f.tags, Score(Hit(f.value), 1))
    case Some(s) =>
      var h := CountHits(AddressChecks(env, indicators, s, "email_sender"), |s|);
      Checked(f.tags + h.tags, Score(Hit(f.value) + h.value, 1 + |s|))
  }

  /** The `reply-to` header, checked as one array counting 1, and each `return-path` value. */
  function ReplySection(env: Env, indicators: seq<IndicatorRow>, replyTo: Option<seq<string>>,
                        returnPath: Option<seq<string>>): Checked<Score>
  {
    var r := match replyTo
      case None => Checked([], Score(0, 0))
      case Some(l) =>
        var c := AddressesCheck(env, indicators, l, "email_replyto");
        Checked(c.tags, Score(Hit(c.value), 1));
    match returnPath
    case None => r
    case Some(l) =>
      var h := CountHits(AddressChecks(env, indicators, l, "email_return"), |l|);
      Checked(r.tags + h.tags, Score(r.value.count + h.value, r.value.total + |l|))
  }

  /** `pdCheckMailHop(list, hop)`: no hop is ever reported. */
  function MailHop(hop: string): bool
  {
    false
  }

  /** The hits among the first `n` hops. */
  function CountHops(hops: seq<string>, n: nat): nat
    requires n <= |hops|
  {
    if n == 0 then 0 else CountHops(hops, n - 1) + Hit(MailHop(hops[n - 1]))
  }

  /** The `received` and `x-received` headers. */
  function HopSection(received: Option<seq<string>>, xReceived: Option<seq<string>>): Score
  {
    var a := match received
      case None => Score(0, 0)
      case Some(l) => Score(CountHops(l, |l|), |l|);
    match xReceived
    case None => a
    case Some(l) => Score(a.count + CountHops(l, |l|), a.total + |l|)
  }

  /** `email.parts.forEach(pdCheckMIMEPart)` over the first `n` parts, all adding to one `rc`. */
  function PartsScan(env: Env, indicators: seq<IndicatorRow>, parts: seq<Part>, n: nat): Checked<Counts>
    requires n <= |parts|
  {
    if n == 0 then Checked([], Zero)
    else
      var before := PartsScan(env, indicators, parts, n - 1);
      var c := MimeCheck(env, indicators, parts[n - 1]);
      Checked(before.tags + c.tags, Plus(before.value, c.value))
  }

  /** The indication list: one line per group with at least one hit, in this order. */
  function Summary(s: Score, r: Score, h: Score, c: Counts): seq<string>
  {
    (if s.count > 0 then [Entry("Sender", s.count, s.total)] else [])
    + (if r.count > 0 then [Entry("ReplyTo", r.count, r.total)] else [])
    + (if h.count > 0 then [Entry("Mail hops", h.count, h.total)] else [])
    + (if c.countLinks > 0 then [Entry("Links", c.countLinks, c.totalLinks)] else [])
    + (if c.countEmail > 0 then [Entry("Email addresses", c.countEmail, c.totalEmail)] else [])
  }

  /** The scan before the database is touched: the tag list and the indications; reading `from.length` throws when there is no `from`. */
  function Gather(env: Env, indicators: seq<IndicatorRow>, email: Email): Outcome<Checked<seq<string>>>
  {
    match Header(email, "from")
    case None => Threw
    case Some(from) =>
      var s := SenderSection(env, indicators, from, Header(email, "sender"));
      var r := ReplySection(env, indicators, Header(email, "reply-to"), Header(email, "return-path"));
      var h := HopSection(Header(email, "received"), Header(email, "x-received"));
      var m := PartsScan(env, indicators, email.parts, |email.parts|);
      Returned(Checked(s.tags + r.tags + m.tags, Summary(s.value, r.value, h, m.value)))
  }

  /** One turn of the tag loop: the tag row, the email tag row, and for an indicator the incident. */
  function RecordTag(t: Tables, emailId: nat, tag: Tag, now: int): Tables
  {
    var g := GetTagId(t.tags, tag.raw, tag.tagType, tag.hash, tag.indicator, false);
    var e := GetEmailTagId(t.emailTags, emailId, g.id, false);
    t.(tags := g.rows, emailTags := e.rows,
       incidents := if tag.indicator != 0 then RecordIncident(t.incidents, e.id, now) else t.incidents)
  }

  /** The tag loop over the first `n` tags. */
  function RecordTags(t: Tables, emailId: nat, tags: seq<Tag>, n: nat, now: int): Tables
    requires n <= |tags|
  {
    if n == 0 then t else RecordTag(RecordTags(t, emailId, tags, n - 1, now), emailId, tags[n - 1], now)
  }

  /**
   * `pdInspectEMail(email)` at time `now`, with `lookupOnly` in the retry
   * position of `getEmailId`. An empty `message-id` list finds no email.
   */
  function InspectWith(env: Env, t: Tables, email: Email, now: int, lookupOnly: bool): Outcome<Inspected>
  {
    if "message-id" !in email.headers then Returned(Inspected(None, t))
    else
      match Gather(env, t.indicators, email)
      case Threw => Threw
      case Returned(g) =>
        var ids := email.headers["message-id"];
        var e := if |ids| == 0 then Got(t.emails, 0) else GetEmailId(t.emails, ids[0], lookupOnly);
        if e.id == 0 then Returned(Inspected(None, t.(emails := e.rows)))
        else
          Returned(Inspected(Some(Inspection(|g.value| > 0, now, g.value)),
                             RecordTags(t.(emails := e.rows), e.id, g.tags, |g.tags|, now)))
  }

  // ---------------------------------------------------------------------
  // Properties of the scan
  // ---------------------------------------------------------------------

  /** A header's hit count is at most its number of values, and positive exactly when one of them is a hit. */
  lemma {:induction false} CountHitsExact(checks: seq<Checked<bool>>, n: nat)
    requires n <= |checks|
    ensures CountHits(checks, n).value <= n
    ensures CountHits(checks, n).value > 0 <==> exists i :: 0 <= i < n && checks[i].value
    decreases n
  {
    if n > 0 {
      CountHitsExact(checks, n - 1);
    }
  }

  /** No hop is ever counted. */
  lemma {:induction false} CountHopsZero(hops: seq<string>, n: nat)
    requires n <= |hops|
    ensures CountHops(hops, n) == 0
    decreases n
  {
    if n > 0 {
      CountHopsZero(hops, n - 1);
    }
  }

  /** The sender line counts at most its total, and has a hit exactly when `from` or one `sender` value is a hit. */
  lemma SenderSectionExact(env: Env, indicators: seq<IndicatorRow>, from: seq<string>, sender: Option<seq<string>>)
    ensures var s := SenderSection(env, indicators, from, sender).value;
      s.count <= s.total
      && (s.count > 0 <==> AddressesCheck(env, indicators, from, "email_from").value
                           || (sender.Some? &&
                                 exists i :: 0 <= i < |sender.value|
                                   && AddressCheck(env, indicators, sender.value[i], "email_sender").value))
  {
    if sender.Some? {
      var items := sender.value;
      CountHitsExact(AddressChecks(env, indicators, items, "email_sender"), |items|);
      forall i | 0 <= i < |items| {
        AddressChecksAt(env, indicators, items, "email_sender", i);
      }
    }
  }

  /** The reply-to line counts at most its total, and has a hit exactly when `reply-to` or one `return-path` value is a hit. */
  lemma ReplySectionExact(env: Env, indicators: seq<IndicatorRow>, replyTo: Option<seq<string>>,
                          returnPath: Option<seq<string>>)
    ensures var r := ReplySection(env, indicators, replyTo, returnPath).value;
      r.count <= r.total
      && (r.count > 0 <==> (replyTo.Some? && AddressesCheck(env, indicators, replyTo.value, "email_replyto").value)
                           || (returnPath.Some? &&
                                 exists i :: 0 <= i < |returnPath.value|
                                   && AddressCheck(env, indicators, returnPath.value[i], "email_return").value))
  {
    if returnPath.Some? {
      var items := returnPath.value;
      CountHitsExact(AddressChecks(env, indicators, items, "email_return"), |items|);
      forall i | 0 <= i < |items| {
        AddressChecksAt(env, indicators, items, "email_return", i);
      }
    }
  }

  /** The hop section never has a hit. */
  lemma HopSectionQuiet(received: Option<seq<string>>, xReceived: Option<seq<string>>)
    ensures HopSection(received, xReceived).count == 0
  {
    if received.Some? {
      CountHopsZero(received.value, |received.value|);
    }
    if xReceived.Some? {
      CountHopsZero(xReceived.value, |xReceived.value|);
    }
  }

  /** What the parts add to `rc` keeps hits within totals. */
  lemma {:induction false} PartsScanBounded(env: Env, indicators: seq<IndicatorRow>, parts: seq<Part>, n: nat)
    requires n <= |parts|
    ensures Bounded(PartsScan(env, indicators, parts, n).value)
    decreases n
  {
    if n > 0 {
      PartsScanBounded(env, indicators, parts, n - 1);
      MimeCheckBounded(env, indicators, parts[n - 1]);
    }
  }

  /**
   * The indications are non-empty exactly when a sender, a reply-to, a link
   * or an address in the body was a hit; no line is ever about mail hops,
   * and there are at most four lines.
   */
  /** `Gather` once a `from` header is there, in terms of the four scans. */
  lemma GatherOf(env: Env, indicators: seq<IndicatorRow>, email: Email, from: seq<string>)
    requires Header(email, "from") == Some(from)
    ensures var s := SenderSection(env, indicators, from, Header(email, "sender"));
      var r := ReplySection(env, indicators, Header(email, "reply-to"), Header(email, "return-path"));
      var h := HopSection(Header(email, "received"), Header(email, "x-received"));
      var m := PartsScan(env, indicators, email.parts, |email.parts|);
      Gather(env, indicators, email) == Returned(Checked(s.tags + r.tags + m.tags, Summary(s.value, r.value, h, m.value)))
  {
  }

  /** A string whose first character differs from that of `p` does not start with `p`. */
  lemma NotPrefixed(s: string, p: string)
    requires |s| > 0 && |p| > 0 && s[0] != p[0]
    ensures !StartsWith(s, p)
  {
  }

  /** An indication line starts with its group's name. */
  lemma EntryStarts(name: string, count: int, total: int)
    ensures StartsWith(Entry(name, count, total), name)
  {
    assert Entry(name, count, total)[..|name|] == name;
  }

  /**
   * Without hop hits the summary has a line exactly when some group has a
   * hit, at most four lines, and none about mail hops.
   */
  lemma SummaryShape(s: Score, r: Score, h: Score, c: Counts)
    requires h.count == 0
    ensures var lines := Summary(s, r, h, c);
      (|lines| > 0 <==> s.count > 0 || r.count > 0 || c.countLinks > 0 || c.countEmail > 0)
      && |lines| <= 4
      && (forall i :: 0 <= i < |lines| ==> !StartsWith(lines[i], "Mail hops"))
  {
    var lines := Summary(s, r, h, c);
    forall i | 0 <= i < |lines|
      ensures !StartsWith(lines[i], "Mail hops")
    {
      EntryStarts("Sender", s.count, s.total);
      EntryStarts("ReplyTo", r.count, r.total);
      EntryStarts("Links", c.countLinks, c.totalLinks);
      EntryStarts("Email addresses", c.countEmail, c.totalEmail);
      assert |lines[i]| > 0 && lines[i][0] in {'S', 'R', 'L', 'E'};
      assert "Mail hops"[0] == 'M';
      NotPrefixed(lines[i], "Mail hops");
    }
  }

  /**
   * The indications are non-empty exactly when a sender, a reply-to, a link
   * or an address in the body was a hit; no line is ever about mail hops,
   * and there are at most four lines.
   */
  lemma GatherSummary(env: Env, indicators: seq<IndicatorRow>, email: Email)
    requires Header(email, "from").Some?
    ensures Gather(env, indicators, email).Returned?
    ensures var g := Gather(env, indicators, email).value;
      var s := SenderSection(env, indicators, Header(email, "from").value, Header(email, "sender")).value;
      var r := ReplySection(env, indicators, Header(email, "reply-to"), Header(email, "return-path")).value;
      var m := PartsScan(env, indicators, email.parts, |email.parts|).value;
      (|g.value| > 0 <==> s.count > 0 || r.count > 0 || m.countLinks > 0 || m.countEmail > 0)
      && |g.value| <= 4
      && (forall i :: 0 <= i < |g.value| ==> !StartsWith(g.value[i], "Mail hops"))
  {
    var h := HopSection(Header(email, "received"), Header(email, "x-received"));
    HopSectionQuiet(Header(email, "received"), Header(email, "x-received"));
    var s := SenderSection(env, indicators, Header(email, "from").value, Header(email, "sender")).value;
    var r := ReplySection(env, indicators, Header(email, "reply-to"), Header(email, "return-path")).value;
    var m := PartsScan(env, indicators, email.parts, |email.parts|).value;
    SummaryShape(s, r, h, m);
    var lines := Summary(s, r, h, m);
    GatherOf(env, indicators, email, Header(email, "from").value);
  }

  /** Without a `from` header the inspection throws. */
  lemma GatherNeedsFrom(env: Env, indicators: seq<IndicatorRow>, email: Email)
    requires Header(email, "from").None?
    ensures Gather(env, indicators, email) == Threw
  {
  }

  // ---------------------------------------------------------------------
  // Properties of the recording
  // ---------------------------------------------------------------------

  /**
   * A tag row with the tag's raw text and type, an email tag row joining
   * email `emailId` to that tag row, and an incident on that email tag are
   * all stored.
   */
  predicate Recorded(t: Tables, emailId: nat, tag: Tag)
  {
    exists a, b, c :: 0 <= a < |t.tags| && 0 <= b < |t.emailTags| && 0 <= c < |t.incidents|
      && t.tags[a].raw == tag.raw && t.tags[a].tagType == tag.tagType
      && t.emailTags[b] == EmailTagRow(emailId, a + 1)
      && t.incidents[c].emailTag == b + 1
  }

  /** `t'` only appends rows to the tags, email tags and incidents of `t`. */
  predicate Grows(t: Tables, t': Tables)
  {
    t'.indicators == t.indicators && t'.emails == t.emails
    && |t.tags| <= |t'.tags| && (forall i :: 0 <= i < |t.tags| ==> t'.tags[i] == t.tags[i])
    && |t.emailTags| <= |t'.emailTags| && (forall i :: 0 <= i < |t.emailTags| ==> t'.emailTags[i] == t.emailTags[i])
    && |t.incidents| <= |t'.incidents| && (forall i :: 0 <= i < |t.incidents| ==> t'.incidents[i] == t.incidents[i])
  }

  /** Rows `a`, `b` and `c` of the three tables witness that `tag` is recorded. */
  lemma RecordedAt(t: Tables, emailId: nat, tag: Tag, a: nat, b: nat, c: nat)
    requires a < |t.tags| && b < |t.emailTags| && c < |t.incidents|
    requires t.tags[a].raw == tag.raw && t.tags[a].tagType == tag.tagType
    requires t.emailTags[b] == EmailTagRow(emailId, a + 1) && t.incidents[c].emailTag == b + 1
    ensures Recorded(t, emailId, tag)
  {
  }

  /** What is recorded stays recorded when rows are appended. */
  lemma RecordedStable(t: Tables, t': Tables, emailId: nat, tag: Tag)
    requires Grows(t, t') && Recorded(t, emailId, tag)
    ensures Recorded(t', emailId, tag)
  {
    var a, b, c :| 0 <= a < |t.tags| && 0 <= b < |t.emailTags| && 0 <= c < |t.incidents|
      && t.tags[a].raw == tag.raw && t.tags[a].tagType == tag.tagType
      && t.emailTags[b] == EmailTagRow(emailId, a + 1)
      && t.incidents[c].emailTag == b + 1;
    assert t'.tags[a] == t.tags[a] && t'.emailTags[b] == t.emailTags[b] && t'.incidents[c] == t.incidents[c];
  }

  /** One turn of the tag loop only appends rows. */
  lemma RecordTagGrows(t: Tables, emailId: nat, tag: Tag, now: int)
    ensures Grows(t, RecordTag(t, emailId, tag, now))
  {
    GetTagIdKeepsExisting(t.tags, tag.raw, tag.tagType, tag.hash, tag.indicator);
    var g := GetTagId(t.tags, tag.raw, tag.tagType, tag.hash, tag.indicator, false);
    GetEmailTagIdCreates(t.emailTags, emailId, g.id);
  }

  /** One turn of the tag loop only appends rows, and records an indicator tag. */
  lemma RecordTagRecords(t: Tables, emailId: nat, tag: Tag, now: int)
    ensures Grows(t, RecordTag(t, emailId, tag, now))
    ensures tag.indicator != 0 ==> Recorded(RecordTag(t, emailId, tag, now), emailId, tag)
  {
    RecordTagGrows(t, emailId, tag, now);
    if tag.indicator != 0 {
      GetTagIdKeepsExisting(t.tags, tag.raw, tag.tagType, tag.hash, tag.indicator);
      var g := GetTagId(t.tags, tag.raw, tag.tagType, tag.hash, tag.indicator, false);
      GetEmailTagIdCreates(t.emailTags, emailId, g.id);
      var e := GetEmailTagId(t.emailTags, emailId, g.id, false);
      var inc := RecordIncident(t.incidents, e.id, now);
      IncidentIdExact(t.incidents, e.id);
      var c := if IncidentId(t.incidents, e.id) == 0 then |t.incidents| else IncidentId(t.incidents, e.id) - 1;
      assert inc[c].emailTag == e.id;
      var t' := RecordTag(t, emailId, tag, now);
      assert t'.tags == g.rows && t'.emailTags == e.rows && t'.incidents == inc;
      RecordedAt(t', emailId, tag, g.id - 1, e.id - 1, c);
    }
  }

  /** Appending is transitive. */
  lemma GrowsTrans(t: Tables, t': Tables, t'': Tables)
    requires Grows(t, t') && Grows(t', t'')
    ensures Grows(t, t'')
  {
  }

  /** After the tag loop every tag that matched an indicator has its tag row, its email tag row and its incident. */
  lemma {:induction false} RecordTagsRecords(t: Tables, emailId: nat, tags: seq<Tag>, n: nat, now: int)
    requires n <= |tags|
    ensures Grows(t, RecordTags(t, emailId, tags, n, now))
    ensures forall k :: 0 <= k < n && tags[k].indicator != 0 ==> Recorded(RecordTags(t, emailId, tags, n, now), emailId, tags[k])
    decreases n
  {
    if n > 0 {
      RecordTagsRecords(t, emailId, tags, n - 1, now);
      var before := RecordTags(t, emailId, tags, n - 1, now);
      var after := RecordTags(t, emailId, tags, n, now);
      RecordTagRecords(before, emailId, tags[n - 1], now);
      GrowsTrans(t, before, after);
      forall k | 0 <= k < n - 1 && tags[k].indicator != 0
        ensures Recorded(after, emailId, tags[k])
      {
        RecordedStable(before, after, emailId, tags[k]);
      }
    }
  }

  /**
   * The call as written (the label in the retry position) never stores a
   * new email: for a message that is not in the database yet the result is
   * null and no tag, email tag or incident is recorded, whatever matched.
   */
  lemma AsWrittenDropsNewEmails(env: Env, t: Tables, email: Email, now: int)
    requires "message-id" in email.headers && |email.headers["message-id"]| > 0
    requires EmailId(t.emails, email.headers["message-id"][0]) == 0
    ensures InspectWith(env, t, email, now, true) == Threw
            || InspectWith(env, t, email, now, true) == Returned(Inspected(None, t))
  {
    GetEmailIdRetryNeverInserts(t.emails, email.headers["message-id"][0]);
  }

  /**
   * With get-or-create, an email with a `message-id` and a `from` header
   * always yields an inspection: `phish` is true exactly when there are
   * indications, the date is the inspection time, the email is stored, and
   * every tag that matched an indicator has its incident.
   */
  lemma InspectRecordsIncidents(env: Env, t: Tables, email: Email, now: int)
    requires "message-id" in email.headers && |email.headers["message-id"]| > 0
    requires Header(email, "from").Some?
    ensures var r := InspectWith(env, t, email, now, false);
      var g := Gather(env, t.indicators, email).value;
      var msgId := email.headers["message-id"][0];
      r.Returned? && r.value.result.Some?
      && r.value.result.value.phish == (|r.value.result.value.indications| > 0)
      && r.value.result.value.date == now
      && r.value.result.value.indications == g.value
      && EmailId(r.value.tables.emails, msgId) > 0
      && forall k :: 0 <= k < |g.tags| && g.tags[k].indicator != 0 ==>
           Recorded(r.value.tables, EmailId(r.value.tables.emails, msgId), g.tags[k])
  {
    var msgId := email.headers["message-id"][0];
    GetEmailIdCreates(t.emails, msgId);
    var e := GetEmailId(t.emails, msgId, false);
    assert EmailId(e.rows, msgId) == e.id;
    var g := Gather(env, t.indicators, email).value;
    RecordTagsRecords(t.(emails := e.rows), e.id, g.tags, |g.tags|, now);
  }

  // ---------------------------------------------------------------------
  // The inspection as it runs
  // ---------------------------------------------------------------------

  /** The `forEach` callback: check one value with `pdCheckEmailAddress` and count it when it is a hit. */
  method CountIfHit(env: Env, indicators: seq<IndicatorRow>, list: TagList, items: seq<string>, tagType: string,
                    ghost checks: seq<Checked<bool>>, i: nat, count: nat)
    returns (count': nat)
    requires checks == AddressChecks(env, indicators, items, tagType) && i < |items|
    modifies list
    ensures list.data == old(list.data) + checks[i].tags
    ensures count' == count + Hit(checks[i].value)
  {
    AddressChecksAt(env, indicators, items, tagType, i);
    var hit := CheckAddress(env, indicators, list, items[i], tagType);
    count' := if hit then count + 1 else count;
  }

  /** `forEach` over the values of a header, each checked with `pdCheckEmailAddress`, counting hits. */
  method CountAddressHits(env: Env, indicators: seq<IndicatorRow>, list: TagList, items: seq<string>, tagType: string)
    returns (count: nat)
    modifies list
    ensures list.data == old(list.data) + CountHits(AddressChecks(env, indicators, items, tagType), |items|).tags
    ensures count == CountHits(AddressChecks(env, indicators, items, tagType), |items|).value
  {
    ghost var checks := AddressChecks(env, indicators, items, tagType);
    count := 0;
    for i := 0 to |items|
      invariant list.data == old(list.data) + CountHits(checks, i).tags
      invariant count == CountHits(checks, i).value
    {
      CountHitsStep(checks, i, old(list.data), list.data, count);
      count := CountIfHit(env, indicators, list, items, tagType, checks, i, count);
    }
  }

  /** The sender block: `from`, then every `sender` value. */
  method ScanSenders(env: Env, indicators: seq<IndicatorRow>, list: TagList, from: seq<string>, sender: Option<seq<string>>)
    returns (score: Score)
    modifies list
    ensures list.data == old(list.data) + SenderSection(env, indicators, from, sender).tags
    ensures score == SenderSection(env, indicators, from, sender).value
  {
    var count, total := 0, 1;
    var hit := CheckEmailAddress(env, indicators, list, Many(from), "email_from");
    if hit {
      count := count + 1;
    }
    if sender.Some? {
      total := total + |sender.value|;
      var hits := CountAddressHits(env, indicators, list, sender.value, "email_sender");
      count := count + hits;
      AppendTwice(old(list.data), AddressesCheck(env, indicators, from, "email_from").tags,
                  CountHits(AddressChecks(env, indicators, sender.value, "email_sender"), |sender.value|).tags);
    }
    score := Score(count, total);
  }

  /** The reply-to block: `reply-to`, then every `return-path` value. */
  method ScanReplies(env: Env, indicators: seq<IndicatorRow>, list: TagList, replyTo: Option<seq<string>>,
                     returnPath: Option<seq<string>>)
    returns (score: Score)
    modifies list
    ensures list.data == old(list.data) + ReplySection(env, indicators, replyTo, returnPath).tags
    ensures score == ReplySection(env, indicators, replyTo, returnPath).value
  {
    var count, total := 0, 0;
    ghost var first: seq<Tag> := [];
    if replyTo.Some? {
      total := 1;
      var hit := CheckEmailAddress(env, indicators, list, Many(replyTo.value), "email_replyto");
      if hit {
        count := count + 1;
      }
      first := AddressesCheck(env, indicators, replyTo.value, "email_replyto").tags;
    }
    assert list.data == old(list.data) + first;
    if returnPath.Some? {
      total := total + |returnPath.value|;
      var hits := CountAddressHits(env, indicators, list, returnPath.value, "email_return");
      count := count + hits;
      AppendTwice(old(list.data), first,
                  CountHits(AddressChecks(env, indicators, returnPath.value, "email_return"), |returnPath.value|).tags);
    }
    score := Score(count, total);
  }

  /** One `forEach` over hops. */
  method CountHopHits(hops: seq<string>) returns (count: int)
    ensures count == CountHops(hops, |hops|)
  {
    count := 0;
    for i := 0 to |hops|
      invariant count == CountHops(hops, i)
    {
      if MailHop(hops[i]) {
        count := count + 1;
      }
    }
  }

  /** The hop block: `received`, then `x-received`. */
  method ScanHops(received: Option<seq<string>>, xReceived: Option<seq<string>>) returns (score: Score)
    ensures score == HopSection(received, xReceived)
  {
    var count, total := 0, 0;
    if received.Some? {
      total := total + |received.value|;
      var hits := CountHopHits(received.value);
      count := count + hits;
    }
    if xReceived.Some? {
      total := total + |xReceived.value|;
      var hits := CountHopHits(xReceived.value);
      count := count + hits;
    }
    score := Score(count, total);
  }

  /** `email.parts.forEach(part => pdCheckMIMEPart(tagList, part, rc, false))`. */
  method ScanParts(env: Env, indicators: seq<IndicatorRow>, list: TagList, parts: seq<Part>, rc: Counters)
    modifies list, rc
    ensures list.data == old(list.data) + PartsScan(env, indicators, parts, |parts|).tags
    ensures rc.Get() == Plus(old(rc.Get()), PartsScan(env, indicators, parts, |parts|).value)
  {
    for i := 0 to |parts|
      invariant list.data == old(list.data) + PartsScan(env, indicators, parts, i).tags
      invariant rc.Get() == Plus(old(rc.Get()), PartsScan(env, indicators, parts, i).value)
    {
      ghost var before := PartsScan(env, indicators, parts, i).tags;
      CheckMIMEPart(env, indicators, list, parts[i], rc);
      AppendTwice(old(list.data), before, MimeCheck(env, indicators, parts[i]).tags);
    }
  }

  /** The `indications` pushes, one per group with a hit. */
  method SummaryLines(s: Score, r: Score, h: Score, c: Counts) returns (lines: seq<string>)
    ensures lines == Summary(s, r, h, c)
  {
    lines := [];
    ghost var a, b, d, e, f: seq<string> := [], [], [], [], [];
    if s.count > 0 {
      a := [Entry("Sender", s.count, s.total)];
      lines := lines + [Entry("Sender", s.count, s.total)];
    }
    assert lines == a;
    if r.count > 0 {
      b := [Entry("ReplyTo", r.count, r.total)];
      lines := lines + [Entry("ReplyTo", r.count, r.total)];
    }
    assert lines == a + b;
    if h.count > 0 {
      d := [Entry("Mail hops", h.count, h.total)];
      lines := lines + [Entry("Mail hops", h.count, h.total)];
    }
    assert lines == a + b + d;
    if c.countLinks > 0 {
      e := [Entry("Links", c.countLinks, c.totalLinks)];
      lines := lines + [Entry("Links", c.countLinks, c.totalLinks)];
    }
    assert lines == a + b + d + e;
    if c.countEmail > 0 {
      f := [Entry("Email addresses", c.countEmail, c.totalEmail)];
      lines := lines + [Entry("Email addresses", c.countEmail, c.totalEmail)];
    }
    assert lines == a + b + d + e + f;
  }

  /** The scan of headers and parts into a tag list and the indication lines. */
  method GatherTags(env: Env, indicators: seq<IndicatorRow>, email: Email, from: seq<string>)
    returns (tags: seq<Tag>, lines: seq<string>)
    requires Header(email, "from") == Some(from)
    ensures Gather(env, indicators, email) == Returned(Checked(tags, lines))
  {
    ghost var s := SenderSection(env, indicators, from, Header(email, "sender"));
    ghost var r := ReplySection(env, indicators, Header(email, "reply-to"), Header(email, "return-path"));
    ghost var m := PartsScan(env, indicators, email.parts, |email.parts|);
    var tagList := new TagList();
    var senders := ScanSenders(env, indicators, tagList, from, Header(email, "sender"));
    assert tagList.data == s.tags;
    var replies := ScanReplies(env, indicators, tagList, Header(email, "reply-to"), Header(email, "return-path"));
    assert tagList.data == s.tags + r.tags;
    var hops := ScanHops(Header(email, "received"), Header(email, "x-received"));
    var rc := new Counters();
    ScanParts(env, indicators, tagList, email.parts, rc);
    assert tagList.data == s.tags + r.tags + m.tags;
    assert rc.Get() == m.value;
    lines := SummaryLines(senders, replies, hops, rc.Get());
    tags := tagList.data;
    GatherOf(env, indicators, email, from);
  }

  /** The tag loop: get-or-create of each tag and its email tag, and an incident for each indicator. */
  method RecordTagList(db: Store, emailId: nat, tags: seq<Tag>, now: int)
    requires db.Valid()
    modifies db
    ensures db.Valid()
    ensures db.State() == RecordTags(old(db.State()), emailId, tags, |tags|, now)
  {
    for i := 0 to |tags|
      invariant db.Valid()
      invariant db.State() == RecordTags(old(db.State()), emailId, tags, i, now)
    {
      var tag := tags[i];
      var tagId := db.GetTagId(tag.raw, tag.tagType, tag.hash, tag.indicator, false);
      var emailTagId := db.GetEmailTagId(emailId, tagId, false);
      if tag.indicator != 0 {
        db.RecordIncident(emailTagId, now);
      }
    }
  }

  /** `pdInspectEMail(email)` at time `now`, storing a new email (the corrected retry argument). */
  method InspectEMail(env: Env, db: Store, email: Email, now: int) returns (r: Outcome<Option<Inspection>>)
    requires db.Valid()
    modifies db
    ensures db.Valid()
    ensures InspectWith(env, old(db.State()), email, now, false)
            == match r
               case Threw => Threw
               case Returned(v) => Returned(Inspected(v, db.State()))
  {
    if "message-id" !in email.headers {
      return Returned(None);
    }
    if "from" !in email.headers {
      return Threw;
    }
    var tags, lines := GatherTags(env, db.indicators, email, email.headers["from"]);
    var ids := email.headers["message-id"];
    var emailId := 0;
    if |ids| > 0 {
      emailId := db.GetEmailId(ids[0], false);
    }
    if emailId == 0 {
      return Returned(None);
    }
    RecordTagList(db, emailId, tags, now);
    return Returned(Some(Inspection(|lines| > 0, now, lines)));
  }
}
