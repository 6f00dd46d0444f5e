// `pdCheckMIMEPart`: which part of a MIME tree is scanned for links, and
// the link scan that feeds the link and address counters of an inspection.
// The two link expressions are not modelled; a body carries the strings
// they capture, in match order.
module Mime {
  import opened Js
  import opened Database
  import opened Tagging

  /** The captures over a body: the `href=` values of the HTML expression and the URLs of the plain-text one. */
  datatype Body = Body(hrefs: seq<string>, urls: seq<string>)

  /** A MIME part: its content type, its children and its body (none for `null`). */
  datatype Part = Part(contentType: string, parts: seq<Part>, body: Option<Body>)

  /** The counters of the `rc` object. */
  datatype Counts = Counts(countLinks: int, totalLinks: int, countEmail: int, totalEmail: int)

  const Zero := Counts(0, 0, 0, 0)

  function Plus(a: Counts, b: Counts): Counts
  {
    Counts(a.countLinks + b.countLinks, a.totalLinks + b.totalLinks,
           a.countEmail + b.countEmail, a.totalEmail + b.totalEmail)
  }

  /** Hits never exceed what was counted, and nothing is negative. */
  predicate Bounded(c: Counts)
  {
    0 <= c.countLinks <= c.totalLinks && 0 <= c.countEmail <= c.totalEmail
  }

  /** The types whose children are all scanned. */
  predicate IsComposite(contentType: string)
  {
    contentType == "multipart/report" || contentType == "multipart/signed" || contentType == "multipart/mixed"
  }

  predicate IsQuote(c: char)
  {
    c == '"' || c == '\''
  }

  /** The `replace` applied to an href: one quote is dropped at the start and one at the end. */
  function StripQuotes(s: string): string
  {
    var t := if |s| > 0 && IsQuote(s[0]) then s[1..] else s;
    if |t| > 0 && IsQuote(t[|t| - 1]) then t[..|t| - 1] else t
  }

  /**
   * The loop over the children of `multipart/alternative`, up to child `n`:
   * a `text/html` child always replaces the choice, a `text/plain` child is
   * taken only while nothing is chosen.
   */
  function Alternative(parts: seq<Part>, n: nat): Option<Part>
    requires n <= |parts|
  {
    if n == 0 then None
    else
      var chosen := Alternative(parts, n - 1);
      var p := parts[n - 1];
      if p.contentType == "text/plain" && chosen.None? then Some(p)
      else if p.contentType == "text/html" then Some(p)
      else chosen
  }

  /** The part whose body is scanned, for a part that is not composite. */
  function Usable(part: Part): Option<Part>
  {
    if part.contentType == "text/plain" || part.contentType == "text/html" then Some(part)
    else if part.contentType == "multipart/alternative" then Alternative(part.parts, |part.parts|)
    else None
  }

  /** The links found in the body of a chosen part, as handed to `processLink`. */
  function Links(p: Part): seq<string>
  {
    match p.body
    case None => []
    case Some(b) =>
      if p.contentType == "text/html" then seq(|b.hrefs|, i requires 0 <= i < |b.hrefs| => StripQuotes(b.hrefs[i]))
      else if p.contentType == "text/plain" then b.urls
      else []
  }

  /** What `processLink` adds to the counters for one `pdCheckLink` result. */
  function Tally(r: Option<LinkResult>): Counts
  {
    match r
    case None => Zero
    case Some(LinkResult(status, EmailMode)) => Counts(0, 0, if status then 1 else 0, 1)
    case Some(LinkResult(status, LinkMode)) => Counts(if status then 1 else 0, 1, 0, 0)
  }

  /** `processLink` over the first `n` links: the tags appended and the counts added. */
  function LinkScan(env: Env, indicators: seq<IndicatorRow>, links: seq<string>, n: nat): Checked<Counts>
    requires n <= |links|
  {
    if n == 0 then Checked([], Zero)
    else
      var before := LinkScan(env, indicators, links, n - 1);
      var c := LinkCheck(env, indicators, Str(links[n - 1]), "email_link");
      Checked(before.tags + c.tags, Plus(before.value, Tally(c.value)))
  }

  /** `pdCheckMIMEPart(list, part, rc, skip)`: the tags appended and the counts added. */
  function MimeCheck(env: Env, indicators: seq<IndicatorRow>, part: Part): Checked<Counts>
    decreases part, 1
  {
    if IsComposite(part.contentType) then ChildrenCheck(env, indicators, part, |part.parts|)
    else
      match Usable(part)
      case None => Checked([], Zero)
      case Some(p) => LinkScan(env, indicators, Links(p), |Links(p)|)
  }

  /** The recursion of a composite part over its first `n` children, in order. */
  function ChildrenCheck(env: Env, indicators: seq<IndicatorRow>, parent: Part, n: nat): Checked<Counts>
    requires n <= |parent.parts|
    decreases parent, 0, n
  {
    if n == 0 then Checked([], Zero)
    else
      var before := ChildrenCheck(env, indicators, parent, n - 1);
      var c := MimeCheck(env, indicators, parent.parts[n - 1]);
      Checked(before.tags + c.tags, Plus(before.value, c.value))
  }

  // ---------------------------------------------------------------------
  // Properties
  // ---------------------------------------------------------------------

  /** An href without surrounding quotes is used as it is; a quoted one loses exactly its two quotes. */
  lemma StripQuotesExact(s: string, q: char, q': char)
    ensures (|s| == 0 || (!IsQuote(s[0]) && !IsQuote(s[|s| - 1]))) ==> StripQuotes(s) == s
    ensures IsQuote(q) && IsQuote(q') ==> StripQuotes([q] + s + [q']) == s
  {
    if IsQuote(q) && IsQuote(q') {
      var w := [q] + s + [q'];
      assert w[1..] == s + [q'];
      assert (s + [q'])[..|s|] == s;
    }
  }

  /** The last `text/html` child of an alternative is the one scanned. */
  lemma {:induction false} AlternativeHtmlWins(parts: seq<Part>, n: nat, k: nat)
    requires k < n <= |parts|
    requires parts[k].contentType == "text/html"
    requires forall j :: k < j < n ==> parts[j].contentType != "text/html"
    ensures Alternative(parts, n) == Some(parts[k])
    decreases n
  {
    if n - 1 > k {
      AlternativeHtmlWins(parts, n - 1, k);
      if parts[n - 1].contentType == "text/plain" {
        assert Alternative(parts, n - 1).Some?;
      }
    }
  }

  /** Without a `text/html` child, the first `text/plain` child of an alternative is the one scanned. */
  lemma {:induction false} AlternativePlainFallback(parts: seq<Part>, n: nat, k: nat)
    requires k < n <= |parts|
    requires parts[k].contentType == "text/plain"
    requires forall j :: 0 <= j < n ==> parts[j].contentType != "text/html"
    requires forall j :: 0 <= j < k ==> parts[j].contentType != "text/plain"
    ensures Alternative(parts, n) == Some(parts[k])
    decreases n
  {
    if n - 1 > k {
      AlternativePlainFallback(parts, n - 1, k);
    } else {
      AlternativeNothing(parts, k);
    }
  }

  /** An alternative with neither a `text/plain` nor a `text/html` child scans nothing. */
  lemma {:induction false} AlternativeNothing(parts: seq<Part>, n: nat)
    requires n <= |parts|
    requires forall j :: 0 <= j < n ==> parts[j].contentType != "text/html" && parts[j].contentType != "text/plain"
    ensures Alternative(parts, n) == None
    decreases n
  {
    if n > 0 {
      AlternativeNothing(parts, n - 1);
    }
  }

  /** Adding counts that are bounded keeps the counters bounded. */
  lemma PlusBounded(a: Counts, b: Counts)
    requires Bounded(a) && Bounded(b)
    ensures Bounded(Plus(a, b))
  {
  }

  /** A link scan adds at most as many hits as links counted, for links and addresses alike. */
  lemma {:induction false} LinkScanBounded(env: Env, indicators: seq<IndicatorRow>, links: seq<string>, n: nat)
    requires n <= |links|
    ensures Bounded(LinkScan(env, indicators, links, n).value)
    ensures LinkScan(env, indicators, links, n).value.totalLinks
            + LinkScan(env, indicators, links, n).value.totalEmail <= n
    decreases n
  {
    if n > 0 {
      LinkScanBounded(env, indicators, links, n - 1);
    }
  }

  /** `countLinks <= totalLinks` and `countEmail <= totalEmail` hold for what any part adds. */
  lemma {:induction false} MimeCheckBounded(env: Env, indicators: seq<IndicatorRow>, part: Part)
    ensures Bounded(MimeCheck(env, indicators, part).value)
    decreases part, 1
  {
    if IsComposite(part.contentType) {
      ChildrenBounded(env, indicators, part, |part.parts|);
    } else if Usable(part).Some? {
      var p := Usable(part).value;
      LinkScanBounded(env, indicators, Links(p), |Links(p)|);
    }
  }

  /** What the children of a composite part add is bounded. */
  lemma {:induction false} ChildrenBounded(env: Env, indicators: seq<IndicatorRow>, parent: Part, n: nat)
    requires n <= |parent.parts|
    ensures Bounded(ChildrenCheck(env, indicators, parent, n).value)
    decreases parent, 0, n
  {
    if n > 0 {
      ChildrenBounded(env, indicators, parent, n - 1);
      MimeCheckBounded(env, indicators, parent.parts[n - 1]);
    }
  }

  /** A part with an unhandled type, or whose chosen part has no body, adds no tag and no count. */
  lemma MimeCheckSkips(env: Env, indicators: seq<IndicatorRow>, part: Part)
    requires !IsComposite(part.contentType)
    requires Usable(part).None? || Usable(part).value.body.None?
    ensures MimeCheck(env, indicators, part) == Checked([], Zero)
  {
  }

  // ---------------------------------------------------------------------
  // The counters object and the scan as it runs
  // ---------------------------------------------------------------------

  /** The `rc` object shared by the scans of all parts of an email. */
  class Counters {
    var countLinks: int
    var totalLinks: int
    var countEmail: int
    var totalEmail: int

    function Get(): Counts
      reads this
    {
      Counts(countLinks, totalLinks, countEmail, totalEmail)
    }

    ghost predicate Valid()
      reads this
    {
      Bounded(Get())
    }

    constructor ()
      ensures Get() == Zero && Valid()
    {
      countLinks, totalLinks, countEmail, totalEmail := 0, 0, 0, 0;
    }
  }

  /** `processLink(link, rc)`. */
  method ProcessLink(env: Env, indicators: seq<IndicatorRow>, list: TagList, link: string, rc: Counters)
    modifies list, rc
    ensures list.data == old(list.data) + LinkCheck(env, indicators, Str(link), "email_link").tags
    ensures rc.Get() == Plus(old(rc.Get()), Tally(LinkCheck(env, indicators, Str(link), "email_link").value))
  {
    var res := CheckLink(env, indicators, list, Str(link), "email_link");
    if res.None? {
      return;
    }
    match res.value.mode
    case EmailMode =>
      rc.totalEmail := rc.totalEmail + 1;
      if res.value.status {
        rc.countEmail := rc.countEmail + 1;
      }
    case LinkMode =>
      rc.totalLinks := rc.totalLinks + 1;
      if res.value.status {
        rc.countLinks := rc.countLinks + 1;
      }
  }

  /** The regex loop over the captures of the chosen body, one `processLink` per capture. */
  method ScanBody(env: Env, indicators: seq<IndicatorRow>, list: TagList, p: Part, rc: Counters)
    modifies list, rc
    ensures list.data == old(list.data) + LinkScan(env, indicators, Links(p), |Links(p)|).tags
    ensures rc.Get() == Plus(old(rc.Get()), LinkScan(env, indicators, Links(p), |Links(p)|).value)
  {
    var links := Links(p);
    for i := 0 to |links|
      invariant list.data == old(list.data) + LinkScan(env, indicators, links, i).tags
      invariant rc.Get() == Plus(old(rc.Get()), LinkScan(env, indicators, links, i).value)
    {
      ghost var before := LinkScan(env, indicators, links, i).tags;
      var link := if p.contentType == "text/html" then StripQuotes(p.body.value.hrefs[i]) else links[i];
      assert link == links[i];
      ProcessLink(env, indicators, list, link, rc);
      AppendTwice(old(list.data), before, LinkCheck(env, indicators, Str(links[i]), "email_link").tags);
    }
  }

  /** The loop over the children of `multipart/alternative`. */
  method ChooseAlternative(parts: seq<Part>) returns (usePart: Option<Part>)
    ensures usePart == Alternative(parts, |parts|)
  {
    usePart := None;
    for i := 0 to |parts|
      invariant usePart == Alternative(parts, i)
    {
      if parts[i].contentType == "text/plain" && usePart.None? {
        usePart := Some(parts[i]);
      }
      if parts[i].contentType == "text/html" {
        usePart := Some(parts[i]);
      }
    }
  }

  /** `pdCheckMIMEPart(list, part, rc, skip)`; `skip` only decides whether a skipped part is logged. */
  method CheckMIMEPart(env: Env, indicators: seq<IndicatorRow>, list: TagList, part: Part, rc: Counters)
    modifies list, rc
    decreases part, 1
    ensures list.data == old(list.data) + MimeCheck(env, indicators, part).tags
    ensures rc.Get() == Plus(old(rc.Get()), MimeCheck(env, indicators, part).value)
    ensures old(rc.Valid()) ==> rc.Valid()
  {
    MimeCheckBounded(env, indicators, part);
    if IsComposite(part.contentType) {
      CheckChildren(env, indicators, list, part, rc);
      return;
    }
    var usePart: Option<Part> := None;
    if part.contentType == "text/plain" || part.contentType == "text/html" {
      usePart := Some(part);
    } else if part.contentType == "multipart/alternative" {
      usePart := ChooseAlternative(part.parts);
    }
    if usePart.None? || usePart.value.body.None? {
      return;
    }
    ScanBody(env, indicators, list, usePart.value, rc);
  }

  /** The loop of a composite part over its children. */
  method CheckChildren(env: Env, indicators: seq<IndicatorRow>, list: TagList, parent: Part, rc: Counters)
    modifies list, rc
    decreases parent, 0
    ensures list.data == old(list.data) + ChildrenCheck(env, indicators, parent, |parent.parts|).tags
    ensures rc.Get() == Plus(old(rc.Get()), ChildrenCheck(env, indicators, parent, |parent.parts|).value)
  {
    for i := 0 to |parent.parts|
      invariant list.data == old(list.data) + ChildrenCheck(env, indicators, parent, i).tags
      invariant rc.Get() == Plus(old(rc.Get()), ChildrenCheck(env, indicators, parent, i).value)
    {
      ghost var before := ChildrenCheck(env, indicators, parent, i).tags;
      CheckMIMEPart(env, indicators, list, parent.parts[i], rc);
      AppendTwice(old(list.data), before, MimeCheck(env, indicators, parent.parts[i]).tags);
    }
  }
}
