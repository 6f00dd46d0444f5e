// The client's candidate extraction: the list of tags found in an email and
// the checks that decide which strings (addresses, domains, links) become
// tags. Each check is a method that appends to the tag list, proved against
// a function giving the tags it appends and the value it returns.
module Tagging {
  import opened Js
  import opened Hex
  import opened Database

  /** The calls the checks make into code outside this model: the SHA-256 library, `pdGetDomainName` and the `URL` constructor. */
  datatype Env = Env(sha256: string -> Digest, domainName: Val -> Val, parseUrl: string -> Outcome<Url>)

  /** One element of `pdTagList.data`. */
  datatype Tag = Tag(full: string, raw: string, hash: string, indicator: nat, tagType: string)

  /** The tags a check appends, in order, and the value it returns. */
  datatype Checked<T> = Checked(tags: seq<Tag>, value: T)

  /** The two kinds of link result of `pdCheckLink`. */
  datatype Mode = EmailMode | LinkMode

  /** A non-null result of `pdCheckLink`. */
  datatype LinkResult = LinkResult(status: bool, mode: Mode)

  /** The address argument of `pdCheckEmailAddress`: a string, or an array of strings. */
  datatype Addr = One(s: string) | Many(items: seq<string>)

  /** The result of `pdCheckForIndicator`. */
  datatype Check = Check(indicator: string, id: nat)

  /** The stored indicator fingerprint of `raw`: hex of its SHA-256 digest. */
  function Fingerprint(env: Env, raw: string): string
  {
    Encode(env.sha256(raw))
  }

  /** `raw` is a string whose fingerprint is in the indicators table. */
  predicate Known(env: Env, indicators: seq<IndicatorRow>, raw: Val)
  {
    raw.Str? && exists i :: 0 <= i < |indicators| && indicators[i].indicator == Fingerprint(env, raw.s)
  }

  /** `pdCheckForIndicator(raw)`: SHA-256 throws on `undefined`; otherwise the fingerprint and its indicator id. */
  function CheckForIndicator(env: Env, indicators: seq<IndicatorRow>, raw: Val): Outcome<Check>
  {
    match raw
    case Undefined => Threw
    case Str(s) => Returned(Check(Fingerprint(env, s), IndicatorId(indicators, Fingerprint(env, s))))
  }

  /** `pdTagList.insert(full, raw, type)`: one tag and whether it is an indicator; nothing and false when the check throws. */
  function Inserted(env: Env, indicators: seq<IndicatorRow>, full: string, raw: Val, tagType: string): Checked<bool>
  {
    match (raw, CheckForIndicator(env, indicators, raw))
    case (Str(s), Returned(check)) => Checked([Tag(full, s, check.indicator, check.id, tagType)], check.id != 0)
    case _ => Checked([], false)
  }

  /** `pdCheckDomain(list, full, name, type)`. */
  function DomainCheck(env: Env, indicators: seq<IndicatorRow>, full: string, name: Val, tagType: string): Checked<bool>
  {
    var first := Inserted(env, indicators, full, name, tagType);
    var tld := env.domainName(name);
    if tld == name then Checked(first.tags, false)
    else
      var second := Inserted(env, indicators, full, tld, tagType + "_domain");
      Checked(first.tags + second.tags, second.value)
  }

  /**
   * The text after the first `open` up to the next `close` or the end; none
   * when there is no `open`. With '<' and '>' it is the capture of the
   * address regex; with '@' twice it is `split("@")[1]`.
   */
  function Between(s: string, open: char, close: char): Option<string>
  {
    var k := IndexOf(s, open);
    if k < 0 then None
    else
      var rest := s[k + 1..];
      var e := IndexOf(rest, close);
      Some(if e < 0 then rest else rest[..e])
  }

  /**
   * `Between` is none exactly when there is no `open`; otherwise its text
   * starts right after the first `open`, contains no `close`, and ends at the
   * end of `s` or at a `close`.
   */
  lemma BetweenShape(s: string, open: char, close: char)
    ensures Between(s, open, close).None? <==> open !in s
    ensures Between(s, open, close).Some? ==>
              var r := Between(s, open, close).value;
              close !in r
              && exists k :: 0 <= k < |s| && s[k] == open && open !in s[..k] && StartsWith(s[k + 1..], r)
                             && (k + 1 + |r| == |s| || s[k + 1 + |r|] == close)
  {
    var k := IndexOf(s, open);
    if k >= 0 {
      var r := Between(s, open, close).value;
      assert StartsWith(s[k + 1..], r);
    }
  }

  /** The address normalisation of `pdCheckEmailAddress`: the part inside `<...>` when there is one. */
  function Normalized(addr: string): string
  {
    match Between(addr, '<', '>')
    case Some(inner) => inner
    case None => addr
  }

  /** `addr.split("@")[1]`: the text between the first and second '@'; `undefined` without an '@'. */
  function DomainPart(addr: string): Val
  {
    match Between(addr, '@', '@')
    case Some(d) => Str(d)
    case None => Undefined
  }

  /** `pdCheckEmailAddress(list, addr, type)` for a string. */
  function AddressCheck(env: Env, indicators: seq<IndicatorRow>, addr: string, tagType: string): Checked<bool>
  {
    if addr == "" then Checked([], false)
    else
      var a := Normalized(addr);
      var full := Inserted(env, indicators, a, Str(a), tagType);
      if full.value then full
      else
        var domain := DomainCheck(env, indicators, a, DomainPart(a), tagType);
        Checked(full.tags + domain.tags, domain.value)
  }

  /** `pdCheckEmailAddress` over the elements of an array, in order, or-ing the results. */
  function AddressesCheck(env: Env, indicators: seq<IndicatorRow>, items: seq<string>, tagType: string): Checked<bool>
  {
    if items == [] then Checked([], false)
    else
      var before := AddressesCheck(env, indicators, items[..|items| - 1], tagType);
      var last := AddressCheck(env, indicators, items[|items| - 1], tagType);
      Checked(before.tags + last.tags, before.value || last.value)
  }

  /** `pdCheckEmailAddress(list, addr, type)`. */
  function EmailAddressCheck(env: Env, indicators: seq<IndicatorRow>, addr: Addr, tagType: string): Checked<bool>
  {
    match addr
    case One(s) => AddressCheck(env, indicators, s, tagType)
    case Many(items) => AddressesCheck(env, indicators, items, tagType)
  }

  /** `pdCheckLink(list, link, type)`. */
  function LinkCheck(env: Env, indicators: seq<IndicatorRow>, link: Val, tagType: string): Checked<Option<LinkResult>>
  {
    match link
    case Undefined => Checked([], None)
    case Str(l) =>
      if l == "" || StartsWith(l, "#") then Checked([], None)
      else if StartsWith(l, "mailto:") then
        var c := AddressCheck(env, indicators, l[7..], tagType + "_mailto");
        Checked(c.tags, Some(LinkResult(c.value, EmailMode)))
      else if StartsWith(l, "javascript:") then Checked([], None)
      else
        var url := if Contains(l, "://") then l else "http://" + l;
        match env.parseUrl(url)
        case Threw => Checked([], None)
        case Returned(u) =>
          var d := DomainCheck(env, indicators, url, Str(u.hostname), tagType);
          Checked(d.tags, Some(LinkResult(d.value, LinkMode)))
  }

  // ---------------------------------------------------------------------
  // Properties
  // ---------------------------------------------------------------------

  /**
   * `insert` appends exactly one tag carrying the fingerprint and indicator id
   * of `raw`, and answers whether it is a known indicator; when `raw` cannot
   * be digested it appends nothing and answers false.
   */
  lemma InsertedExact(env: Env, indicators: seq<IndicatorRow>, full: string, raw: Val, tagType: string)
    ensures var c := Inserted(env, indicators, full, raw, tagType);
      (c.value <==> Known(env, indicators, raw))
      && (raw.Undefined? ==> c.tags == [])
      && (raw.Str? ==> |c.tags| == 1 && c.tags[0].full == full && c.tags[0].raw == raw.s
                       && c.tags[0].tagType == tagType && c.tags[0].hash == Fingerprint(env, raw.s)
                       && c.tags[0].indicator == IndicatorId(indicators, Fingerprint(env, raw.s))
                       && (c.tags[0].indicator != 0 <==> c.value))
  {
    if raw.Str? {
      IndicatorIdExact(indicators, Fingerprint(env, raw.s));
    }
  }

  /**
   * `pdCheckDomain` first tags `name` under `type`; a second tag, for the
   * reduced domain under `type + "_domain"`, exists exactly when the reduced
   * domain differs from `name`. The result is true exactly when that reduced
   * domain is a known indicator; the first insert's result is discarded.
   */
  lemma DomainCheckExact(env: Env, indicators: seq<IndicatorRow>, full: string, name: Val, tagType: string)
    ensures var c := DomainCheck(env, indicators, full, name, tagType);
      var tld := env.domainName(name);
      (c.value <==> tld != name && Known(env, indicators, tld))
      && (forall i :: 0 <= i < |c.tags| ==> c.tags[i].full == full)
      && (name.Str? ==> |c.tags| >= 1 && c.tags[0].raw == name.s && c.tags[0].tagType == tagType)
      && (|c.tags| == (if name.Str? then 1 else 0) + (if tld != name && tld.Str? then 1 else 0))
      && (tld != name && tld.Str? ==> c.tags[|c.tags| - 1].raw == tld.s
                                      && c.tags[|c.tags| - 1].tagType == tagType + "_domain")
  {
    InsertedExact(env, indicators, full, name, tagType);
    InsertedExact(env, indicators, full, env.domainName(name), tagType + "_domain");
  }

  /** A string with no '<' is used as it is; otherwise the part after the first '<' is, which has no '>'. */
  lemma NormalizedShape(addr: string)
    ensures '<' !in addr ==> Normalized(addr) == addr
    ensures '<' in addr ==> '>' !in Normalized(addr) && |Normalized(addr)| < |addr|
  {
    BetweenShape(addr, '<', '>');
  }

  /**
   * `pdCheckEmailAddress` on a string: nothing for the empty string; a hit
   * on the whole (normalised) address returns true with that one tag and no
   * domain check; otherwise the result is that of the domain check on the
   * text between the first and second '@'.
   */
  lemma AddressCheckExact(env: Env, indicators: seq<IndicatorRow>, addr: string, tagType: string)
    ensures var c := AddressCheck(env, indicators, addr, tagType);
      var a := Normalized(addr);
      (addr == "" ==> c == Checked([], false))
      && (addr != "" && Known(env, indicators, Str(a)) ==> c.value && |c.tags| == 1 && c.tags[0].raw == a)
      && (addr != "" && !Known(env, indicators, Str(a)) ==>
            c.value == DomainCheck(env, indicators, a, DomainPart(a), tagType).value
            && |c.tags| >= 1 && c.tags[0].raw == a && c.tags[0].tagType == tagType)
      && (c.value <==> addr != "" && (Known(env, indicators, Str(a))
                                      || (Known(env, indicators, env.domainName(DomainPart(a)))
                                          && env.domainName(DomainPart(a)) != DomainPart(a))))
  {
    InsertedExact(env, indicators, Normalized(addr), Str(Normalized(addr)), tagType);
    DomainCheckExact(env, indicators, Normalized(addr), DomainPart(Normalized(addr)), tagType);
  }

  /** On an array `pdCheckEmailAddress` checks every element, in order, and returns true exactly when one of them is a hit. */
  lemma {:induction false} AddressesCheckIsOr(env: Env, indicators: seq<IndicatorRow>, items: seq<string>, tagType: string)
    ensures AddressesCheck(env, indicators, items, tagType).value <==>
              exists i :: 0 <= i < |items| && AddressCheck(env, indicators, items[i], tagType).value
    decreases |items|
  {
    if items != [] {
      var front := items[..|items| - 1];
      AddressesCheckIsOr(env, indicators, front, tagType);
      if AddressesCheck(env, indicators, front, tagType).value {
        var i :| 0 <= i < |front| && AddressCheck(env, indicators, front[i], tagType).value;
        assert items[i] == front[i];
      }
      if exists i :: 0 <= i < |items| && AddressCheck(env, indicators, items[i], tagType).value {
        var i :| 0 <= i < |items| && AddressCheck(env, indicators, items[i], tagType).value;
        if i < |items| - 1 {
          assert front[i] == items[i];
        }
      }
    }
  }

  /** `pdCheckLink` returns null, and tags nothing, for a missing or empty link, an anchor and a `javascript:` link. */
  lemma LinkCheckIgnored(env: Env, indicators: seq<IndicatorRow>, link: Val, tagType: string)
    requires link.Undefined? || link.s == "" || StartsWith(link.s, "#")
             || (StartsWith(link.s, "javascript:") && !StartsWith(link.s, "mailto:"))
    ensures LinkCheck(env, indicators, link, tagType) == Checked([], None)
  {
  }

  /** A `mailto:` link is checked as the address after its first 7 characters, with `_mailto` appended to the type. */
  lemma LinkCheckMailto(env: Env, indicators: seq<IndicatorRow>, l: string, tagType: string)
    requires StartsWith(l, "mailto:")
    ensures var c := LinkCheck(env, indicators, Str(l), tagType);
      var a := AddressCheck(env, indicators, l[7..], tagType + "_mailto");
      c.tags == a.tags && c.value == Some(LinkResult(a.value, EmailMode))
  {
    assert l != "" && !StartsWith(l, "#") by {
      assert l[0] == 'm';
    }
  }

  /**
   * Any other link is checked as a URL, with `http://` put in front when it
   * has no `://`: null when the URL parser rejects it, otherwise the domain
   * check of its host name, with the URL as the full text of every tag.
   */
  lemma LinkCheckUrl(env: Env, indicators: seq<IndicatorRow>, l: string, tagType: string)
    requires l != "" && !StartsWith(l, "#") && !StartsWith(l, "mailto:") && !StartsWith(l, "javascript:")
    ensures var c := LinkCheck(env, indicators, Str(l), tagType);
      var url := if Contains(l, "://") then l else "http://" + l;
      (env.parseUrl(url).Threw? ==> c == Checked([], None))
      && (env.parseUrl(url).Returned? ==>
            c.value == Some(LinkResult(Known(env, indicators, env.domainName(Str(env.parseUrl(url).value.hostname)))
                                       && env.domainName(Str(env.parseUrl(url).value.hostname))
                                          != Str(env.parseUrl(url).value.hostname), LinkMode))
            && forall i :: 0 <= i < |c.tags| ==> c.tags[i].full == url)
  {
    var url := if Contains(l, "://") then l else "http://" + l;
    if env.parseUrl(url).Returned? {
      DomainCheckExact(env, indicators, url, Str(env.parseUrl(url).value.hostname), tagType);
    }
  }

  // ---------------------------------------------------------------------
  // The tag list and the checks as they run
  // ---------------------------------------------------------------------

  /** `pdTagList`: an append-only list of tags. */
  class TagList {
    var data: seq<Tag>

    constructor ()
      ensures data == []
    {
      data := [];
    }

    /** `insert(full, raw, type)`. */
    method Insert(env: Env, indicators: seq<IndicatorRow>, full: string, raw: Val, tagType: string) returns (hit: bool)
      modifies this
      ensures data == old(data) + Inserted(env, indicators, full, raw, tagType).tags
      ensures hit == Inserted(env, indicators, full, raw, tagType).value
    {
      var check := CheckForIndicator(env, indicators, raw);
      if check.Threw? {
        return false;
      }
      data := data + [Tag(full, raw.s, check.value.indicator, check.value.id, tagType)];
      return check.value.id != 0;
    }
  }

  /** `pdCheckDomain(list, full, name, type)`. */
  method CheckDomain(env: Env, indicators: seq<IndicatorRow>, list: TagList, full: string, name: Val, tagType: string)
    returns (hit: bool)
    modifies list
    ensures list.data == old(list.data) + DomainCheck(env, indicators, full, name, tagType).tags
    ensures hit == DomainCheck(env, indicators, full, name, tagType).value
  {
    var first := list.Insert(env, indicators, full, name, tagType);
    var tld := env.domainName(name);
    if tld == name {
      return false;
    }
    hit := list.Insert(env, indicators, full, tld, tagType + "_domain");
  }

  /** `pdCheckEmailAddress(list, addr, type)` on a string. */
  method CheckAddress(env: Env, indicators: seq<IndicatorRow>, list: TagList, addr: string, tagType: string)
    returns (hit: bool)
    modifies list
    ensures list.data == old(list.data) + AddressCheck(env, indicators, addr, tagType).tags
    ensures hit == AddressCheck(env, indicators, addr, tagType).value
  {
    if |addr| == 0 {
      return false;
    }
    var a := Normalized(addr);
    ghost var full := Inserted(env, indicators, a, Str(a), tagType);
    assert AddressCheck(env, indicators, addr, tagType) == if full.value then full else
      Checked(full.tags + DomainCheck(env, indicators, a, DomainPart(a), tagType).tags,
              DomainCheck(env, indicators, a, DomainPart(a), tagType).value);
    var found := list.Insert(env, indicators, a, Str(a), tagType);
    if found {
      return true;
    }
    var domain := DomainPart(a);
    ghost var mid := list.data;
    hit := CheckDomain(env, indicators, list, a, domain, tagType);
    assert list.data == old(list.data) + full.tags + (list.data[|mid|..]);
  }

  /** Appending two lists of tags one after the other appends their concatenation. */
  lemma AppendTwice(a: seq<Tag>, b: seq<Tag>, c: seq<Tag>)
    ensures a + b + c == a + (b + c)
  {
  }

  /** `pdCheckEmailAddress(list, addr, type)`. */
  method CheckEmailAddress(env: Env, indicators: seq<IndicatorRow>, list: TagList, addr: Addr, tagType: string)
    returns (hit: bool)
    modifies list
    ensures list.data == old(list.data) + EmailAddressCheck(env, indicators, addr, tagType).tags
    ensures hit == EmailAddressCheck(env, indicators, addr, tagType).value
  {
    match addr
    case One(s) =>
      hit := CheckAddress(env, indicators, list, s, tagType);
    case Many(items) =>
      hit := CheckAddresses(env, indicators, list, items, tagType);
  }

  /** The array branch of `pdCheckEmailAddress`: each element is checked in turn with `rc |= ...`. */
  method CheckAddresses(env: Env, indicators: seq<IndicatorRow>, list: TagList, items: seq<string>, tagType: string)
    returns (hit: bool)
    modifies list
    ensures list.data == old(list.data) + AddressesCheck(env, indicators, items, tagType).tags
    ensures hit == AddressesCheck(env, indicators, items, tagType).value
  {
    hit := false;
    for i := 0 to |items|
      invariant list.data == old(list.data) + AddressesCheck(env, indicators, items[..i], tagType).tags
      invariant hit == AddressesCheck(env, indicators, items[..i], tagType).value
    {
      ghost var before := AddressesCheck(env, indicators, items[..i], tagType);
      ghost var last := AddressCheck(env, indicators, items[i], tagType);
      assert items[..i + 1][..i] == items[..i];
      assert AddressesCheck(env, indicators, items[..i + 1], tagType)
          == Checked(before.tags + last.tags, before.value || last.value);
      var h := CheckAddress(env, indicators, list, items[i], tagType);
      hit := hit || h;
      AppendTwice(old(list.data), before.tags, last.tags);
    }
    assert items[..|items|] == items;
  }

  /** `pdCheckLink(list, link, type)`. */
  method CheckLink(env: Env, indicators: seq<IndicatorRow>, list: TagList, link: Val, tagType: string)
    returns (res: Option<LinkResult>)
    modifies list
    ensures list.data == old(list.data) + LinkCheck(env, indicators, link, tagType).tags
    ensures res == LinkCheck(env, indicators, link, tagType).value
  {
    if link.Undefined? || |link.s| == 0 || StartsWith(link.s, "#") {
      return None;
    }
    var l := link.s;
    if StartsWith(l, "mailto:") {
      var status := CheckAddress(env, indicators, list, l[7..], tagType + "_mailto");
      return Some(LinkResult(status, EmailMode));
    } else if StartsWith(l, "javascript:") {
      return None;
    }
    if !Contains(l, "://") {
      l := "http://" + l;
    }
    var url := env.parseUrl(l);
    if url.Threw? {
      return None;
    }
    var status := CheckDomain(env, indicators, list, l, Str(url.value.hostname), tagType);
    return Some(LinkResult(status, LinkMode));
  }
}
