// The preferences dialog: checking the node URL, clamping the sync
// interval (written back into its form field) and validating the form
// before it is closed. The form fields are a map from element id to value;
// the `URL` constructor is a parameter (`Threw` when it rejects the text).
module Prefs {
  import opened Js

  /** The longest sync interval, in minutes (31 days). */
  const MaxSyncMinutes: int := 44640

  /** The element id of a preference field. */
  function FieldId(field: string): string
  {
    "pd-pref-" + field
  }

  /** `changed` accepts a node URL that parses with protocol "http:" or "https:". */
  predicate UrlAccepted(parsed: Outcome<Url>)
  {
    parsed.Returned? && (parsed.value.protocol == "http:" || parsed.value.protocol == "https:")
  }

  /** The clamp of the parsed sync interval; NaN fails both comparisons and stays NaN. */
  function Clamp(t: JsNum): (c: JsNum)
    ensures c.NaN? <==> t.NaN?
    ensures c.Int? ==> 0 <= c.n <= MaxSyncMinutes
    ensures t.Int? && 0 <= t.n <= MaxSyncMinutes ==> c == t
    ensures t.Int? && t.n < 0 ==> c == Int(0)
    ensures t.Int? && t.n > MaxSyncMinutes ==> c == Int(MaxSyncMinutes)
  {
    match t
    case NaN => NaN
    case Int(n) => if n < 0 then Int(0) else if n > MaxSyncMinutes then Int(MaxSyncMinutes) else t
  }

  /** A number written into a text field: its decimal form, or "NaN". */
  function NumberText(t: JsNum): string
  {
    match t
    case NaN => "NaN"
    case Int(n) => Decimal(n)
  }

  /** The sync field after `changed('node-sync')`: the clamped `parseInt` of its old text. */
  function SyncField(v: string): string
  {
    NumberText(Clamp(ParseInt(v, 0)))
  }

  /** `parseInt` reads back what the number was written as. */
  lemma NumberTextRoundTrip(t: JsNum)
    ensures ParseInt(NumberText(t), 0) == t
  {
    match t
    case Int(n) => ParseDecimal(n);
    case NaN =>
      var s := NumberText(t);
      assert s[0] == 'N' && !IsWhiteSpace(s[0]);
      assert TrimStart(s) == s;
      assert DigitPrefix(s, 10) == [];
  }

  /** Reading the rewritten sync field gives the clamped interval, within [0, 44640] unless the text was not a number. */
  lemma SyncFieldReadsClamped(v: string)
    ensures ParseInt(SyncField(v), 0) == Clamp(ParseInt(v, 0))
    ensures ParseInt(SyncField(v), 0).Int? ==> 0 <= ParseInt(SyncField(v), 0).n <= MaxSyncMinutes
  {
    NumberTextRoundTrip(Clamp(ParseInt(v, 0)));
  }

  /** Rewriting the sync field a second time changes nothing. */
  lemma SyncFieldIdempotent(v: string)
    ensures SyncField(SyncField(v)) == SyncField(v)
  {
    SyncFieldReadsClamped(v);
  }

  /** An in-range interval written in decimal is left as it is; one outside is pinned to the nearer bound. */
  lemma SyncFieldInRange(n: int)
    ensures 0 <= n <= MaxSyncMinutes ==> SyncField(Decimal(n)) == Decimal(n)
    ensures n < 0 ==> SyncField(Decimal(n)) == "0"
    ensures n > MaxSyncMinutes ==> SyncField(Decimal(n)) == "44640"
  {
    ParseDecimal(n);
    assert Decimal(0) == "0";
    assert Decimal(MaxSyncMinutes) == "44640" by {
      assert Decimal(4) == "4";
      assert Decimal(44) == Decimal(4) + "4";
      assert Decimal(446) == Decimal(44) + "6";
      assert Decimal(4464) == Decimal(446) + "4";
      assert Decimal(44640) == Decimal(4464) + "0";
    }
  }

  /** The preferences dialog: the values of its form fields. */
  class PrefsPane {
    var fields: map<string, string>

    constructor (fields: map<string, string>)
      ensures this.fields == fields
    {
      this.fields := fields;
    }

    /**
     * `changed(field)`: reading a field with no element throws; the node URL
     * is checked, the sync interval clamped and written back (always
     * accepted), the report contact accepted, and any other field falls out
     * of the switch with `undefined` (`None`).
     */
    method Changed(field: string, parse: string -> Outcome<Url>) returns (r: Outcome<Option<bool>>)
      modifies this
      ensures FieldId(field) !in old(fields) ==> r == Threw && fields == old(fields)
      ensures FieldId(field) in old(fields) ==>
        var v := old(fields)[FieldId(field)];
        if field == "node-url" then r == Returned(Some(UrlAccepted(parse(v)))) && fields == old(fields)
        else if field == "node-sync" then r == Returned(Some(true)) && fields == old(fields)[FieldId(field) := SyncField(v)]
        else if field == "node-reports.contact" then r == Returned(Some(true)) && fields == old(fields)
        else r == Returned(None) && fields == old(fields)
    {
      var id := FieldId(field);
      if id !in fields {
        return Threw;
      }
      var v := fields[id];
      if field == "node-url" {
        var url := parse(v);
        if url.Threw? {
          return Returned(Some(false));
        }
        if url.value.protocol != "http:" && url.value.protocol != "https:" {
          return Returned(Some(false));
        }
        return Returned(Some(true));
      } else if field == "node-sync" {
        var t := ParseInt(v, 0);
        if t.Int? && t.n < 0 {
          t := Int(0);
        } else if t.Int? && t.n > MaxSyncMinutes {
          t := Int(MaxSyncMinutes);
        }
        fields := fields[id := NumberText(t)];
        return Returned(Some(true));
      } else if field == "node-reports.contact" {
        return Returned(Some(true));
      }
      return Returned(None);
    }

    /**
     * `validate` with `changed` called on the dialog: false as soon as the
     * node URL is rejected (the sync field is then not touched); otherwise
     * the sync interval is clamped and the form is accepted.
     */
    method Validate(parse: string -> Outcome<Url>) returns (r: Outcome<bool>)
      modifies this
      ensures var url, sync := FieldId("node-url"), FieldId("node-sync");
        if url !in old(fields) then r == Threw && fields == old(fields)
        else if !UrlAccepted(parse(old(fields)[url])) then r == Returned(false) && fields == old(fields)
        else if sync !in old(fields) then r == Threw && fields == old(fields)
        else r == Returned(true) && fields == old(fields)[sync := SyncField(old(fields)[sync])]
    {
      var ok := Changed("node-url", parse);
      if ok.Threw? {
        return Threw;
      }
      if ok.value != Some(true) {
        return Returned(false);
      }
      ok := Changed("node-sync", parse);
      if ok.Threw? {
        return Threw;
      }
      if ok.value != Some(true) {
        return Returned(false);
      }
      return Returned(true);
    }

    /**
     * `validate` as written: it calls a bare `changed`, which is a member of
     * the dialog object and not a name in scope, so the first call throws a
     * ReferenceError and nothing is checked or rewritten.
     */
    method ValidateAsWritten(parse: string -> Outcome<Url>) returns (r: Outcome<bool>)
      ensures r == Threw
    {
      r := Threw;
    }
  }

  /**
   * A complete, valid form (an https node URL and a 60-minute interval) is
   * accepted by `validate` calling the dialog's own `changed`, while the
   * function as written throws on it.
   */
  method ValidateAsWrittenRejectsValidForm() returns (asWritten: Outcome<bool>, intended: Outcome<bool>)
    ensures asWritten == Threw && intended == Returned(true)
  {
    var parse := (s: string) => Returned(Url("https:", s));
    var pane := new PrefsPane(map[FieldId("node-url") := "https://node.example", FieldId("node-sync") := "60"]);
    assert UrlAccepted(parse(pane.fields[FieldId("node-url")]));
    asWritten := pane.ValidateAsWritten(parse);
    intended := pane.Validate(parse);
  }
}
