# PhishDetect for Thunderbird: a Dafny model of its detection core

PhishDetect for Thunderbird is an e-mail extension. It looks for phishing indicators in e-mails. The back-end node hands out indicators as hex SHA-256 fingerprints of domains and e-mail addresses. The extension keeps them in a local SQLite database and uses them as follows:

- Scanning a message: it collects every address, domain and link of the message as a *tag*. It fingerprints each tag and looks the fingerprint up among the indicators.
- Recording: it records the tags, the tags of each e-mail and the *incidents* (a tag that matched an indicator, in one e-mail).
- Reporting: it reports pending incidents to the node once an hour.
- Marking: a message with a match gets status -1 ("suspicious").

A generator written in Go builds the trie of public suffixes that the domain-name lookup uses. Two copies of a small Bloom filter come with the extension.

The model has one Dafny module per part of the program:

| module | what it models |
|---|---|
| `Js` | The ECMAScript behaviour the code relies on: `parseInt` with its radix rules, `String(n)`, `indexOf`, `startsWith`, and the 32-bit operators `>>`, `<<`, `&` together with `ToInt32`. It also holds the shared `Option`/`Outcome` result types. |
| `Hex` | `bin2hex` and `hex2bin`. |
| `BloomIndex`, `Bloom` | Both `bloomfilter.js` copies: index derivation from 64 bytes of hash material, `resolve`, and the filter object (`initDirect`, `add`, `contains`, `indexList`) over a `Uint8Array` modelled as an `array`. |
| `Database`, `DatabaseStore` | The five tables of `pd-database.js` with their UNIQUE constraints, and their operations as functions on the table contents. The three views are comprehensions over the tables. A `Store` class holds the tables as fields; its methods run each operation and are proved against it. |
| `Tagging` | `pdTagList`, `pdCheckForIndicator`, `pdCheckDomain`, `pdCheckEmailAddress` and `pdCheckLink`. |
| `Mime` | `pdCheckMIMEPart` and the `rc` counters object. |
| `Inspect` | `pdInspectEMail`, split in two: the header and part scan that yields tags and indication lines, and the loop that records tags, e-mail tags and incidents. |
| `Report` | `pdSendReport`. |
| `Scheduler` | From `phishdetect.js`: `pdTaskScheduler`, the status messages of a node sync, `pdCheckForPhish`, the `pdScanning` guard of the message pane and the counters of `pdScanFolder`. |
| `Prefs` | `changed` and `validate` of the preferences dialog. |
| `TldTrie` | `TrieNode.Add` and `TrieNode.Lookup` of the generator, the filter over the lines of the public suffix list, and the loop that cuts the JSON output into lines. |

Modelling conventions:

- **Calls into code outside the model are parameters.** These are SHA-256, `pdGetDomainName`, the `URL` constructor, the back-end's responses and the clock. The scanning code receives them through the `Env` datatype; other places take them as arguments.
- **Methods are proved against functions.** Each method that updates state in place is a `method` on a class or an `array`. Its `ensures` ties the new state to a function of the old state. The properties of the program are proved as lemmas about those functions.
- **Where the code looks wrong** (see "## Findings"), the model keeps two definitions:
  - a definition that follows the source as written, with a lemma that exhibits the problem;
  - the corrected definition, which the methods run.

## Model

Paths are relative to the repository root. `pd-client.js` is `extension/chrome/content/libs/pd-client.js`.

| member | source | states |
|---|---|---|
| Database.FindExact | extension/chrome/content/libs/pd-database.js:63-72 | A keyed `SELECT id` returns the id of the first row that matches, and 0 exactly when no row matches. |
| Database.IndicatorIdExact | extension/chrome/content/libs/pd-database.js:63-72 | `hasIndicator(fp)` is 0 exactly when no stored indicator has fingerprint `fp`. Otherwise it is the id of the first row that has it. |
| Database.HasIndicatorExact | extension/chrome/content/libs/pd-database.js:63-72 | `hasIndicator` is positive exactly for the stored fingerprints, and the id it returns names a row with that fingerprint. |
| Database.EmailIdExact | extension/chrome/content/libs/pd-database.js:128-135 | The message-id lookup returns the first row with that message id, or 0 exactly when there is none. |
| Database.TagIdExact | extension/chrome/content/libs/pd-database.js:159-166 | The tag lookup finds the first row with the same raw text and type, or 0 exactly when there is none. |
| Database.EmailTagIdExact | extension/chrome/content/libs/pd-database.js:253-261 | The email-tag lookup finds the first row joining that e-mail and tag, or 0 exactly when there is none. |
| Database.IncidentIdExact | extension/chrome/content/libs/pd-database.js:280-299 | The incident of an email tag is the first incident row with that email tag, or 0 when there is none. UNIQUE(email_tag) tests for exactly this. |
| Database.AddIndicatorsFacts | extension/chrome/content/libs/pd-database.js:29-45 | INSERT OR IGNORE of a batch keeps every existing row, and so its kind. It appends only listed fingerprints, each with the batch's kind. It keeps UNIQUE(indicator), and every listed fingerprint is found afterwards. |
| Database.AddKnownIndicators | extension/chrome/content/libs/pd-database.js:29-45 | A batch whose fingerprints are all stored already changes nothing. |
| Database.AddIndicatorsIdempotent | extension/chrome/content/libs/pd-database.js:29-45 | Adding the same batch again, under any kind, changes nothing. |
| Database.AddIndicatorsCallbacks | extension/chrome/content/libs/pd-database.js:48-57 | The callback always ends with `rc` 1. Its message is "DONE" exactly when the statement finished. An error first calls back `(-1, message)`, and only an error makes two calls. |
| Database.EmailStatusRoundTrip | extension/chrome/content/libs/pd-database.js:76-123 | Under UNIQUE(message_id), what `setEmailStatus` stores is what `getEmailStatus` reads back, and every other e-mail keeps its status. |
| Database.EmailStatusNeedsId | extension/chrome/content/libs/pd-database.js:76-104 | For a null or empty message id, `getEmailStatus` returns null, and `setEmailStatus` refuses and changes nothing. |
| Database.GetEmailIdCreates | extension/chrome/content/libs/pd-database.js:126-155 | Without the retry argument, `getEmailId` returns the id of a row with that message id. It inserts exactly when the row was missing, and then at the next id. It keeps UNIQUE(message_id). |
| Database.GetEmailIdIdempotent | extension/chrome/content/libs/pd-database.js:126-155 | A second `getEmailId` for the same message returns the same id and inserts nothing. |
| Database.GetEmailIdRetryNeverInserts | extension/chrome/content/libs/pd-database.js:126-140 | With the retry argument present, `getEmailId` never inserts. It returns 0 exactly for an unknown message. |
| Database.GetTagIdKeepsExisting | extension/chrome/content/libs/pd-database.js:157-184 | Get-or-create of a tag keyed on (raw, type). An existing row is returned untouched whatever hash and indicator are passed. A new row carries them and gets the next id. UNIQUE(raw,type) is kept. |
| Database.GetEmailTagIdCreates | extension/chrome/content/libs/pd-database.js:251-275 | Get-or-create of an email tag. It returns the row for the pair, inserts only when the pair was missing, and keeps UNIQUE(email,tag). |
| Database.RecordIncidentOnce | extension/chrome/content/libs/pd-database.js:280-299 | An incident is recorded once per email tag: recording again, at any later time, changes nothing. UNIQUE(email_tag) holds, and the email tag has its incident. |
| Database.ResolveTouchesOneTag | extension/chrome/content/libs/pd-database.js:213-220 | `resolveTagIndicator` changes only the indicator of that one tag, and nothing for an unknown id. |
| Database.SetReportedTouchesOneIncident | extension/chrome/content/libs/pd-database.js:364-371 | `setReported` changes only the reported flag of that one incident. |
| Database.EmailIdUnique | extension/chrome/content/libs/pd-database.js:398-402 | Under UNIQUE(message_id), the lookup of a stored message id finds that very row. |
| Database.PendingTagsExact | extension/chrome/content/libs/pd-database.js:187-210 | `getPendingTags` returns exactly the tags whose indicator is 0, each with its hash. The model lists them in increasing id order; the query has no ORDER BY, so the source promises no order. |
| Database.IncidentView | extension/chrome/content/libs/pd-database.js:433-451 | A row of `v_incidents` carries the id of the incident it comes from. |
| Database.IncidentViewJoins | extension/chrome/content/libs/pd-database.js:433-451 | An incident appears in `v_incidents` exactly when its email tag, e-mail, tag and the tag's indicator all exist. |
| Database.IncidentsMembers | extension/chrome/content/libs/pd-database.js:304-333 | `getIncidents(unreported)` returns exactly the view rows, restricted to `reported = 0` when asked. |
| Database.IncidentsOrdered | extension/chrome/content/libs/pd-database.js:304-333 | The model lists the rows of `getIncidents` in increasing id order. This order is the model's choice: the query over `v_incidents` has no ORDER BY. |
| Database.IncidentsExact | extension/chrome/content/libs/pd-database.js:304-333 | Both of the above together: the set of rows, and the model's id order. |
| Database.IndicationView | extension/chrome/content/libs/pd-database.js:452-465 | A row of `v_indications` carries the id of the incident it comes from. |
| Database.IndicationsExact | extension/chrome/content/libs/pd-database.js:338-361 | `getIndications(msgId)` returns exactly the incidents of that e-mail whose email tag and tag exist. |
| Database.EmailsWithTagExact | extension/chrome/content/libs/pd-database.js:223-248 | `getEmailsWithTag(tagId)` returns exactly the email tags of that tag, when the tag and the e-mail both exist. Each comes with the e-mail's message id. |
| DatabaseStore.Store.constructor | extension/chrome/content/libs/pd-database.js:491-500 | A newly created database has five empty tables and satisfies every constraint. |
| DatabaseStore.Store.AddIndicators | extension/chrome/content/libs/pd-database.js:29-58 | The batch insert changes only the indicators table, and only when the statement finished. The callback calls are those of `AddIndicatorsCallbacks`. The constraints are kept. |
| DatabaseStore.Store.HasIndicator | extension/chrome/content/libs/pd-database.js:63-72 | Returns the indicator's id, which names a row with that fingerprint. It returns 0 exactly when there is none. |
| DatabaseStore.Store.GetEmailStatus | extension/chrome/content/libs/pd-database.js:76-96 | Returns the status and timestamp of a stored e-mail with that id, or null. |
| DatabaseStore.Store.SetEmailStatus | extension/chrome/content/libs/pd-database.js:99-123 | Inserts or updates the e-mail's row as `SetEmailStatus` says, touches no other table and keeps the constraints. |
| DatabaseStore.Store.GetEmailId | extension/chrome/content/libs/pd-database.js:126-155 | Performs the select, and the insert with a recursive retry, and changes only the e-mails table. |
| DatabaseStore.Store.GetTagId | extension/chrome/content/libs/pd-database.js:157-184 | Get-or-create on the tags table only. |
| DatabaseStore.Store.GetEmailTagId | extension/chrome/content/libs/pd-database.js:251-275 | Get-or-create on the email_tags table only. |
| DatabaseStore.Store.RecordIncident | extension/chrome/content/libs/pd-database.js:280-299 | INSERT OR IGNORE on the incidents table only, stamped with the given time. |
| DatabaseStore.Store.ResolveTagIndicator | extension/chrome/content/libs/pd-database.js:213-220 | Updates the tags table only. |
| DatabaseStore.Store.SetReported | extension/chrome/content/libs/pd-database.js:364-371 | Updates the incidents table only. |
| DatabaseStore.Store.GetPendingTags | extension/chrome/content/libs/pd-database.js:187-210 | The result-row loop yields exactly the tags with indicator 0 and their hashes. |
| DatabaseStore.Store.GetIncidents | extension/chrome/content/libs/pd-database.js:304-333 | The result-row loop yields the `v_incidents` rows, filtered on request. |
| DatabaseStore.Store.GetIndications | extension/chrome/content/libs/pd-database.js:338-361 | The result-row loop yields the `v_indications` rows of the e-mail. |
| DatabaseStore.Store.GetEmailsWithTag | extension/chrome/content/libs/pd-database.js:223-248 | The result-row loop yields the `v_email_tags` rows of the tag. |
| Tagging.InsertedExact | extension/chrome/content/libs/pd-client.js:341-361 | `insert` returns true exactly when the fingerprint of `raw` is a stored indicator. For `undefined` (hashing throws) it appends nothing. Otherwise it appends one tag with `full`, `raw`, type, the hex SHA-256 hash and the indicator id, and the id is nonzero exactly on a hit. |
| Tagging.DomainCheckExact | extension/chrome/content/libs/pd-client.js:365-376 | A hit happens exactly when the registrable domain differs from the name and is an indicator. The name is tagged first. The registrable domain is tagged second, with `_domain` appended to the type, and only when it differs. Every tag keeps `full`. |
| Tagging.BetweenShape | extension/chrome/content/libs/pd-client.js:394-398 | The expression `<([^>]*)` matches exactly when there is a `<`. The capture is the text after the first `<` up to the next `>` or the end, and it contains no `>`. |
| Tagging.NormalizedShape | extension/chrome/content/libs/pd-client.js:394-398 | An address without `<` is used unchanged. Otherwise the captured part is used, which is shorter and holds no `>`. |
| Tagging.AddressCheckExact | extension/chrome/content/libs/pd-client.js:389-412 | An empty string returns false without tags. For a nonempty address, the normalised address is tagged first. A hit happens exactly when that address is an indicator, or when the registrable domain of its part after `@` is one and differs from that part. |
| Tagging.AddressesCheckIsOr | extension/chrome/content/libs/pd-client.js:381-387 | On an array, every element is checked in order, and the result is true exactly when one element is a hit. |
| Tagging.LinkCheckIgnored | extension/chrome/content/libs/pd-client.js:424-439 | A missing or empty link, an anchor or a `javascript:` link returns null and adds no tag. |
| Tagging.LinkCheckMailto | extension/chrome/content/libs/pd-client.js:429-434 | A `mailto:` link is checked as the address after its first 7 characters, with type `<type>_mailto`, and returns e-mail mode. |
| Tagging.LinkCheckUrl | extension/chrome/content/libs/pd-client.js:441-456 | Any other link gets `http://` when it has no `://`. If `URL` throws, the result is null. Otherwise it is link mode, and a hit exactly when the host's registrable domain differs from the host and is an indicator. Every tag has the completed URL as `full`. |
| Tagging.TagList.constructor | extension/chrome/content/libs/pd-client.js:339-340 | A new tag list is empty. |
| Tagging.TagList.Insert | extension/chrome/content/libs/pd-client.js:341-361 | Appends to `data` the tags of `Inserted` and returns its answer. |
| Tagging.CheckDomain | extension/chrome/content/libs/pd-client.js:365-376 | Appends the tags of `DomainCheck` and returns its answer. |
| Tagging.CheckAddress | extension/chrome/content/libs/pd-client.js:389-412 | Appends the tags of `AddressCheck` and returns its answer. |
| Tagging.CheckEmailAddress | extension/chrome/content/libs/pd-client.js:379-413 | Appends the tags of `EmailAddressCheck` (string or array) and returns its answer. |
| Tagging.CheckAddresses | extension/chrome/content/libs/pd-client.js:381-387 | The `rc \|=` loop appends every element's tags in order and returns the `or` of the results. |
| Tagging.CheckLink | extension/chrome/content/libs/pd-client.js:422-457 | Appends the tags of `LinkCheck` and returns its result. |
| Mime.StripQuotesExact | extension/chrome/content/libs/pd-client.js:534 | An href without surrounding quotes is kept. A quoted one loses exactly its two quotes. |
| Mime.AlternativeHtmlWins | extension/chrome/content/libs/pd-client.js:472-483 | In `multipart/alternative`, the last `text/html` child is the one scanned. |
| Mime.AlternativePlainFallback | extension/chrome/content/libs/pd-client.js:472-483 | Without a `text/html` child, the first `text/plain` child is scanned. |
| Mime.AlternativeNothing | extension/chrome/content/libs/pd-client.js:472-483 | Without either kind of child, nothing is scanned. |
| Mime.PlusBounded | extension/chrome/content/libs/pd-client.js:508-527 | Adding bounded counts to bounded counters keeps hits within totals. |
| Mime.LinkScanBounded | extension/chrome/content/libs/pd-client.js:508-542 | A body scan adds at most one counted link or address per captured link, and never more hits than counts. |
| Mime.MimeCheckBounded | extension/chrome/content/libs/pd-client.js:460-544 | For any MIME tree, `countLinks <= totalLinks` and `countEmail <= totalEmail` hold for what it adds. |
| Mime.ChildrenBounded | extension/chrome/content/libs/pd-client.js:485-492 | The same for the children of a composite part. |
| Mime.MimeCheckSkips | extension/chrome/content/libs/pd-client.js:493-505 | A part of an unhandled type, or whose chosen part has no body, adds no tag and no count. |
| Mime.Counters.constructor | extension/chrome/content/libs/pd-client.js:630 | The counters start at zero. |
| Mime.ProcessLink | extension/chrome/content/libs/pd-client.js:508-527 | Appends the link's tags, and adds one to the total of its mode plus one hit when the check was positive. A null result changes nothing. |
| Mime.ScanBody | extension/chrome/content/libs/pd-client.js:529-543 | The capture loop runs `processLink` on each link of the chosen body, in order. |
| Mime.ChooseAlternative | extension/chrome/content/libs/pd-client.js:472-483 | The loop over the alternatives chooses as `Alternative` says. |
| Mime.CheckMIMEPart | extension/chrome/content/libs/pd-client.js:460-544 | Appends the tags and adds the counts of `MimeCheck`, and keeps the counters bounded. |
| Mime.CheckChildren | extension/chrome/content/libs/pd-client.js:485-492 | Recurses into every child of a composite part, in order. |
| Inspect.CountHitsExact | extension/chrome/content/libs/pd-client.js:574-578 | A `forEach` count is at most the number of values, and positive exactly when some value is a hit. |
| Inspect.CountHopsZero | extension/chrome/content/libs/pd-client.js:416-419 | `pdCheckMailHop` never reports a hop, so no hop is counted. |
| Inspect.SenderSectionExact | extension/chrome/content/libs/pd-client.js:567-583 | The sender count is at most its total, which is 1 for `from` plus the number of `sender` values. It is positive exactly when `from` or some `sender` value is a hit. |
| Inspect.ReplySectionExact | extension/chrome/content/libs/pd-client.js:586-604 | The reply-to count is at most its total. It is positive exactly when `reply-to` or some `return-path` value is a hit. |
| Inspect.HopSectionQuiet | extension/chrome/content/libs/pd-client.js:607-627 | The mail-hop count is always 0. |
| Inspect.PartsScanBounded | extension/chrome/content/libs/pd-client.js:630-633 | What all parts add to `rc` keeps hits within totals. |
| Inspect.GatherOf | extension/chrome/content/libs/pd-client.js:567-639 | With a `from` header, the scan's tags are the sender, reply-to and part tags, in that order, and the indication lines are the summary of the four groups. |
| Inspect.SummaryShape | extension/chrome/content/libs/pd-client.js:580-639 | With no hop hit there is an indication line exactly when one of the sender, reply-to, link or address groups has a hit. There are at most four lines, and none is a "Mail hops" line. |
| Inspect.GatherSummary | extension/chrome/content/libs/pd-client.js:567-639 | For an e-mail with `from`, the scan returns, and its indication list has the shape above in terms of the header and part scans. |
| Inspect.GatherNeedsFrom | extension/chrome/content/libs/pd-client.js:569 | Without a `from` header the inspection throws, because reading the length of `undefined` throws. |
| Inspect.RecordTagRecords | extension/chrome/content/libs/pd-client.js:650-661 | One turn of the tag loop only appends rows. For an indicator tag it leaves the tag row, the email tag of this e-mail and its incident in place. |
| Inspect.RecordTagsRecords | extension/chrome/content/libs/pd-client.js:650-661 | After the tag loop, every tag that matched an indicator has its tag row, email tag and incident, and no row was changed or removed. |
| Inspect.AsWrittenDropsNewEmails | extension/chrome/content/libs/pd-client.js:642-647 | As written, an e-mail whose message id is not stored yet is never inserted. The inspection throws or ends with null and leaves the tables unchanged. |
| Inspect.InspectRecordsIncidents | extension/chrome/content/libs/pd-client.js:551-677 | With the corrected lookup, an e-mail with a message id and `from` gets a result. Its `phish` is true exactly when there are indication lines, its date is now, and its indications are the scan's lines. The e-mail is stored, and every indicator tag is recorded against it. |
| Inspect.CountIfHit | extension/chrome/content/libs/pd-client.js:574-578 | The `forEach` callback appends one value's tags and counts it when it is a hit. |
| Inspect.CountAddressHits | extension/chrome/content/libs/pd-client.js:574-578 | The `forEach` appends all values' tags in order and counts the hits. |
| Inspect.ScanSenders | extension/chrome/content/libs/pd-client.js:567-579 | Appends the tags of `from` and of each `sender` value, and returns the sender count and total. |
| Inspect.ScanReplies | extension/chrome/content/libs/pd-client.js:586-600 | Appends the tags of `reply-to` and of each `return-path` value, and returns their count and total. |
| Inspect.CountHopHits | extension/chrome/content/libs/pd-client.js:610-614 | The hop `forEach` counts as `CountHops`, that is, zero. |
| Inspect.ScanHops | extension/chrome/content/libs/pd-client.js:607-623 | The hop total is the number of `received` plus `x-received` values. |
| Inspect.ScanParts | extension/chrome/content/libs/pd-client.js:630-633 | Every top-level part is scanned, in order, into one tag list and one `rc`. |
| Inspect.SummaryLines | extension/chrome/content/libs/pd-client.js:580-639 | The pushes build exactly `Summary`. |
| Inspect.GatherTags | extension/chrome/content/libs/pd-client.js:561-639 | The header and part scans produce the tags and lines of `Gather`. |
| Inspect.RecordTagList | extension/chrome/content/libs/pd-client.js:650-661 | The database after the tag loop is `RecordTags` of the database before it. |
| Inspect.InspectEMail | extension/chrome/content/libs/pd-client.js:551-677 | The inspection's result and database are those of `InspectWith` with the corrected get-or-create of the e-mail. |
| Report.SentExact | extension/chrome/content/libs/pd-client.js:238-256 | Exactly the listed incidents that are not test incidents, or all of them when tests are reported, are sent, each once. |
| Report.InTransitExact | extension/chrome/content/libs/pd-client.js:238-241 | The first loop flags every listed incident -1 and leaves every other row as it was. |
| Report.SettleExact | extension/chrome/content/libs/pd-client.js:269-291 | Each response sets its target to 0 on error and 1 otherwise, and leaves the untargeted rows alone. |
| Report.DefaultPendingDistinct | extension/chrome/content/libs/pd-client.js:228-230 | `getIncidents(true)` lists each incident once. |
| Report.ReportedLength | extension/chrome/content/libs/pd-client.js:226-304 | Reporting adds and removes no incident row. |
| Report.SettleLength | extension/chrome/content/libs/pd-client.js:269-291 | The response loop adds and removes no incident row. |
| Report.ListedOutcome | extension/chrome/content/libs/pd-client.js:226-304 | The corrected report leaves a listed, submitted incident at 0 or 1 as its own response says. Any other listed incident is left at -1, as is every one when the batch was rejected. |
| Report.UnlistedOutcome | extension/chrome/content/libs/pd-client.js:226-304 | An incident that was not listed is untouched. |
| Report.SendReportOutcome | extension/chrome/content/libs/pd-client.js:226-304 | The end state of every incident row after the corrected report: both of the above for all rows. |
| Report.NothingFilteredAgrees | extension/chrome/content/libs/pd-client.js:244-246 | When no test incident is filtered out, the requests are the listed incidents, so the source's `pending[i]` is the incident answered. |
| Report.AsWrittenMisroutes | extension/chrome/content/libs/pd-client.js:269-290 | As written, a filtered test incident before a genuine one makes the genuine one's response flag the test incident 1 and leaves the genuine one at -1. |
| Report.SendReport | extension/chrome/content/libs/pd-client.js:226-304 | Returns the number of requests sent. The incident table ends as the corrected `Reported` says. `reports_last` moves only if something was sent, and `reports_last_try` always moves. |
| Report.QueueReports | extension/chrome/content/libs/pd-client.js:236-256 | The first loop flags each listed incident -1 and queues exactly the submitted ones. |
| Report.ApplyResponses | extension/chrome/content/libs/pd-client.js:266-291 | Response `i` sets the flag of the `i`-th incident sent. |
| Hex.ByteHexDigits | extension/chrome/content/libs/pd-client.js:720 | `toString(16).padStart(2,'0')` writes a byte as its high and low lower-case hex digit. |
| Hex.ParseTwoDigits | extension/chrome/content/libs/pd-client.js:730 | `parseInt(_, 16)` reads two hex digits as `16 * high + low`. |
| Hex.ParseByteHex | extension/chrome/content/libs/pd-client.js:717-736 | Reading a byte's two digits back gives the byte. |
| Hex.EncodeAppend | extension/chrome/content/libs/pd-client.js:719-721 | One more element appends its two digits. |
| Hex.EncodeLength | extension/chrome/content/libs/pd-client.js:717-723 | `bin2hex` writes two characters per element. |
| Hex.EncodeDigits | extension/chrome/content/libs/pd-client.js:717-723 | Every character `bin2hex` writes is a lower-case hex digit. |
| Hex.DecodeEncode | extension/chrome/content/libs/pd-client.js:717-736 | `hex2bin(bin2hex(a))` gives back the elements of `a`. |
| Hex.DecodeLength | extension/chrome/content/libs/pd-client.js:729-731 | `hex2bin` yields one number per complete pair, and a trailing odd character is dropped. |
| Hex.DecodeStep | extension/chrome/content/libs/pd-client.js:729-731 | Decoding reads the next pair and then the rest. |
| Hex.DecodeShort | extension/chrome/content/libs/pd-client.js:729 | Fewer than two characters decode to nothing. |
| Hex.Bin2Hex | extension/chrome/content/libs/pd-client.js:717-723 | The loop computes `Encode`. |
| Hex.Hex2Bin | extension/chrome/content/libs/pd-client.js:726-736 | Returns null when `s` is undefined, because reading its length throws. Otherwise it returns `Decode(s)`. |
| Hex.DecodePairs | extension/chrome/content/libs/pd-client.js:729-731 | The pair loop computes `Decode`. |
| BloomIndex.Material | extension/chrome/content/libs/bloomfilter.js:98-111 | The hash material is 64 bytes: SHA-256 of the entry, then SHA-256 of the entry twice. |
| BloomIndex.CeilLog2 | extension/chrome/content/libs/bloomfilter.js:61 | `Math.ceil(Math.log2(n))` is the least `k` with `n <= 2^k`. |
| BloomIndex.IndicesNext | extension/chrome/content/libs/bloomfilter.js:116-127 | One more round of the index loop appends the next index. |
| BloomIndex.WordDefined | extension/chrome/content/libs/bloomfilter.js:120-124 | The 4-byte read is a number exactly when no index past the end is read. Below the start, the `k < 0` guard gives 0. |
| BloomIndex.WordValue | extension/chrome/content/libs/bloomfilter.js:120-124 | For a non-negative position, `v = 256*v + m` reads the clamped four bytes big-endian. |
| BloomIndex.FieldRange | extension/chrome/content/libs/bloomfilter.js:115-125 | The masked field is the low `numIdxBits mod 32` bits of the shifted word, below 2^31. |
| BloomIndex.IndexInRange | extension/chrome/content/libs/bloomfilter.js:125 | For a filter of at least one bit, every index is a number in `0 .. numBits-1`. |
| BloomIndex.IndicesShape | extension/chrome/content/libs/bloomfilter.js:114-128 | `indexList` yields exactly `numIdx` indices (none for a non-positive count), each a bit of the filter. |
| BloomIndex.IndexIsField | extension/chrome/content/libs/bloomfilter.js:115-125 | For a valid filter (index bits within 512, up to 25 per index), index `i` is bits `i*numIdxBits ..` of the hash material counted from its end, reduced modulo `numBits`. |
| BloomIndex.FieldValue | extension/chrome/content/libs/bloomfilter.js:117-125 | The 32-bit operators compute the plain bit field for such a filter. |
| BloomIndex.ResolveInRange | extension/chrome/content/libs/bloomfilter.js:132-134 | `resolve` maps an index to byte `idx / 8` and bit `idx mod 8`. |
| BloomIndex.LocationsInside | phishdetect@phishdetect.io/chrome/content/libs/bloomfilter.js:22 | Every location of an entry lies inside a storage of `(numBits+7)/8` bytes. |
| BloomIndex.ByteOfBit | phishdetect@phishdetect.io/chrome/content/libs/bloomfilter.js:22 | Bit `idx` of the filter lies in one of its `(numBits+7)/8` bytes. |
| BloomIndex.ByteCountsAgree | extension/chrome/content/libs/bloomfilter.js:65 | `(numBits+7) >> 3` and `(numBits+7) / 8` agree for every size below 2^31 - 7. |
| BloomIndex.ShiftedByteCountWraps | extension/chrome/content/libs/bloomfilter.js:65 | At 2^32 bits, `(numBits+7) >> 3` allocates no byte, while `/ 8` allocates 2^29. |
| Bloom.ByteHasBit | extension/chrome/content/libs/bloomfilter.js:85 | `bits[pos] & mask` is nonzero exactly when the location's bit is set. A read past the end counts as 0. |
| Bloom.MaskIsShift | extension/chrome/content/libs/bloomfilter.js:133 | The stored mask is `1 << (idx & 7)`. |
| Bloom.OrMask | extension/chrome/content/libs/bloomfilter.js:75 | After `v \|= mask`, a bit is set exactly when it was set before or is the mask's bit. |
| Bloom.SetBitExact | extension/chrome/content/libs/bloomfilter.js:75 | After one write, a location is set exactly when it was set or the write named its bit inside the array. A write past the end is lost. |
| Bloom.SetAllExact | extension/chrome/content/libs/bloomfilter.js:73-76 | After the add loop, a location is set exactly when it was set, or when one of the entry's locations names it and lies inside the array. |
| Bloom.SetAllOnlyNamedBytes | extension/chrome/content/libs/bloomfilter.js:73-76 | The add loop changes only the bytes the entry names. |
| Bloom.AddThenContains | extension/chrome/content/libs/bloomfilter.js:71-90 | Once an entry's locations lie inside the storage, adding it makes `contains` true for it. |
| Bloom.AddKeepsContained | extension/chrome/content/libs/bloomfilter.js:71-90 | Adding never makes a contained entry uncontained. |
| Bloom.ZeroContainsNothing | extension/chrome/content/libs/bloomfilter.js:81-90 | An all-zero filter contains no entry that has an index. |
| Bloom.NoFalseNegatives | phishdetect@phishdetect.io/chrome/content/libs/bloomfilter.js:17-43 | With storage of `(numBits+7)/8` bytes, an added entry is contained after any further adds. |
| Bloom.SetEachKeeps | extension/chrome/content/libs/bloomfilter.js:71-78 | Any sequence of adds keeps a contained entry contained. |
| Bloom.WrappedAllocationLosesEntries | extension/chrome/content/libs/bloomfilter.js:59-78 | With the extension's `>> 3` allocation at 2^32 bits, an added entry is not contained. |
| Bloom.ReadWord | extension/chrome/content/libs/bloomfilter.js:119-124 | The inner loop computes `Word` on the array's contents. |
| Bloom.BloomFilter.Empty | extension/chrome/content/libs/bloomfilter.js:39-43 | Without a stored object, a filter has zero sizes, no storage and is invalid. |
| Bloom.BloomFilter.FromStored | extension/chrome/content/libs/bloomfilter.js:39-43 | A stored object's parameters and decoded bytes are copied into a fresh array, and the filter is marked valid. |
| Bloom.BloomFilter.InitDirect | phishdetect@phishdetect.io/chrome/content/libs/bloomfilter.js:17-24 | Sets the sizes with `numIdxBits = ceil(log2 numBits)` and a zeroed storage of `(numBits+7)/8` fresh bytes. The filter is valid exactly when `numIdxBits * numIdx <= 512`. |
| Bloom.BloomFilter.HashMaterial | extension/chrome/content/libs/bloomfilter.js:98-111 | The two copy loops fill a fresh 64-byte array with the hash material. |
| Bloom.BloomFilter.IndexList | extension/chrome/content/libs/bloomfilter.js:97-129 | The index loop computes `Indices` of the entry's material. |
| Bloom.BloomFilter.Add | extension/chrome/content/libs/bloomfilter.js:71-78 | Sets the bit of every location in order, as `SetAll` says. Without storage it throws exactly when there is an index. |
| Bloom.BloomFilter.Contains | extension/chrome/content/libs/bloomfilter.js:81-90 | Answers whether all of the entry's locations are set. Without storage it throws unless there is no index. |
| TldTrie.SplitJoins | helpers/gen-tldTrie.go:46 | `strings.Split(s, ".")` yields dot-free labels that join back to `s`. |
| TldTrie.SplitJoin | helpers/gen-tldTrie.go:46 | Splitting undoes joining for dot-free labels. |
| TldTrie.InsertContains | helpers/gen-tldTrie.go:45-58 | After `Add`, the name's labels, read from the right, are a path of the trie. |
| TldTrie.InsertPaths | helpers/gen-tldTrie.go:45-58 | `Add` keeps every existing path and creates no path other than prefixes of the new one. |
| TldTrie.InsertPresent | helpers/gen-tldTrie.go:49-56 | Adding a path that is already there leaves the trie unchanged. |
| TldTrie.AddIdempotent | helpers/gen-tldTrie.go:45-58 | Adding the same name twice is adding it once. |
| TldTrie.WalkShape | helpers/gen-tldTrie.go:67-79 | The walk returns the matched labels, or the first missing label, a dot, and the labels matched so far. |
| TldTrie.ExtendJoins | helpers/gen-tldTrie.go:73-76 | Growing `match` label by label from the right joins the labels in their original order. |
| TldTrie.LookupAfterAdd | helpers/gen-tldTrie.go:45-80 | After `t.Add(s)`, `t.Lookup(s)` returns `s`, for any name that does not end in a dot. |
| TldTrie.LookupMissingRightmost | helpers/gen-tldTrie.go:69-72 | When the rightmost label is unknown, `Lookup` returns that label followed by a dot. |
| TldTrie.WalkPartial | helpers/gen-tldTrie.go:67-79 | A partial walk returns one label more than it matched, and that is a suffix of the name. |
| TldTrie.LookupPartial | helpers/gen-tldTrie.go:62-80 | When some but not all labels are known, `Lookup` returns the known suffix plus the next label to its left. That result is a suffix of the name. |
| TldTrie.Lookup | helpers/gen-tldTrie.go:62-80 | The loop computes `LookupOf` and leaves the trie alone. |
| TldTrie.TrimSpace | helpers/gen-tldTrie.go:158 | A trimmed line neither starts nor ends with space. It is the line with its leading space and then its trailing space dropped. |
| TldTrie.TrimLeft | helpers/gen-tldTrie.go:158 | The first half of `strings.TrimSpace` keeps a suffix of the line. Every character it drops is space, and the suffix does not start with space. |
| TldTrie.TrimRight | helpers/gen-tldTrie.go:158 | The second half keeps a prefix. Every character it drops is space, and the prefix does not end with space. |
| TldTrie.TrimSpaceBlank | helpers/gen-tldTrie.go:158-161 | A line is skipped as blank exactly when all its characters are space. |
| TldTrie.AddLinesStep | helpers/gen-tldTrie.go:145-170 | Each line read adds its entry, if it has one, to the trie. |
| TldTrie.Entry | helpers/gen-tldTrie.go:153-169 | A line gives an entry exactly when it is nonempty, does not start with `/`, `*` or `!`, is not blank, and is ASCII below 127 after trimming. The entry is the trimmed line. |
| TldTrie.ReadList | helpers/gen-tldTrie.go:143-170 | The read loop builds `AddLines` of the lines. |
| TldTrie.AddLinesPaths | helpers/gen-tldTrie.go:143-170 | Every accepted entry is in the built trie, and every path of the trie is a prefix of some accepted entry. |
| TldTrie.ChunkFull | helpers/gen-tldTrie.go:195-200 | A line written inside the loop has at least 80 characters and ends at a comma. |
| TldTrie.ChunkRest | helpers/gen-tldTrie.go:190-193 | With no comma left, the rest is written, and the output is the whole text. |
| TldTrie.ChunkDone | helpers/gen-tldTrie.go:189-201 | When the loop ends at a comma, the written lines are the text up to where the last line ended. |
| TldTrie.ChunkLines | helpers/gen-tldTrie.go:185-201 | The lines written join to a prefix of the JSON text, and every line but the last is full. The prefix is the whole text whenever the text does not end in a comma. |
| Scheduler.SyncOff | extension/chrome/content/phishdetect.js:273-283 | A sync interval of 0 minutes or less never triggers a node sync. |
| Scheduler.DueStaysDue | extension/chrome/content/phishdetect.js:266-293 | A due task stays due as time passes, until its timestamp moves. |
| Scheduler.ReportsAtMostHourly | extension/chrome/content/phishdetect.js:275-286 | The last try is stored in whole seconds. A report run is therefore due only more than 3599 seconds after it, and always due once an hour and one millisecond have passed. |
| Scheduler.ReportMessageCount | extension/chrome/content/phishdetect.js:289-291 | The status line reads "No incidents to be reported." exactly when nothing was sent. Otherwise `parseInt` of it gives the number sent. |
| Scheduler.FetchOutcome | extension/chrome/content/phishdetect.js:223-237 | An indicator batch ends with "Fetched indicators." exactly when it finished. A database error shows the error and then "Fetch cancelled.". |
| Scheduler.CheckForPhishStored | extension/chrome/content/phishdetect.js:112-118 | An unknown e-mail is not phish. After its status is stored, it is phish exactly when the status is -1, and other e-mails are unaffected. |
| Scheduler.TaskScheduler | extension/chrome/content/phishdetect.js:266-294 | A node sync is started exactly when due. When a report run is due, it sends the pending incidents, shows the count line and moves the timestamps. When none is due, nothing changes. |
| Scheduler.ScanGuard.constructor | extension/chrome/content/phishdetect.js:352 | Loading the extension clears `pdScanning`. |
| Scheduler.ScanGuard.EndHeaders | extension/chrome/content/phishdetect.js:383-409 | An unprocessed message starts a scan exactly when none is running, and the guard then holds its id. Otherwise the message waits. A processed message shows its stored status. |
| Scheduler.ScanGuard.ScanDone | extension/chrome/content/phishdetect.js:396-403 | The completion callback clears the guard and stores the status. |
| Scheduler.ScanThenShow | extension/chrome/content/phishdetect.js:383-409 | An unprocessed message starts a scan, and once it is done its bar shows the stored result. |
| Scheduler.OneScanAtATime | extension/chrome/content/phishdetect.js:389-404 | While one scan runs, a second unprocessed message does not start another. |
| Scheduler.FlaggedCounts | extension/chrome/content/phishdetect.js:87-89 | `flagged` counts exactly the statuses equal to -1. |
| Scheduler.FolderScan.constructor | extension/chrome/content/phishdetect.js:78-81 | A folder scan starts at position 1 with nothing flagged. |
| Scheduler.FolderScan.Inspected | extension/chrome/content/phishdetect.js:84-94 | Each callback counts a -1 status, reports the position and count, and moves on one position. |
| Scheduler.FolderScan.Complete | extension/chrome/content/phishdetect.js:106 | For a consistent scan, the final line reports the number of statuses seen that were -1. |
| Scheduler.ScanFolder | extension/chrome/content/phishdetect.js:78-108 | After all callbacks, `flagged` is the number of -1 statuses and `pos` is one past the number inspected, so `0 <= flagged <= pos - 1`. The closing line reports that number. |
| Prefs.Clamp | extension/chrome/content/pd-prefs.js:67-72 | The sync interval is pinned into `[0, 44640]`. An in-range value is kept. NaN stays NaN. |
| Prefs.NumberTextRoundTrip | extension/chrome/content/pd-prefs.js:73 | `parseInt` of the written number gives the number back. |
| Prefs.SyncFieldReadsClamped | extension/chrome/content/pd-prefs.js:65-78 | Reading the rewritten field gives the clamped interval, within `[0, 44640]` unless the text was not a number. |
| Prefs.SyncFieldIdempotent | extension/chrome/content/pd-prefs.js:65-78 | Rewriting the field twice is rewriting it once. |
| Prefs.SyncFieldInRange | extension/chrome/content/pd-prefs.js:67-73 | An in-range decimal interval is left as it is. One outside is pinned to "0" or "44640". |
| Prefs.PrefsPane.constructor | extension/chrome/content/pd-prefs.js:48 | The dialog holds the given field values. |
| Prefs.PrefsPane.Changed | extension/chrome/content/pd-prefs.js:47-84 | A missing field throws. The node URL is accepted exactly when it parses as http or https. The sync interval is clamped, written back and accepted. The contact field is accepted. Any other field gives `undefined`. |
| Prefs.PrefsPane.Validate | extension/chrome/content/pd-prefs.js:40-44 | With the dialog's own `changed`, the form is accepted exactly when the URL is accepted and the sync field exists, and the sync field is clamped. |
| Prefs.PrefsPane.ValidateAsWritten | extension/chrome/content/pd-prefs.js:40-44 | As written, `validate` throws on every form. |
| Prefs.ValidateAsWrittenRejectsValidForm | extension/chrome/content/pd-prefs.js:40-44 | On a valid form the written `validate` throws, while the intended one accepts it. |
| Js.ParseDecimal | extension/chrome/content/pd-prefs.js:67-73 | `parseInt(String(n))` is `n` for every integer. |

## Left out

- **I/O and user interface.** Logging, the status bar, alert dialogs, the rescan dialog, the message-list column and the notification bar's contents are not modelled. `ShowBar` stands for showing the bar. The stored preferences are values passed in and returned, such as `Stamps`.
- **Network.** `pdSendRequest`, `pdSendEvent`, the fetch in `pdFetchIndicators` and `http.Get` in the generator are not modelled. The node's answers are parameters: `failed`, `rejected`, and the `Completion` of a batch.
- **Foreign code.** SHA-256, `pdGetDomainName`, the `URL` parser, `base64js.toByteArray` and `MsgHdrToMimeMessage` are parameters or given values. The two link expressions of `pdCheckMIMEPart` are not modelled either: a body carries the strings they capture, in match order.
- **Clock and randomness.** `Date.now()` is a parameter, in seconds or milliseconds as each caller uses it.
- Inspect.InspectEMail: the TEST-mode demo indication (pd-client.js:664-669, `Math.random`) is left out, so the model is the extension with `pdPrefs.test` off.
- Scheduler.TaskScheduler: the node sync it starts is returned as a flag. Its fetch, the two `addIndicators` calls and the rescan callback are not run. `FetchOutcome` covers the messages of one batch.
- **Floating point.** `init` in both copies of the Bloom filter is not modelled. It computes sizes with `Math.log2` and `Math.LN2`, and the legacy copy's `init` names variables that do not exist.
- Bloom.BloomFilter.InitDirect: it requires `numBits >= 1`, because `Math.log2` of a non-positive number is `-Infinity` or NaN. It allocates `(numBits+7)/8` bytes, which agrees with the extension copy's `>> 3` below 2^31 - 7 (`ByteCountsAgree`; see Findings).
- **Numbers** are unbounded integers or NaN. The rounding of `parseInt` results above 2^53 and the value -0 are not modelled. Database ids are unbounded.
- **Row order of queries.** Query results are listed in id order. The SELECTs of `getPendingTags`, `getEmailsWithTag`, `getIncidents` and `getIndications` have no ORDER BY, so the source promises no order; `PendingTagsExact`, `IncidentsOrdered` and `IncidentsExact` state the model's order.
- DatabaseStore.Store.SetEmailStatus: returns `true` after a write. The source returns the result of `stmt.execute()`, which is `undefined`, although its doc comment promises a boolean. A refused id gives `false` in both.
- **Database.** The database file, its creation and the schema text are not modelled; a new `Store` has five empty tables. FOREIGN KEY clauses are not modelled, because SQLite does not enforce them without a pragma the code never sets. Exceptions inside SQLite are not modelled. `addIndicators` with a single non-array argument is not modelled: it binds a parameter the statement does not have, and the callers always pass arrays.
- **`getEmailId` with `undefined`.** An e-mail whose `message-id` header is an empty list would call `getEmailId(undefined, …)`. The model treats it as not found (id 0).
- **Order of callbacks.** The asynchronous callbacks of `pdScanFolder` are taken in header order. `setInterval` timing and the folder's message enumeration are not modelled.
- **`pdPrefsPane.init`** (date display) and `pdGetElapsedTime` are not modelled. Both format dates.
- **The `node-sync` `catch` in `changed`** is not modelled: `parseInt` and the write back do not throw on strings.
- **Generator I/O.** The JSON marshalling, the `-i`/`-c` check mode and the file output of the generator are not modelled. `ReadLine` splitting lines longer than its buffer is not modelled either. Lines are given as strings, and ASCII is checked per character rather than per decoded rune.
- TldTrie.Add: the Go trie is a map of maps updated in place, and it is modelled as a value. `Add` only creates fresh nodes, so no sharing is lost.

## Findings

| source | as written | input that shows it | evidently intended | confidence | as-written member | corrected member |
|---|---|---|---|---|---|---|
| extension/chrome/content/libs/pd-client.js:269-290 | Response `i` sets the flag of `pending[i]`, but the responses answer only the incidents actually sent. | Two pending incidents, the first a test incident (kind 0) with test reports off. Only the second is sent. Its response flags the test incident 1 and leaves the genuine one at -1. | Response `i` settles the `i`-th incident sent. | high, not executed | Report.AsWrittenMisroutes | Report.SendReportOutcome |
| extension/chrome/content/libs/pd-client.js:642-647 | `getEmailId(msgId, label)` puts the label in the `isRetry` position, so a missing e-mail is never inserted. | Any e-mail whose message id is not stored yet: the inspection returns null and records no tag or incident. | Get-or-create: `getEmailId(msgId)`. | high, not executed | Inspect.AsWrittenDropsNewEmails | Inspect.InspectRecordsIncidents |
| extension/chrome/content/libs/bloomfilter.js:65 | `new Uint8Array((numBits+7) >> 3)` wraps at 32 bits. | `initDirect(2^32, 1)`: no byte is allocated, and an added entry is not contained. | `(numBits+7)/8` bytes, as in the legacy copy. | medium, not executed | Bloom.WrappedAllocationLosesEntries | Bloom.NoFalseNegatives |
| extension/chrome/content/pd-prefs.js:41-42 | `validate` calls a bare `changed`, which is a member of `pdPrefsPane` and not a name in scope, so it throws. | A form with node URL "https://node.example" and sync interval "60". | `this.changed(…)`. | medium, not executed | Prefs.PrefsPane.ValidateAsWritten | Prefs.PrefsPane.Validate |
