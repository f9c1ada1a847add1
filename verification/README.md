# Customer lookup by phone number

This project models, in Dafny, how the OmniCall API server finds a customer
from a phone number (`GET /api/customers/by-phone?phone=...`). Two parts of
the server are covered.

- **Normalization** (`PhoneNumbers`). A phone string is filtered down to its
  ASCII digits and plus signs, in their original order. Every plus sign is
  kept, wherever it stands. A functional definition `Normalize` sits beside
  the server's character loop `NormalizePhoneNumber`, and they are proved
  equal.
- **Resolution** (`CustomerLookup`, `ByPhoneEndpoint`). An empty query is
  rejected before the directory is read. Otherwise the exact read is tried:
  the stored phone must equal the query verbatim. Only when it finds no rows
  is the whole directory listed and scanned. The scan returns the first
  customer, in directory order, whose phone is not NULL and normalizes to the
  normalized query. If neither path matches, the answer is "not found".
  Either database read may fail, and the request then ends with status 500.

The database is replaced by a `Store`. A store holds one directory snapshot
(`seq<Customer>`, in the order the database returns rows) and two flags: one
says whether the exact read fails, the other whether the list read fails,
each with an error other than "no rows". Both reads see the same snapshot.

**Assumption about the exact read.** The SQL behind `GetCustomerByPhone` is
not part of this model. It is taken to return the first row, in directory
order, whose phone is not NULL and equals the query character for character.
A NULL phone never matches, as with SQL equality.

**Which characters survive.** The comment above the loop
(`server/main.go:690`) speaks of removing spaces, hyphens, parentheses and
dots. The loop itself drops every character except ASCII digits and `+`, and
keeps every `+`, wherever it stands (`server/main.go:693`). The model follows
the loop; `PlusKeptAnywhere` records the second point.

**Noted behaviour.** A nonempty query with no digit and no `+` (say
`"unknown"`) normalizes to the empty string. It therefore matches the first
customer whose stored phone also has none (say `"n/a"`). This is what the
code does, and `DigitFreeQueryMatchesDigitFreePhone` states it for every
directory in which the query is stored nowhere verbatim, when both database
reads succeed.

## Model

| member | source | states |
|---|---|---|
| PhoneNumbers.Normalize | server/main.go:689-698 | the normalized phone holds only digits and plus signs, and is no longer than the input |
| PhoneNumbers.NormalizePhoneNumber | server/main.go:689-698 | the server's append-per-character loop computes exactly the functional normal form |
| PhoneNumbers.NormalizeAppend | server/main.go:692-696 | normalization distributes over concatenation, so each part's digits keep their place |
| PhoneNumbers.NormalizeFixedPoint | server/main.go:692-695 | a string is its own normal form if and only if it consists of digits and plus signs only |
| PhoneNumbers.NormalizeIdempotent | server/main.go:689-698 | normalizing twice gives the same result as normalizing once |
| PhoneNumbers.NormalizeEmpty | server/main.go:692-695 | the normal form is empty if and only if the input has no digit and no plus sign |
| PhoneNumbers.SeparatorsIgnored | server/main.go:690-695 | inserting or deleting a run of dropped characters anywhere does not change the normal form |
| PhoneNumbers.FormattingDropped | server/main.go:690-695 | spaces, hyphens, parentheses and dots all vanish under normalization |
| PhoneNumbers.NormalizeSubsequence | server/main.go:692-696 | the normal form is a subsequence of the input: characters are only deleted, never reordered |
| PhoneNumbers.NormalizeCounts | server/main.go:692-696 | each digit and plus sign occurs in the normal form as often as in the input; every other character does not occur |
| PhoneNumbers.PlusKeptAnywhere | server/main.go:693 | a plus sign at any position survives in place: normalizing `a + "+" + b` gives the normal form of `a`, then `+`, then the normal form of `b` |
| PhoneNumbers.NoCountryCodeRewriting | server/main.go:689-698 | for every rest of number `s`, `"+27" + s` normalizes to `"+27"` followed by the normal form of `s` and `"0" + s` to `"0"` followed by it, so the two spellings never normalize alike: no trunk prefix 0 is replaced with a country code |
| PhoneNumbers.LeadingZeroKept | server/main.go:692-695 | for every string, a leading 0 stays as the first character of the normal form, followed by the normal form of the rest |
| CustomerLookup.FirstMatch | server/main.go:486-497 | the index found is that of an accepted entry with no accepted entry before it; none is found only if no entry is accepted |
| CustomerLookup.ExactLookup | server/main.go:460-464 | the exact read returns an entry stored verbatim as the query, and finds no rows only when there is no such entry |
| CustomerLookup.ScanNormalized | server/main.go:486-497 | the scan skips NULL phones and stops at the first entry whose normalized phone equals the key; it finds nothing only when no entry matches |
| CustomerLookup.Resolve | server/main.go:451-511 | an empty query, and only an empty query, is rejected whatever the store holds; an exact-read failure is reported; a list-read failure is reported exactly when the query is nonempty, the exact read succeeds and finds no verbatim entry, and the list read fails; a found customer is in the directory with a normalized phone equal to the normalized query; not found means no entry matches after normalization |
| CustomerLookup.ExactMatchWins | server/main.go:460-500 | for a nonempty query, when the exact read succeeds, an entry stored verbatim as the query is answered by the exact path, the first such entry wins, and a failing list read does not matter |
| CustomerLookup.FallbackFirstMatch | server/main.go:486-497 | for a nonempty query, when both reads succeed and no entry is stored verbatim as the query, the first entry in directory order with a present phone of the same normal form is returned |
| CustomerLookup.FoundIffSomeEntryMatches | server/main.go:470-511 | for a nonempty query, when both reads succeed, a customer is found if and only if some entry's present phone has the query's normal form; otherwise the answer is not found |
| CustomerLookup.ResolveIgnoresFormatting | server/main.go:470-497 | two nonempty queries with the same normal form, neither stored verbatim, get the same answer, whichever reads fail |
| CustomerLookup.ExactPathOverridesScanOrder | server/main.go:460-497 | for every `x`, `y` (not both empty), in the directory [`x-y`, `xy`] the query `xy` returns the later, verbatim entry although the earlier one has the same normal form, while `x y` returns the earlier one |
| CustomerLookup.DigitFreeQueryMatchesDigitFreePhone | server/main.go:486-497 | when both reads succeed, a nonempty query with no digit and no plus sign, stored nowhere verbatim, is answered with the first entry whose present phone has no digit and no plus sign |
| ByPhoneEndpoint.Render | server/main.go:453-518 | status 400 for an empty query, 500 for a failed read, 200 otherwise; success is true exactly when a customer is carried, and that is the customer found |
| ByPhoneEndpoint.RenderRoundTrip | server/main.go:453-518 | the lookup outcome can be read back from the response: distinct outcomes give distinct responses |
| ByPhoneEndpoint.GetCustomerByPhone | server/main.go:451-519 | the handler's early-return flow yields the rendered resolution; it answers 400 with the detail "Phone number is required" exactly for a missing or empty phone parameter; a successful answer carries a directory customer whose phone normalizes like the query |

## Left out

- The call-session state machine of the browser softphone (phases, grace delays, duration ticker, stale lookup results): its code is not part of this model.
- HTTP routing, CORS, cookies, JSON encoding and `respondError` (server/main.go:83-157, 700-704): transport plumbing. Responses are modelled as a status and a body value.
- The SQLite schema and the `s.queries.*` calls: the database is replaced by an in-memory snapshot, with each read's failure as a flag.
- Writes between the two reads: the exact read (server/main.go:461) and the list read (server/main.go:478) are separate queries, but the model lets both see one snapshot, so a customer added, removed or changed in between is not modelled.
- Request contexts and cancellation: a cancelled request shows up only as a failed read.
- Registration, login, sessions, bcrypt and `generateSessionID` (server/main.go:236, 309, 683-687): foreign cryptographic calls and random numbers.
- Twilio token creation and the TwiML webhooks (server/main.go:521-680): thin wrappers around a library and string templates.
- Session expiry checks based on `time.Now()` (server/main.go:379, 535): wall-clock dependent.
- Logging calls: no effect on results.
- URL decoding of the query string (`r.URL.Query()`, server/main.go:452): the `phone` value is modelled after decoding. In particular, an unescaped `+` in the URL reaches the lookup as a space, so `?phone=+2767...` is looked up as `" 2767..."`, whose normal form lacks the plus sign; callers must send `%2B`. Percent-escapes and malformed query strings are not modelled.
- Go's decoding of invalid UTF-8 into U+FFFD while ranging over a string: the input is modelled as a sequence of characters already decoded, and the replacement character is dropped like any other non-digit.
- The Customer record keeps only an id, first and last names and the phone; its other columns are not read by the lookup.
