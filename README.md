# Email deliverability batch checker — a verified model

The tool reads a CSV of email addresses in the browser and lists the first field of each
row. For each address it asks its own server route whether the address's domain has DNS
MX records. It shows a status per address and lets the user download the addresses found
valid. This project models the logic of both halves in Dafny:

- `js.dfy` (module `Js`): the JavaScript semantics the logic relies on. It covers JSON
  values, truthiness, and reading a property. Reading a property throws on `null` and
  `undefined`.
- `route.dfy` (module `CheckEmailRoute`): the server route. It models
  `email.split("@")[1]` as the domain, `validateEmailDomain` over an abstract MX resolver,
  and `POST` as a total function giving one of three responses (400, 200 `{isValid}`,
  500).
- `page.dfy` (module `EmailBatch`): the page's state as the class `BatchChecker`. Its
  fields are `emails`, `statuses`, `isChecking` and `checked`. Its methods are
  `LoadRows` (the upload handler), `CheckAll` (the check-all loop) and `ExportValid` (the
  download handler). Beside them are the pure functions they are specified by.
- `pipeline.dfy` (module `Pipeline`): page and route together. It proves that a reply
  settles as Valid exactly when the route's classifier accepts the address. It also works
  through a two-address scenario from end to end.

The DNS lookup is the parameter `resolveMx: string -> MxLookup`, where
`MxLookup = Records(count) | LookupError`. The server's replies reach `CheckAll` as one
`Reply` per dispatched check: a network error, or an HTTP status with a JSON body or a
body that is not JSON. The CSV library appears only through what it hands over: the
parsed rows, or a read failure.

Where a reader might expect otherwise, the model follows the code:

- Every row is data. A header such as `email` is kept. There is no email-format
  filtering, no trimming and no deduplication.
- The domain is the text between the first `@` and the next `@` (or the end). It is not
  everything after the first `@`. For `a@b@c` the domain is `b`.
- There is no Pending status. An email that has not been checked has no key in the map.
- `CheckDeliverability` never looks at the HTTP status. A reply body with a truthy
  `isValid` gives Valid whatever the status is.
- Loading a file does not reset `checked`.
- A truthy email that is not a string (a number, an object) makes `email.split` throw.
  The route answers 500, not 400.

## Model

| member | source | states |
|---|---|---|
| `Js.Truthy` | src/app/page.jsx:38 | exactly `undefined`, `null`, `false`, `0` and `""` are falsy; every other value, including every array and object, is truthy (the test behind `.filter(email => email)`, `isValid ? ... : ...` and `if (!email)`) |
| `Js.Property` | src/app/page.jsx:22 | reading a property throws exactly on `null` and `undefined`; on an object holding the key it yields that field, and on any other value it yields `undefined` |
| `EmailBatch.ExtractEmails` | src/app/page.jsx:36-38 | the extracted list is never longer than the rows, and every entry is non-empty |
| `EmailBatch.ExtractMembers` | src/app/page.jsx:36-38 | an email is extracted iff some row has it as its present, non-empty first field |
| `EmailBatch.ExtractAppend` | src/app/page.jsx:36-38 | extraction works row by row: the rows of `a + b` give the emails of `a` followed by those of `b`, so file order is kept |
| `EmailBatch.ExtractIsNaive` | src/app/page.jsx:36-38 | a header `email`, a lone space and a repeated address are kept; rows with no or an empty first field are dropped |
| `EmailBatch.BatchChecker.constructor` | src/app/page.jsx:6-9 | the initial state: no emails, empty status map, not checking, not checked |
| `EmailBatch.BatchChecker.LoadRows` | src/app/page.jsx:35-45 | parsed rows replace `emails` with their extraction, clear the statuses, reset `isChecking` and leave `checked` alone; a read failure changes nothing |
| `EmailBatch.CheckDeliverability` | src/app/page.jsx:11-27 | the result is `false` on a network error, a non-JSON body or a `null` body; it is truthy iff the reply body is an object whose `isValid` is truthy |
| `EmailBatch.Settle` | src/app/page.jsx:59-62 | the terminal status is never Checking, and is Valid iff the reply carries a truthy `isValid` |
| `EmailBatch.UnconfirmedIsInvalid` | src/app/page.jsx:21-26 | a network error, a non-JSON body, a `null` body, a body without `isValid`, or `isValid: false` all give Invalid, whatever the HTTP status |
| `EmailBatch.Merge` | src/app/page.jsx:54-57 | a merge-style update sets one key and keeps every other key and its value |
| `EmailBatch.BatchChecker.Publish` | src/app/page.jsx:60-63 | one status update replaces the map by its merge with one key and changes no other field |
| `EmailBatch.AfterChecks` | src/app/page.jsx:52-64 | the batch of status updates never drops a key, and every email of the list has a key afterwards |
| `EmailBatch.AfterChecksKeys` | src/app/page.jsx:52-64 | after the batch, the keys are the old keys plus exactly the checked emails |
| `EmailBatch.AfterChecksFrame` | src/app/page.jsx:52-64 | a key that was not checked keeps its entry, or stays absent |
| `EmailBatch.AfterChecksSettled` | src/app/page.jsx:52-64 | every checked email ends Valid or Invalid, never Checking |
| `EmailBatch.AfterChecksLastWrite` | src/app/page.jsx:52-64 | an email's final status is the one its last check produced |
| `EmailBatch.AfterChecksConsistent` | src/app/page.jsx:52-64 | when every check of the same email settles alike, each email ends with the status its reply gives |
| `EmailBatch.BatchChecker.CheckAll` | src/app/page.jsx:49-67 | the loop leaves `emails` unchanged, leaves the status map as the batch function of the old map, sets `checked`, and leaves `isChecking` false |
| `EmailBatch.ValidEmails` | src/app/page.jsx:70-72 | the export list holds exactly the listed emails marked Valid, and is never longer than the list |
| `EmailBatch.ValidEmailsAppend` | src/app/page.jsx:70-72 | the filter keeps order |
| `EmailBatch.ValidEmailsCount` | src/app/page.jsx:70-72 | the filter keeps duplicates: a valid email occurs as often as in the list, any other email not at all |
| `EmailBatch.AsRows` | src/app/page.jsx:80 | one export row per email, in order, each row the single field `[email]` |
| `EmailBatch.ExtractAsRows` | src/app/page.jsx:80 | reading the one-field export rows back gives the exported emails again, in order |
| `EmailBatch.BatchChecker.ExportValid` | src/app/page.jsx:69-84 | gives the advisory iff no email is valid; otherwise gives the file `valid_emails.csv` with one single-field row `[email]` per valid email, in order, so the rows read back as exactly the valid emails |
| `CheckEmailRoute.Split` | src/app/api/check-email/route.js:22 | `split` gives at least one piece, and no piece contains the separator |
| `CheckEmailRoute.JoinSplit` | src/app/api/check-email/route.js:22 | joining the pieces with the separator gives the original string |
| `CheckEmailRoute.SplitJoin` | src/app/api/check-email/route.js:22 | splitting a join of separator-free pieces gives the pieces back |
| `CheckEmailRoute.SplitSingle` | src/app/api/check-email/route.js:22 | there is exactly one piece iff the separator does not occur |
| `CheckEmailRoute.Domain` | src/app/api/check-email/route.js:22 | there is no domain iff the email has no `@`; a domain never contains `@` |
| `CheckEmailRoute.DomainOfDecomposition` | src/app/api/check-email/route.js:22 | for `local@domain` followed by nothing or by another `@`, the domain is exactly `domain` |
| `CheckEmailRoute.DomainDecomposes` | src/app/api/check-email/route.js:22 | conversely, every email with a domain has that shape |
| `CheckEmailRoute.SecondAtEndsDomain` | src/app/api/check-email/route.js:22 | `a@b@c` has domain `b`, and its verdict is decided by the lookup of `b` |
| `CheckEmailRoute.ValidateEmailDomain` | src/app/api/check-email/route.js:21-33 | true only for an email with an `@`, a non-empty domain, and a lookup of that domain with at least one record |
| `CheckEmailRoute.ValidIffRecords` | src/app/api/check-email/route.js:27-32 | for a non-empty domain, the verdict is true iff the lookup gives n > 0 records; a lookup error gives false |
| `CheckEmailRoute.EmptyDomainIsInvalid` | src/app/api/check-email/route.js:22-25 | an empty segment after the first `@` (`a@`, `a@@b`) gives false, whatever the resolver would answer |
| `CheckEmailRoute.EmailArgument` | src/app/api/check-email/route.js:6 | destructuring `{ email }` fails exactly on an unparseable body, `null` or `undefined`; an object body holding `email` yields that field, and a defined result always is that field |
| `CheckEmailRoute.Post` | src/app/api/check-email/route.js:4-19 | an unreadable body gives 500; 400 iff the email read is falsy; 200 iff it is a non-empty string, with `isValid` equal to the classifier's verdict for it |
| `CheckEmailRoute.StatusCode` | src/app/api/check-email/route.js:10-17 | the HTTP status is 200, 400 or 500 exactly for the checked, email-required and failed responses |
| `CheckEmailRoute.ResponseBody` | src/app/api/check-email/route.js:10-17 | the body is always a JSON object, carries `isValid` only on the checked response, and there it is the verdict; the 400 body carries the error "Email is required" and the 500 body the error "An error occurred" |
| `CheckEmailRoute.NoValidationUnlessChecked` | src/app/api/check-email/route.js:9-14 | a 400 or 500 response does not depend on the resolver; only a 200 does |
| `CheckEmailRoute.PostCases` | src/app/api/check-email/route.js:6-17 | an unparseable body or `null` gives 500; a missing or empty email gives 400; a numeric email gives 500; a non-empty string gives 200 with its verdict |
| `Pipeline.RequestFor` | src/app/page.jsx:13-19 | the body `JSON.stringify({ email })` gives the route exactly the string `email` as its `email` argument |
| `Pipeline.Deliver` | src/app/page.jsx:13-22 | the page receives the route's HTTP status, and the reply confirms validity exactly when the response is 200 with `isValid: true` |
| `Pipeline.ServerVerdictReachesClient` | src/app/page.jsx:13-22 | when the route's response reaches the page, the address settles Valid iff the classifier accepts it (an empty address gets the 400, and the classifier rejects it too) |
| `Pipeline.BatchAgreesWithServer` | src/app/page.jsx:52-72 | after a batch answered by the route, each listed email is Valid, and is exported, iff the classifier accepts it |
| `Pipeline.AliceAndBob` | src/app/page.jsx:36-77 | rows `alice@example.com` and `bob@no-mx-domain.test`, with only example.com having MX records, give `{alice: Valid, bob: Invalid}` and export alice alone |

## Left out

- CSV parsing and serialising by the CSV library (`Papa.parse` tokenising, quoting, newlines, `skipEmptyLines`; `Papa.unparse`). The model starts from parsed rows and ends at the export rows.
- DNS, HTTP, `fetch`, `request.json()` and `NextResponse` are I/O. They are abstract outcomes: `MxLookup`, `Reply`, `RequestBody`. JSON encoding and decoding are assumed to carry values intact.
- JSON numbers are exact decimals (`real`). Floating-point rounding is not modelled.
- `Js.Property` covers only keys that no built-in prototype defines. The code only reads such keys (`email`, `isValid`).
- CheckAll: the real `forEach(async ...)` starts every check at once, and the checks finish in any order. The model runs them one after another in list order, with the i-th reply answering the i-th email. For duplicate emails the real final status belongs to whichever check finishes last. In the model it belongs to the last occurrence. `isChecking` is set and then cleared, as in the code, where it is cleared before any lookup settles. One fixed `resolveMx` answers every lookup, so two checks of the same domain always agree, while real DNS lookups can differ between calls; `Pipeline.BatchAgreesWithServer` meets the requires of `EmailBatch.AfterChecksConsistent` only because of this. In the model `CheckAll` runs to completion before anything else happens. In the code a file load (src/app/page.jsx:39-41) can come while checks are still pending, and their status updates (src/app/page.jsx:60-63) then write stale statuses into the cleared map.
- EmailBatch.BatchChecker.LoadRows: "clears the statuses" holds at the moment of the load only. Status updates of checks still pending from an earlier batch can land afterwards, and the model does not capture them.
- The local `newStatuses` object in the check-all handler is written but never read, so it is not modelled.
- UI output is not modelled: rendering, status colours, the Blob/anchor download, `alert` and `console` logging. The advisory text and the file name are kept as constants.
- Header detection, email-format filtering, timeouts, concurrency caps and stale-batch tokens are not in the code, so they are not modelled.
