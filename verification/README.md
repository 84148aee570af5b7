# Referral backend: a Dafny model

This project models the logic of a small Express/Prisma referral server (`index.js`):

- **Referral intake** (`POST /api/referrals`). The handler validates the submitted form. It then runs one all-or-nothing database transaction: find the referrer by e-mail, create it or update it, and create the referral. Last, it sends two notification e-mails.
- **Reads.** `GET /api/referrals/:id` returns one referral with its referrer. `GET /api/referrers/:id/stats` returns a referrer with the status and program of each referral it owns.
- **Status update** (`PATCH /api/referrals/:id/status`).

The database is an immutable value (`Database.Store`). It holds:

- a map from referrer id to referrer row;
- the referrals, in insertion order;
- the two auto-increment counters;
- the column default for a new referral's status.

Each handler is a pure function. It takes a store and returns a response and the next store. The store's integrity rules are `Database.Valid`:

- a referrer row is stored under its own id;
- at most one referrer has a given e-mail;
- every referral points at an existing referrer;
- referral ids are distinct;
- each referrer's `referralCount` equals the number of referrals that point at it.

Modules, one per concern:

| module | file | what it holds |
|---|---|---|
| `Wrappers` | wrappers.dfy | `Option`, `Result` |
| `EmailPattern` | email.dfy | the regular expression `\S+@\S+\.\S+` as a predicate over index windows (`Matches`), and a one-pass scanner (`Scan`/`Test`) proved equal to it |
| `Text` | text.dfy | `Join` (JavaScript's `Array.join`), `Split`, and their round trip |
| `Validation` | validation.dfy | the payload, the presence check, the e-mail check, the 400 messages |
| `Database` | database.dfy | rows, store, integrity rules, unique lookups |
| `Responses` | responses.dfy | the HTTP answers and their status codes |
| `Intake` | intake.dfy | the transaction, the POST handler, invariant preservation |
| `Queries` | queries.dfy | GET by id, stats, PATCH status |
| `Scenarios` | scenarios.dfy | worked examples |

A status update for an id with no row answers 500, not 404: Prisma's `update` throws and the handler's `catch` answers 500 (index.js:275-283). `Queries.UpdateStatus` answers 500 in that case, and `Queries.MissingIdAnswers` states the contrast with the 404 of the reads.

## Model

| member | source | states |
|---|---|---|
| EmailPattern.Scan | index.js:79-80 | after reading a string, the scanner's five flags say exactly whether the string contains a full match of `\S+@\S+\.\S+`, and whether it ends inside the x, after "x@", inside the y, or after "x@y." of a partial match |
| EmailPattern.StepDescribes | index.js:79 | reading one more character keeps the scanner's flags equal to the reference predicates; a white-space character clears every partial match |
| EmailPattern.StepMatches | index.js:79 | a string plus one character matches iff the string already matched, or it ended right after "x@y." and the new character is not white space |
| EmailPattern.Test | index.js:79-80 | the executable e-mail test is true iff some window of the string reads x + "@" + y + "." + z, with x, y, z non-empty and free of white space, anywhere in the string (the regex is unanchored) |
| Scenarios.AcceptedAddresses | index.js:79-80 | "a@x.com" passes; an address with text around it passes too, because the pattern is unanchored |
| Scenarios.RejectedAddresses | index.js:79-82 | "@x.com", "a@.com", "a@x" and "a @x.com" are all rejected |
| Text.SplitJoin | index.js:74 | splitting a ", "-joined list of non-empty, comma-free labels gives back exactly that list |
| Validation.MissingAmong | index.js:67-69 | the filter keeps exactly the listed fields whose value is absent or empty, and keeps their order |
| Validation.Missing | index.js:58-69 | the missing fields are exactly the required fields that are absent or empty, in declaration order; the list is empty iff all six are present |
| Validation.Validate | index.js:57-83 | the missing-fields error happens iff some required field is absent or empty, and it lists all of them in declaration order; the invalid-format error happens iff all are present and either address fails the pattern, with no word on which one; otherwise the submission carries the payload's values and both addresses match |
| Validation.MissingMessageNamesEveryField | index.js:71-75 | for an incomplete payload, reading the 400 message back after "The following fields are required: " yields exactly the labels of the missing fields, in order |
| Validation.PhonesNeverRequired | index.js:58-65 | changing either phone field never changes whether validation fails, nor which error it reports |
| Database.FindReferrer | index.js:89-91 | the lookup returns a referrer row with the given e-mail; when every key was issued by the counter, it returns none iff no row has that e-mail; with unique e-mails the row found is the only one |
| Database.FindReferral | index.js:219-224 | the lookup by referral id returns the first row with that id, or none iff no row has it |
| Database.OwnedBy | index.js:244-250 | a referral is listed for a referrer iff it points at it; the list is never longer than the table |
| Database.OwnedByMultiset | index.js:244-250 | each referral pointing at the referrer is listed exactly as often as it occurs in the table, and no other referral is listed |
| Database.OwnedByAppend | index.js:244-250 | the list keeps insertion order: appending a referral appends it to its owner's list and leaves every other list as it was |
| Intake.Transact | index.js:86-139 | if the e-mail is unknown, a new referrer gets the next id, the supplied name and phone, and count 1. If it is known, that row keeps its id and e-mail, its count rises by 1, its name is overwritten, and its phone is overwritten unless omitted. No other referrer changes. Exactly one referral is appended; it carries the referee's fields and the default status, and points at that referrer. The returned pair is what was stored |
| Intake.TransactPreservesValid | index.js:86-139 | the transaction keeps every integrity rule; in particular at most one referrer per e-mail, and every referrer's count equal to the number of referrals pointing at it |
| Intake.TransactKeepsUniqueEmails | index.js:89-117 | the find-or-create step never gives a second row the e-mail of an existing one, and the new row's id is the next counter value, so ids stay keys |
| Intake.TransactKeepsCounts | index.js:105-134 | after the transaction every referrer's count equals the number of referrals pointing at it: the found or created referrer gains exactly the one referral appended, every other referrer's tally and count stay as they were |
| Intake.Submit | index.js:30-195 | a failed validation answers 400 with its message and leaves the store unchanged. The store is unchanged iff the answer is 400. Otherwise exactly one referral is appended and the earlier ones stay as they were. The answer is 201 iff validation passed and the e-mails went out, with the committed referrer and referral; it is 500 "Internal server error" iff validation passed and the e-mails failed |
| Intake.SubmitPreservesValid | index.js:30-139 | every answer of the handler leaves a valid store valid |
| Intake.MailFailureStillCommits | index.js:182-193 | when the notification e-mails fail the answer is 500, yet the store holds the same committed rows as when they succeed |
| Intake.SubmitFromNewEmail | index.js:89-103 | first submission from an e-mail: exactly one referrer row carries it afterwards; it is new, with the supplied name and phone and count 1; every earlier row is unchanged |
| Intake.SubmitFromKnownEmail | index.js:105-126 | later submission from a known e-mail: no row is added; that row keeps its id and e-mail, count + 1, new name, phone overwritten unless omitted; other rows unchanged; the new referral points at it |
| Intake.TransactFromNewEmail | index.js:89-103 | a transaction from an unknown e-mail leaves exactly one row carrying it, the new one, with count 1, owning the new referral, and keeps every integrity rule |
| Intake.TransactFromSoleReferrer | index.js:89-126 | a transaction from the e-mail of the one row carrying it finds that row, keeps it the only one with that e-mail, raises its count by 1, and the new referral points at it |
| Intake.SubmitTwiceSameReferrer | index.js:86-134 | two submissions from the same new e-mail leave one referrer row for it, with count 2, owning both new referrals |
| Scenarios.FirstSubmission | index.js:86-134 | into an empty store, the submission from a@x.com answers 201 with referrer 1 (count 1) and referral 1 |
| Scenarios.SecondSubmission | index.js:86-134 | a second submission from a@x.com finds referrer 1 and raises its count to 2; the store then has one referrer and two referrals |
| Queries.GetReferral | index.js:216-235 | the answer is 404 "Referral not found" iff no referral has the id; otherwise it is that referral with its referrer row embedded |
| Queries.GetReferralEmbedsOwner | index.js:219-224 | in a valid store, a found referral always embeds its owning referrer |
| Queries.ReferrerStats | index.js:238-263 | the answer is 404 "Referrer not found" iff no referrer has the id; otherwise it is that referrer with the status and program of each referral it owns, in insertion order |
| Queries.StatsAgreeWithCounter | index.js:241-258 | in a valid store, the stats list as many referrals as the referrer's count |
| Queries.UpdateStatus | index.js:266-285 | the answer is 400 "Status is required", 500 "Internal server error" or the updated row, never 404. It is 400 iff the status is absent or empty, and 500 iff the status is present and no referral has the id; so a present status on an existing id always succeeds. Any answer other than the updated row leaves the store unchanged. On success only the first row with that id has its status changed, and the answer is that row |
| Queries.MissingIdAnswers | index.js:266-283 | for an id with no referral, GET answers 404, while PATCH answers 500 and changes nothing |
| Queries.UpdateStatusTouchesOnlyTarget | index.js:271-278 | in a valid store, a present status on an existing id succeeds, and changes the status of the row with that id and nothing else |
| Queries.UpdateStatusPreservesValid | index.js:275-278 | a status update keeps every integrity rule |
| Queries.UpdateThenGet | index.js:271-280 | a present status on an existing id succeeds, and reading the same id afterwards returns the updated row with the new status |

## Left out

- HTTP routing, CORS, JSON body parsing and the generic error middleware (index.js:7-13, 287-291) are framework glue. Path ids are taken as integers: the `parseInt` of a non-numeric path, which makes Prisma throw, is not modelled.
- The payload's fields are modelled as absent or a string. JSON numbers, booleans and `null` are not modelled. A `null` phone is therefore not separate from an omitted one.
- Prisma's client, connection setup and transaction isolation are replaced by the immutable store. `Transact` is a pure function, so all-or-nothing holds by construction. Database failures inside the transaction, which roll back and answer 500, are not modelled. Neither are races between concurrent submissions from one e-mail.
- The unique e-mail index is modelled as a scan over ids below the referrer counter. The integrity rule `KeysAreIds` makes this scan complete.
- Database.FindReferrer: e-mails are compared as exact character sequences. The column's collation is not fixed by the source and is not modelled; under a case-insensitive collation "A@x.com" would find the row of "a@x.com", where the model creates a second referrer.
- The 201 body's text "Referral submitted successfully" (index.js:188) is not modelled, and `Responses.Created` does not embed the referrer inside the referral (index.js:128-130). The referrer it carries beside the referral is the same committed row.
- The value of the status column default lives in the Prisma schema, which is not part of this model. The store carries it as `defaultStatus`. `Database.Empty` starts both counters at 1, as auto-increment columns do.
- The Nodemailer transport and the HTML bodies of the two e-mails (index.js:15-22, 141-185) are foreign I/O. Their joint outcome is the boolean `mailDelivered` of `Intake.Submit`.
- Console logging and environment configuration (index.js:1, 9, 24-27, 32-55) have no behaviour to model.
- The list endpoint (index.js:197-213) is not modelled: its newest-first order depends on database timestamps. For the same reason `createdAt` is absent from referrals and from the stats summaries.
- The order of the referrals embedded in the stats answer is not fixed by the source. The model uses insertion order.
