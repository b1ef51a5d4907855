# Contact-form intake, four server variants

This project models the one piece of logic in a small portfolio backend: the
contact-form intake. A visitor posts a submission (firstName, lastName, email,
phone, message). The server checks that the three required fields are there,
keeps the submission, tries to send a notification e-mail, and answers with a
status code and a text. The repository has four server variants of that
handler, and each one is modelled as a class in its own module:

| module | source | state |
|---|---|---|
| `RobustServer` | server-robust.js | in-memory list, document store, `mongoConnected`, `emailConfigured` |
| `EmailTestServer` | server-email-test.js | in-memory list, `emailConfigured` |
| `MongoServer` | server.js | document store, `emailConfigured` |
| `SimpleServer` | server-simple.js | in-memory list |

`Contact` holds what they share:
- the `Submission`;
- the two kinds of stored record (`MemoryRecord`, `DurableRecord`);
- the `Outcome` of a call to an external service;
- the `Response`;
- the rendered `Mail`;
- JavaScript falsiness (`Falsy`, `IsComplete`, `Or`);
- the name line (`NameOf`);
- the in-place reversal used by `GET /messages` (`Reversed`).

The external services are the document store (save, find) and the mail transport (verify, sendMail).
They appear only as `Outcome` parameters (`Ok` or `Fail(reason)`), so every handler is a
deterministic method. The clock readings (`Date.now()`, the ISO timestamp) are opaque
parameters too. Startup is a constructor for each class:
- In `RobustServer`, it takes the outcome of the store connection, the two mail credentials
  as optional strings, and the outcome of the mail verification.
- In `EmailTestServer`, it takes the credentials and the verification outcome.
- In `MongoServer`, it takes the credentials and the verification outcome, but no
  connection outcome, because server.js only logs the result of connecting.
- In `SimpleServer`, it takes nothing.

The ghost fields:
- `accepted`, kept by every class: the valid submissions so far.
- `baseline`, kept only by the two classes with a document store (`RobustServer` and
  `MongoServer`): the documents the store held before startup.

Each class's `Valid()` invariant ties them to the stores:
- In `RobustServer`, the in-memory list plus the documents added since startup hold every
  accepted submission exactly once, as multisets. So each submission sits in one store,
  never both and never neither. The in-place reversal of the list keeps this.
- In the other three, the only store holds the accepted submissions in arrival order.
- In every variant, each stored submission is complete.
- In the three variants that send mail, mail is ready only when a transport exists.

## Model

| member | source | states |
|---|---|---|
| `Contact.Falsy` | server-robust.js:70 | JavaScript `!x` on an optional string: falsy iff the field is absent or the empty string |
| `Contact.IsComplete` | server-robust.js:70 | the validation guard (the same at server-email-test.js:50, server.js:60, server-simple.js:18): complete iff none of firstName, email and message is absent or empty |
| `Contact.HasCredentials` | server-robust.js:41 | the credential test (the same at server-email-test.js:22, server.js:31): true iff neither the mail user nor the mail password is absent or empty |
| `Contact.Notice` | server-robust.js:106-120 | the notification substitutions (also server-email-test.js:71-87, server.js:72-88): the variant's subject, the name line, the email and message text, and the phone or the variant's placeholder when it is absent or empty |
| `Contact.Or` | server-robust.js:112-114 | JavaScript's logical-or default on an optional string: the fallback when the field is absent or empty, otherwise the field's own non-empty text |
| `Contact.NameOf` | server-robust.js:112 | the name line is the first name, one space, then the last name when given; with no last name it is the first name and a trailing space |
| `Contact.Reversed` | server-robust.js:156-159 | `reverse` keeps the length and puts element `i` at position `n-1-i` |
| `Contact.ReversedTwice` | server-robust.js:156-159 | reversing twice gives back the original sequence |
| `Contact.ReversedMultiset` | server-robust.js:156-159 | reversing loses and duplicates no element |
| `Contact.MemorySubmissionsReversed` | server-robust.js:156-159 | reversing the in-memory list keeps the multiset of submissions it holds |
| `RobustServer.Server.constructor` | server-robust.js:15-62 | `mongoConnected` iff the connection succeeded; a transport exists iff both credentials are set; `emailConfigured` iff both credentials are set and verify succeeded; both lists start empty apart from the store's existing documents |
| `RobustServer.Server.Submit` | server-robust.js:65-143 | incomplete: 400 "Please include firstName, email and message.", no store changes, no mail. Complete: 200 "Message sent successfully!" whatever the store and the mail did. Connected and save ok: exactly one document appended, list unchanged. Not connected or save failed: exactly one record (clock id, five fields, ISO timestamp) appended to the list, store unchanged. Flags never change. Mail is attempted iff complete and `emailConfigured`, with phone `N/A` |
| `RobustServer.Server.ListMessages` | server-robust.js:146-170 | connected and the query succeeded: the store's documents, list untouched. Otherwise: the list reversed and the stored list reversed in place. `source` is "mongodb" whenever the flag is set, also when memory was served after a failed query. `count` is the length returned |
| `RobustServer.Server.HealthCheck` | server-robust.js:173-181 | fixed banner; "connected" iff `mongoConnected`, else "disconnected"; "configured" iff `emailConfigured`, else "not configured" |
| `RobustServer.TwoMemoryReads` | server-robust.js:146-170 | two memory-served reads in a row: the first answers the list reversed, the second answers it in its original order and leaves it that way; both counts equal the list's length |
| `EmailTestServer.Server.constructor` | server-email-test.js:15-43 | a transport exists iff both credentials are set; `emailConfigured` iff both are set and verify succeeded; the list starts empty |
| `EmailTestServer.Server.Submit` | server-email-test.js:46-115 | incomplete: 400 "Missing required fields", list unchanged, no mail. Complete: exactly one record appended whatever the mail does, and always a 200. The text is "...Email notification sent." when sent, "...email notification failed..." when the send failed, "Message received (email not configured)" when not attempted. Mail is attempted iff `emailConfigured && transporter`; its subject is the prefix plus the name line, its phone "Not provided" when absent |
| `EmailTestServer.Server.ListMessages` | server-email-test.js:118-120 | the list as stored, in insertion order, is every accepted submission in arrival order; `count` is its length |
| `EmailTestServer.Server.HealthCheck` | server-email-test.js:123-129 | fixed banner, "configured" iff `emailConfigured` else "not configured", and the clock reading |
| `EmailTestServer.Server.TestEmail` | server-email-test.js:132-149 | not configured: `{false, "Email not configured"}` and no send. Send ok: `{true, "Test email sent successfully!"}`. Send failed: `{false, <error message>}`. A send is attempted iff `emailConfigured` |
| `MongoServer.Server.constructor` | server.js:28-52 | a transport exists iff both credentials are set; `emailConfigured` iff both are set and verify succeeded (so it implies both credentials) |
| `MongoServer.Server.Submit` | server.js:55-105 | incomplete: 400, no save, no mail. Complete: exactly one save attempt with the five fields and the store's default date. Save failed: 500 "Server error. Try again later.", no mail, no fallback, nothing stored. Save ok: document appended and 200 "Message sent successfully!" whatever the mail does; mail is attempted iff `emailConfigured && transporter`, with phone `N/A` |
| `SimpleServer.Server.constructor` | server-simple.js:10 | the list starts empty |
| `SimpleServer.Server.Submit` | server-simple.js:13-42 | the list only grows. Incomplete: 400 "Please include firstName, email and message.", list unchanged. Complete: 200 "Message sent successfully!" and exactly one record (clock id, five fields, ISO timestamp) appended at the end, earlier entries unchanged |
| `SimpleServer.Server.ListMessages` | server-simple.js:45-47 | the whole list, in insertion order and with no `count`: every accepted submission in arrival order, each complete |
| `SimpleServer.Server.HealthCheck` | server-simple.js:50-52 | the fixed banner, read from no state |

Where the variants' texts differ, the model follows the code:
- The 400 text of server-email-test.js is "Missing required fields".
- The `GET /messages` of server-simple.js has no `count`.
- The health reply of server-email-test.js carries the current timestamp, so repeated calls
  are identical only for the same clock reading.
- server.js has no fallback store. A failed save there stores the submission nowhere and
  answers 500. So "exactly one store" holds for that variant only among the submissions
  answered 200.

## Left out

- HTTP plumbing (Express routing, CORS, JSON body parsing, port binding): handlers are methods returning reply values.
- Logging to the console: it has no effect on state or replies.
- Environment loading: credentials are optional strings given to the constructor; the store address only decides the connection outcome given to it.
- The asynchronous startup callbacks (connect, verify): startup is one completed step, so requests that arrive before it finishes are not modelled.
- The store driver and mail transport themselves: only the outcome of each call is modelled. The sender and recipient address (the configured account) and the HTML beyond the name, email, phone and message substitutions are not modelled. That includes the locale-formatted time in the footer.
- RobustServer.Server.ListMessages: the durable listing is returned in the order the store holds it, not sorted newest-first by `date` as the query asks. The sort is inside the store driver.
- The fields the document store adds to each document: `DurableRecord` has no store-generated `_id` and no version key `__v`, so a durable listing returns documents without them. Nothing in the handlers reads those fields.
- Identifier uniqueness: the in-memory id is the clock reading passed in, so two records made in the same millisecond get the same id.
- Falsiness of non-string values (0, false, NaN): request fields are optional strings.
- The generic `catch` that answers 500 (server-robust.js:136-142, server-email-test.js:111-114, server-simple.js:38-41, the `GET /messages` catch at server-robust.js:167-169): no modelled dependency failure reaches it. In server.js the same catch is reached by a failed save, and that path is modelled.
