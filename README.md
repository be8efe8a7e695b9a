# Chat server store model

A model of the state behind a small Express/MongoDB chat server
(`src/index.js`). The server keeps two collections:

- **participants**: each a name with `lastStatus`, the millisecond clock at
  that participant's last sign of life;
- **messages**: an append-only log of `{from, to, text, type, time}`.

Its request handlers and a timer act on them:

- `POST /participants`: join;
- `GET /participants`: list the names;
- `POST /status`: heartbeat;
- `POST /messages`: post a message;
- `GET /messages`: read the log, filtered per reader and cut by `limit`;
- every 15 s, an inactivity sweep.

The model has four modules:

- `Text` (`text.dfy`): `String.prototype.trim`, which the Joi schemas apply
  before their emptiness check.
- `Messages` (`messages.dfy`): the message record and its `type`, the
  visibility filter of `GET /messages`, the `reverse().slice(0, k).reverse()`
  cut, and the order-preserving subsequence relation used to state that
  results keep log order.
- `Schemas` (`schemas.dfy`): the two Joi schemas as pure validators over a
  small JSON datatype. All errors are collected (`abortEarly: false`), and
  unknown keys are refused as `Joi.object()` does.
- `Chat` (`chat.dfy`): the class `ChatStore`, with the two collections as
  `seq` fields and one method per handler and for the sweep. The store
  invariant is that participant names are unique, trimmed and non-empty,
  and that every message is well formed. Every method preserves it.

`walkthrough.dfy` replays one scenario against the contracts:

1. Ana joins, and a second join under her name is refused.
2. Ana greets everyone.
3. Bob, who never joined, is refused the log.
4. After ten silent seconds the sweep removes Ana and announces it.

The clock (`now`, in milliseconds) and the `HH:mm:ss` time stamp are
parameters. Each reply is a datatype whose `Code()` is the HTTP status the
handler sends.

Three details of the model:

- The join and leave notices carry the texts the code writes,
  `"entra na sala..."` and `"sai da sala..."`.
- The sweep visits participants in store order.
- `limit` may be any integer. A negative limit drops the oldest visible
  messages, as `slice(0, k)` does.

## Model

| member | source | states |
|---|---|---|
| Text.Trim | src/index.js:9-14 | the result is empty iff the input is all whitespace; otherwise it has no whitespace at either end; it is the input with its whitespace prefix and suffix removed, and everything removed is whitespace |
| Text.TrimOfTrimmed | src/index.js:46 | a name that is already trimmed and non-empty is unchanged by trimming |
| Text.TrimIdempotent | src/index.js:9-14 | trimming twice gives the same result as trimming once |
| Schemas.UserErrors | src/index.js:40-43 | every error the user schema collects on an object body with `abortEarly: false`: those of `name` plus one per undeclared key |
| Schemas.ValidateUser | src/index.js:8-10 | a body is accepted iff it is an object whose `name` is a string that is not all whitespace and that has no other key; the accepted value is the trimmed name, which is non-empty and trimmed; a non-object body is refused as such; a refusal always carries at least one error, and the errors name exactly the failing keys |
| Schemas.UserErrorsCheck | src/index.js:40-43 | the user schema collects no error exactly when the body is valid; with `abortEarly: false` the collected errors cover `name` when it is missing, not a string or blank, plus every undeclared key |
| Schemas.MessageErrors | src/index.js:93-96 | every error the message schema collects on an object body with `abortEarly: false`: those of `to`, `text` and `type` plus one per undeclared key |
| Schemas.ValidateMessage | src/index.js:12-16 | a body is accepted iff `to` and `text` are non-blank strings, `type` is `"message"` or `"private_message"`, and there is no other key; the draft holds the trimmed `to` and `text` (both non-empty) and the kind named by `type`, never a status notice; a refusal of an object body carries exactly the per-key errors of `MessageErrors`, including both errors on a `type` that is outside the list and also not a string or empty |
| Schemas.MessageErrorsCheck | src/index.js:93-96 | the message schema collects no error exactly when the body is valid; the errors name exactly `to`/`text` when they are missing, not strings or blank, `type` when it is missing or not an allowed value, and every undeclared key |
| Schemas.KindOfName | src/index.js:15 | a client may send each kind of message except a status notice, under the same name the log stores |
| Schemas.TrimmedStringErrors | src/index.js:13-14 | `Joi.string().min(1).trim().required()` on one key: `Required` when absent, `NotAString` for a non-string, `Empty` when blank once trimmed, nothing otherwise; the base error stops that key's checks |
| Schemas.KindOf | src/index.js:15 | the two `type` strings the `valid()` list allows, and the kind each stands for |
| Schemas.TypeErrors | src/index.js:15 | `type` absent gives `Required`; an allowed value gives nothing; any other value gives `NotAllowed`, plus `NotAString` for a non-string or `Empty` for `""`, since the base string check still runs when all errors are collected |
| Schemas.TypeErrorsOfDisallowed | src/index.js:15 | a `type` outside the allowed list always draws the `valid()` error, a `NotAString` error iff it is not a string, an `Empty` error iff it is `""`, and so one error or two |
| Schemas.UnknownKeyErrors | src/index.js:12-16 | `Joi.object()` reports one error per key its schema does not declare |
| Schemas.StatusTypeRejected | src/index.js:15 | a body whose `type` is `"status"` is refused, with an error on `type` |
| Messages.Visible | src/index.js:123 | a message is shown to a reader when it is addressed to or sent by the reader, or its type is `status` or `message` |
| Messages.VisibleCases | src/index.js:123 | only a private message is ever hidden, and it is shown to exactly its sender and its recipient |
| Messages.VisibleTo | src/index.js:123 | the filter returns no more messages than the log has, and every one it returns is visible to the reader |
| Messages.VisibleToMembers | src/index.js:123 | a message is in the filtered list iff it is in the log and visible to the reader |
| Messages.VisibleToCounts | src/index.js:122-123 | the filter keeps each visible message as many times as the log holds it, and no invisible one |
| Messages.VisibleToIsSubsequence | src/index.js:122-123 | the filtered list is an order-preserving subsequence of the log |
| Messages.Reverse | src/index.js:125 | reversing keeps the length and puts element i at position n-1-i |
| Messages.SliceFromStart | src/index.js:125 | `slice(0, n)`: the first n elements for 0 <= n <= length, everything for a larger n, and for a negative n everything but the last -n (nothing when -n exceeds the length) |
| Messages.Window | src/index.js:124-127 | without a numeric limit the list is returned whole; with limit k, the reverse/slice/reverse cut returns the suffix holding the number of elements that `slice(0, k)` keeps |
| Messages.WindowCases | src/index.js:125 | a limit 0 <= k <= n returns exactly the last k messages in log order; k >= n returns all of them; k = 0 returns none; a negative k drops the -k oldest, and none are left when -k >= n |
| Messages.WindowKeepsOrder | src/index.js:125 | cutting an order-preserving subsequence of the log by a limit leaves an order-preserving subsequence of the log |
| Chat.JoinNotice | src/index.js:53 | the status message a join writes: from the name, to "Todos", text "entra na sala...", type `status` |
| Chat.LeaveNotice | src/index.js:140 | the status message the sweep writes for an evicted name: from the name, to "Todos", text "sai da sala...", type `status` |
| Chat.NoticesWellFormed | src/index.js:53 | the join and leave notices of a trimmed, non-empty name are well formed: from that name, to "Todos", with one of the two status texts |
| Chat.IsRegistered | src/index.js:47-48 | `userExists`: some participant record has exactly that name |
| Chat.IndexOf | src/index.js:47 | findOne by name finds nothing iff no participant has the name; otherwise it finds the first record with that name |
| Chat.DeleteOne | src/index.js:141 | `deleteOne({name})`: drops the first record with that name, if any, and keeps the rest in order |
| Chat.DeleteOneFirst | src/index.js:141 | deleteOne by name removes the first record with that name and keeps all the others in order |
| Chat.DeleteOneAbsent | src/index.js:141 | deleteOne by a name no record has leaves the participants unchanged |
| Chat.IsStale | src/index.js:138-139 | a participant is stale at `now` when `now - lastStatus >= 10000` |
| Chat.Survivors | src/index.js:137-141 | the participants a sweep at `now` leaves: the records that are not stale, in store order |
| Chat.Departures | src/index.js:137-140 | the leave notices a sweep at `now` writes: one per stale record, in snapshot order |
| Chat.SurvivorsAreTheFresh | src/index.js:137-141 | after a sweep at time now, a participant remains iff it was present and `now - lastStatus < 10000`; survivors are unchanged records |
| Chat.SurvivorsKeepOrder | src/index.js:137-141 | the survivors of a sweep keep their relative order |
| Chat.DeparturesAreTheStale | src/index.js:138-140 | a sweep writes one leave notice per evicted participant (notices plus survivors number the participants), a notice for every stale participant, and no other message |
| Chat.SurvivorsKeepUniqueNames | src/index.js:141 | a sweep keeps participant names unique |
| Chat.DeparturesWellFormed | src/index.js:140 | every leave notice the sweep writes is well formed |
| Chat.WindowOfVisible | src/index.js:122-125 | what GET /messages returns is an order-preserving subsequence of the log and visible to the reader, whatever the limit |
| Chat.JoinKeepsInvariant | src/index.js:47-55 | appending a new participant with a trimmed, unused name, together with that name's join notice, keeps names unique and every message well formed |
| Chat.RefreshKeepsInvariant | src/index.js:79 | refreshing one participant's lastStatus keeps the store invariant |
| Chat.PostKeepsInvariant | src/index.js:104-105 | appending a message with trimmed non-empty from/to/text that is not a status notice keeps the store invariant |
| Chat.SweepKeepsInvariant | src/index.js:136-143 | replacing the participants by the survivors and appending the leave notices keeps the store invariant |
| Chat.SweepKeeps | src/index.js:138-139 | one sweep step over a participant that is not stale keeps it and writes nothing |
| Chat.StaleStep | src/index.js:139-140 | one sweep step over a stale participant adds no survivor and appends exactly its leave notice |
| Chat.SweepEvicts | src/index.js:139-141 | one sweep step over a stale participant appends its leave notice, and deleteOne by its name removes exactly that record from the current participants |
| Chat.Sweep | src/index.js:137-145 | the forEach loop over a snapshot of the participants leaves exactly the survivors and appends exactly the departures to the log |
| Chat.ChatStore.Register | src/index.js:36-61 | an invalid body gives 422 with the validator's errors and changes nothing; a trimmed name already present gives 409 and changes nothing; otherwise the store gains exactly `{name, lastStatus: now}` and the log exactly the join notice; the store invariant holds before and after |
| Chat.ChatStore.ListNames | src/index.js:63-70 | returns the participants' names only, one per record, in store order |
| Chat.ChatStore.Heartbeat | src/index.js:72-85 | an unknown user header gives 404 and changes nothing; otherwise the record with that name gets lastStatus = now, every other record and the whole log are unchanged |
| Chat.ChatStore.Post | src/index.js:88-111 | validation runs first: an invalid body gives 422 with its errors; an unregistered sender gives 422; otherwise exactly one message from the header user, with the trimmed to/text and the validated type, is appended; participants never change |
| Chat.ChatStore.ListVisible | src/index.js:112-133 | an unregistered reader gets 401; otherwise the result is the visible part of the log cut by the limit, in log order, every message visible to the reader; nothing changes |
| Chat.ChatStore.EvictStale | src/index.js:134-148 | the participants become exactly the survivors of the sweep at `now`, and the log gains exactly the leave notices of the evicted, after all earlier messages; the store invariant holds before and after |
| Chat.RegisterReply.Code | src/index.js:43-56 | POST /participants answers 422 for an invalid body, 409 for a taken name and 201 on success |
| Chat.HeartbeatReply.Code | src/index.js:77-80 | POST /status answers 404 for an unknown user and 200 on success |
| Chat.PostReply.Code | src/index.js:96-106 | POST /messages answers 422 for an invalid body or an unregistered sender and 201 on success |
| Chat.ListReply.Code | src/index.js:119-127 | GET /messages answers 401 for an unregistered reader and 200 with the list otherwise |
| Walkthrough.AnaJoinRequestIsValid | src/index.js:8-10 | `{name: "Ana"}` is accepted as the name "Ana" |
| Walkthrough.HelloIsValid | src/index.js:12-16 | `{to: "Todos", text: "hi", type: "message"}` is accepted as a public message |
| Walkthrough.AnaJoins | src/index.js:36-61 | Ana's second join is refused with 409; the store holds Ana alone, and the log exactly her join notice |
| Walkthrough.AnaJoinsAndPosts | src/index.js:88-120 | Ana's post is accepted; Bob, never registered, is refused the log with 401; the store then holds Ana alone and two messages |
| Walkthrough.AnaLeaves | src/index.js:134-148 | a sweep ten seconds after Ana's last sign of life leaves no participants and appends her leave notice as the third message |

## Left out

- HTTP plumbing (Express routing, CORS, JSON body parsing, `app.listen`; src/index.js:1-2, 19-21, 151). Each handler's reply is a datatype, and its `Code()` gives the status code. Response bodies, such as the text "Usuario nao esta logado", are not modelled.
- The MongoDB connection, dotenv and the collection handles (src/index.js:3, 6, 18, 23-32) are I/O. The two collections are the class's `seq` fields, and a record's order in a field is the collection's natural order.
- `Date.now()` and the dayjs `HH:mm:ss` stamp (src/index.js:34, 52, 79, 135) are a clock and a foreign library. Both are parameters of the methods.
- Joi's error message strings and their order. The errors form a set of `ValidationError` values, each tied to the key it is about.
- Joi's conversion rules beyond `trim()`. No other conversion applies to these schemas.
- `setInterval` scheduling every 15000 ms (src/index.js:134, 148) is timer-driven. One call of `EvictStale` is one tick.
- Chat.ChatStore.EvictStale: the source fires each participant's insert and delete as un-awaited promises. The model runs the sweep's loop (`Chat.Sweep`) over local copies and then writes both fields at once. The participants end the same, and the log gains the same notices. The un-awaited inserts (src/index.js:140) may reach the store in any order, and the model fixes their order to the snapshot's. The interleavings a concurrent reader could observe are not modelled.
- Chat.ChatStore.EvictStale: the source calls `time()` once per notice. The model uses one time stamp for the whole sweep.
- Concurrent requests are not modelled, including two joins racing on the same name. Each method is one sequential step.
- `Number(req.query.limit)` parsing (src/index.js:113). `limit` is `Option<int>`, where `None` stands for NaN (absent or non-numeric). The caller does JavaScript's truncation of fractions toward zero and its ±Infinity handling. Note that `limit=` parses as 0 and so returns an empty list.
- The 500 branches (src/index.js:57-59, 67-69, 81-84, 107-110, 128-131) are reachable only through store or infrastructure failures.
- JavaScript strings are UTF-16 code units, and the model's strings are sequences of Unicode characters. `trim` removes the ECMAScript whitespace and line-terminator code points.
- A missing `user` header is modelled as the empty string. It is never a registered name, because every stored name is trimmed and non-empty.
