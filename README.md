# Multi-session pairing server: a Dafny model of its sequential core

The repository is one Node.js file, `index.js`. It keeps one stored authentication state per
phone number. Every call of `WaConnect` opens a new socket, and nothing closes the earlier ones.
A number is normalised to its digits and then looked up in a registry of sessions
(create on first access, explicit clear). At connect time there are two paths. A number without
registered credentials must start with a known country-code prefix, and then gets a pairing
code, shown in dash-separated groups of four. A registered number gets handlers that react to
disconnects (reconnect, or clear and re-pair on status 401), to error events (reconnect while
`attempt < 5`, then clear) and to inbound messages (reply "hello" to "hi").

The model has six modules:

- `Wrappers` (`wrappers.dfy`): `Option` and `Result`.
- `Phone` (`phone.dfy`): `sanitizePhoneNumber` as `Sanitize`, with lemmas that it keeps exactly the
  digits, in order, and is idempotent.
- `PairingCode` (`pairing_code.dfy`): the expression `code.match(/.{1,4}/g).join('-') || code` as
  `Format`. This follows JavaScript's regular-expression rules: `.` does not match a line
  terminator, and a failed match yields `null`, whose `join` throws. One difference: the model
  counts characters as Unicode scalar values, while a regular expression without the `u` flag
  counts UTF-16 code units (see "Left out").
- `Dispatch` (`dispatch.dfy`): the `messages.upsert` handler as `OnMessages`.
- `Registry` (`registry.dfy`): `sessionManager` as the class `SessionManager`. Its field
  `sessions` is a map that the methods update in place. The persisted per-number directories are
  the set `partitions`. The field `created` counts calls of `createSession`, so every freshly
  loaded authentication state can be told apart from earlier ones.
- `Connection` (`connection.dfy`): `WaConnect`.
  - `Begin` is the path taken once the credentials are loaded.
  - `Handle` is each handler's reaction to an event, returned as an `Action` value such as
    `Reconnect(attempt + 1)`, `ClearAndRepair` or `ClearSession`.
  - `Retries` is a chain of connections, each ended by one event.
  - The methods `WaConnect` and `Perform` carry these decisions out on a `SessionManager`.

Inputs the library would supply become parameters:

- `registered`: the credential flag stored in the number's partition. A partition that does not exist yet is created empty, so its credentials are unregistered whatever this flag says.
- `prefixes`: the keys of `PHONENUMBER_MCC`.
- the engine's reply to `requestPairingCode`, `None` when it rejects.
- the events themselves.

### Behaviour of index.js worth knowing

- The attempt counter is never reset when a connection opens. `Handle` does nothing on `open`.
- The `|| code` fallback is dead. When nothing matches (the empty code, or a code made only of
  line terminators), `match` returns `null` and `.join` throws. Whenever the join succeeds its
  result is non-empty (`PairingCode.Format`).
- The reply text is read from the payload's first key only. The three shapes are not probed in
  priority order.
- The session is looked up, and created, before the country-code check. A rejected number
  therefore still leaves a registry entry and a partition (`Connection.WaConnect`).
- On the unregistered path no close, error or message handler is attached, so such a socket never
  reconnects (`Connection.PairingNeverReconnects`).
- The error handler does not look at a status code. Only the close handler treats 401 specially.
- A close event without `lastDisconnect` throws inside the handler (`Fault`). It does not count
  as a reconnect. A missing `error`, `output` or `statusCode` under it does count as a reconnect.
- Only close events are uncapped. Error events stop at attempt 5. The two share one counter
  (`Connection.ClosesThenError`).
- The handlers stay attached after they schedule a reconnect. A socket below attempt 5 that
  receives k error events therefore schedules k reconnects (`Connection.OneSocketManyErrors`).
  The cap bounds the attempt number, not the number of pending connections.
- The 401 repair removes the partition, and `createSession` re-creates it empty. The
  follow-up call therefore loads unregistered credentials. It throws the invalid-number error
  or awaits a pairing code, and never listens (`Connection.Perform`).
- The same holds for an ordinary reconnect whose session was cleared before its timer fired. A
  close at attempt 5 or more schedules a reconnect, and an error on the same socket then clears
  the session. The reconnect finds no entry and re-creates an empty partition. It then throws
  the invalid-number error or awaits a pairing code, and never listens
  (`Connection.ClearedReconnectNeverListens`).

## Model

| member | source | states |
|---|---|---|
| `Phone.Sanitize` | index.js:19-21 | the result consists of digits only and is no longer than the input |
| `Phone.SanitizeAppend` | index.js:19-21 | normalising a concatenation is the concatenation of the normalised parts, so each character is kept or dropped on its own and the order is kept |
| `Phone.SanitizeFixedPoint` | index.js:19-21 | a string is unchanged by normalisation if and only if it is all digits |
| `Phone.SanitizeIdempotent` | index.js:19-21 | normalising twice is normalising once |
| `Phone.SanitizeKeepsDigits` | index.js:19-21 | each digit occurs in the result as often as in the input, and no other character occurs |
| `Phone.SameSessionWithPunctuation` | index.js:19-21 | adding non-digit characters before or after a digit string does not change its session key |
| `Phone.SanitizeNoDigits` | index.js:19-21 | a string without digits normalises to the empty key |
| `PairingCode.Lead` | index.js:74 | one greedy match of `.{1,4}` is at most four characters, contains no line terminator, and stops early only at a terminator or at the end |
| `PairingCode.ChunksWellFormed` | index.js:74 | every matched chunk is non-empty, at most four characters long, free of line terminators and made of characters of the code |
| `PairingCode.ConcatChunks` | index.js:74 | gluing the chunks back together gives exactly the code minus its line terminators: nothing is lost, duplicated or reordered |
| `PairingCode.ChunksOfClean` | index.js:74 | for a code without line terminators there are ceil(n/4) chunks, and chunk i is the slice from 4i to min(4i+4, n), so every chunk but the last has length 4 and the last has length 1 to 4 |
| `PairingCode.Chunks` | index.js:74 | definition of the array `match` returns; every chunk has 1 to 4 characters. Specified further by `ChunksWellFormed`, `ConcatChunks` and `ChunksOfClean` |
| `PairingCode.Join` | index.js:74 | definition of `join('-')`; the result is one character longer than the parts together for each separator. Specified further by `StripJoin` |
| `PairingCode.Format` | index.js:74 | the expression throws exactly when no visible character exists (the empty code included); a result has one dash between each two chunks and is never empty, so the fallback to the raw code cannot be taken. Specified further by `FormatRoundTrip`, `FormatSix` and `FormatEight` |
| `PairingCode.FormatRoundTrip` | index.js:74 | for a code without dashes, deleting the dashes from the formatted code gives back the code's visible characters |
| `PairingCode.FormatSix` | index.js:74 | a 6-character code becomes `XXXX-XX` |
| `PairingCode.FormatEight` | index.js:74 | an 8-character code becomes `XXXX-XXXX` |
| `PairingCode.StripJoin` | index.js:74 | deleting the separators from a join of dash-free parts gives their concatenation |
| `Dispatch.Lower` | index.js:116 | lowercasing keeps the length and maps each character on its own |
| `Dispatch.ExtractText` | index.js:109-114 | definition of the text the handler compares; a non-empty text is the first key's own string under one of the three text-bearing keys, and only a missing value under the first key throws |
| `Dispatch.OnMessages` | index.js:106-119 | definition of the handler; a reply goes to the first message's sender, says "hello" and quotes that message; a first message without payload is ignored; an empty batch throws. Specified further by `ReplyExactly` and `FirstKeyOnly` |
| `Dispatch.TriggerSpellings` | index.js:116 | the lowercased text equals "hi" if and only if the text is one of "hi", "hI", "Hi", "HI" |
| `Dispatch.ReplyExactly` | index.js:106-119 | a reply is sent if and only if the first message has a payload whose first key is `conversation`, `extendedTextMessage` or `imageMessage` and whose text there spells "hi"; the reply is "hello", goes to `remoteJid` and quotes the message |
| `Dispatch.FirstKeyOnly` | index.js:107-114 | the decision depends only on the first message's sender and the first key of its payload; later messages and later keys are never read |
| `Dispatch.NoPayloadNoReply` | index.js:108 | a message without a payload is ignored |
| `Dispatch.OtherShapeNoReply` | index.js:109-114 | a first key other than the three text-bearing ones gives text `''` and no reply, even if a later key says "hi" |
| `Dispatch.TriggerExamples` | index.js:110-117 | a `conversation` of "Hi" and an `imageMessage` caption of "hi" both get the reply |
| `Dispatch.MissingTextFaults` | index.js:110-116 | a text-bearing first key whose string is missing (an image without caption) makes the handler throw instead of replying |
| `Registry.SessionManager.constructor` | index.js:24-25 | the registry starts with no sessions over the partitions already on disk |
| `Registry.SessionManager.CreateSession` | index.js:33-39 | the number's partition exists afterwards, a freshly loaded state bound to it is returned, and the dictionary is unchanged |
| `Registry.SessionManager.GetSession` | index.js:26-32 | afterwards the sanitised key is present and its value is returned. An existing entry is returned as stored, with nothing created or changed. Otherwise exactly that key is added, with a fresh state and its partition |
| `Registry.SessionManager.ClearSession` | index.js:40-47 | exactly the sanitised key is removed from the dictionary and from the partitions, all else is unchanged, and clearing an absent key changes nothing |
| `Registry.SameDigitsSameSession` | index.js:26-32 | two raw numbers with the same digits get the same entry, and at most one state is created |
| `Registry.ClearTwice` | index.js:40-47 | clearing twice has the effect of clearing once |
| `Registry.ClearThenGet` | index.js:26-47 | after a clear, the next lookup stores a state different from every earlier one in a re-created partition |
| `Connection.Begin` | index.js:65-82 | definition of the path taken once the credentials are loaded; only unregistered credentials are refused, with the invalid-number message; a socket belongs to the sanitised number; registered credentials always listen, with the caller's attempt. Specified further by `BeginPaths` |
| `Connection.CompletePairing` | index.js:70-81 | definition of the settle-delay callback; a rejected request rejects the promise, and a resolved code is never empty. Specified further by `PairingResolves` |
| `Connection.Handle` | index.js:84-130 | definition of the handlers' reaction to one event; a pairing socket only ever saves credentials or does nothing; every reconnect uses the socket's attempt + 1; a reconnect after an error needs attempt < 5 and asks for at most 5; `ClearAndRepair` comes only from a 401 close and `ClearSession` only from an error at attempt 5 or more |
| `Connection.Retries` | index.js:84-130 | one line of descent of connections, each ended by one event, yields at most one reaction per ending event and at least one when there is an event |
| `Connection.BeginPaths` | index.js:65-82 | with unregistered credentials, the invalid-number error is raised if and only if no known prefix starts the number, and otherwise the call awaits a pairing code; with registered credentials the prefixes play no part and the handlers listen with the given attempt |
| `Connection.PairingNeverReconnects` | index.js:63-82 | a socket on the pairing path only ever saves credentials: it never reconnects, clears or replies |
| `Connection.CloseClassification` | index.js:87-102 | a close reconnects if and only if its status is not 401, a missing status included; the reconnect uses attempt + 1, and 401 clears and re-pairs |
| `Connection.OpenChangesNothing` | index.js:85-86 | an `open` update triggers nothing and leaves the attempt alone |
| `Connection.RetriesCount` | index.js:84-130 | in a chain from attempt a, the k-th reaction, if it is a reconnect, is `Reconnect(a + k + 1)`, and every reaction before the last is a reconnect |
| `Connection.ErrorChainBounded` | index.js:121-130 | along one chain, error events alone schedule at most 5 - a reconnects from attempt a and, given enough of them, end with clearing the session |
| `Connection.ErrorReconnectCapped` | index.js:121-130 | whatever events one listening socket receives, every error it answers with a reconnect happens below attempt 5 and asks for an attempt of at most 5 |
| `Connection.OneSocketManyErrors` | index.js:121-127 | one socket below attempt 5 answers each of k error events with its own `Reconnect(a + 1)`, so it can schedule k follow-up connections |
| `Connection.ErrorChainFromZero` | index.js:121-130 | from attempt 0, six error events give `Reconnect(1)` to `Reconnect(5)` and then `ClearSession` |
| `Connection.CloseChainUnbounded` | index.js:87-92 | every transient close reconnects, with attempts a+1, a+2, ... without any cap |
| `Connection.ClosesThenError` | index.js:84-130 | after k transient closes from attempt a, an error event clears the session if and only if a + k >= 5 |
| `Connection.PairingResolves` | index.js:70-81 | the pairing promise resolves if and only if the engine returned a code with a visible character, and the resolved code loses nothing but dashes |
| `Connection.WaConnect` | index.js:26-82 | the session is fetched or created first, even for a number then rejected, and the call then takes the path `Begin` gives; credentials count as registered only if the number's partition existed before the call, so a number without one never listens; the whole new registry state is given, including one more created state for a new key |
| `Connection.ClearedReconnectNeverListens` | index.js:84-130 | when the error handler clears the session before a scheduled reconnect fires, the reconnect re-creates the entry in a fresh partition and throws the invalid-number error or awaits a pairing code, never listening |
| `Connection.Perform` | index.js:87-130 | a reconnect keeps the stored session and partition when the entry is still there, and otherwise re-creates the entry from an empty partition, so a reconnect to a cleared number never listens; a 401 repair replaces the entry with a fresh state in a re-created, empty partition and restarts at attempt 0 with unregistered credentials, so it either throws the invalid-number error or awaits a pairing code and never listens; giving up after errors removes exactly the number's entry and partition |

## Left out

- The HTTP route and `app.listen` (index.js:136-152) are not modelled. The route answers 400 when `phoneNumber` is missing and otherwise passes on `WaConnect`'s outcome.
- File-system calls are not modelled. This covers creating the auth directory (index.js:11-16), `existsSync`/`mkdirSync`/`rmSync`, and `path.join`. Partitions are an abstract set of keys.
- A number with no digits sanitises to the key `""`, and `path.join(authDir, "")` is the auth directory itself. Clearing that key would delete every partition. The model's partition set does not capture this aliasing.
- The messaging library is not modelled: socket construction, `useMultiFileAuthState`, `saveCreds`, `requestPairingCode`, `sendMessage` and the contents of `PHONENUMBER_MCC`. Its outputs are parameters: the `registered` flag, the prefix set, the engine's reply and the incoming events.
- The 3000 ms and 5000 ms timers are not modelled. `Connection.Perform` runs a follow-up as soon as it is called, so other events that could interleave during the delay are not captured.
- Concurrency between timer-scheduled calls is not modelled. Nothing stops two chains for one number from running at once.
- Logging (`pino`, `console.log`, `console.error`) is not modelled.
- `Connection.Retries`: assumes each socket ends with exactly one event, so it follows one line of descent. In `index.js` every error event on a socket below attempt 5 schedules a reconnect. An error event can also follow a close on the same socket. The tree of connections this spawns is not modelled; `Connection.OneSocketManyErrors` and `Connection.ErrorReconnectCapped` state what one socket does with many events.
- `PairingCode.Format`: characters are Unicode scalar values. `/.{1,4}/g` without the `u` flag counts UTF-16 code units, so a code with characters outside the Basic Multilingual Plane is grouped differently. For example, "😀😀😀" gives "😀😀-😀" in JavaScript, and the model gives a single chunk. The codes the engine returns are not modelled, so which of the two counts applies to them is left open.
- `Dispatch.Lower`: only ASCII letters are lowercased. Unicode case mapping is not modelled. No non-ASCII character lowercases to exactly "h" or "i", so the set of texts that trigger the reply is the same.
- `Fault`: an exception inside a handler is recorded as `Fault`. What Node.js then does with the unhandled rejection is not modelled.
- What `WaConnect` resolves with is not modelled: the socket object on the registered path, and the logged outcome of the 401 repair.
