# Room-scoped ephemeral relay store

A Dafny model of the message relay behind the secure chat app's HTTP server
(`secure_chat_app/server.js`). The server keeps two process-wide maps keyed by
an opaque room id: `messagesByRoom`, each room's append-only log of encrypted
message records, and `participantsByRoom`, each room's directory of participant
aliases and public signing keys. Five API branches work on them:

- `POST /api/messages` validates the body, fixes an optional absolute expiry
  (`now + expiresIn * 1000` for a positive `expiresIn`), fills defaults, and
  appends one record to the room's log, creating the room if absent;
- `GET /api/messages` returns, in append order, the room's records that have no
  expiry or expire strictly after `now` (lazy expiry: nothing is evicted);
- `POST /api/participants` upserts by trimmed alias: a matching record gets the
  supplied key (or keeps its own when none is supplied), otherwise a record is
  appended unless the trimmed alias is empty;
- `GET /api/participants` returns the room's list, rendering a list whose first
  element is a bare alias string as `{alias, publicKey: ""}` objects;
- `POST /api/wipe` deletes both maps' entries for every listed room id.

Layout:

- `relay_types.dfy` (`RelayTypes`): `Option` for request fields (None = absent
  or null, or a non-string `alias`, which the handler rejects like a missing
  one; any other present field already holds its coerced type), `Response`
  (`Ok` or `ValidationError(msg)`, i.e. `200` or `400 {error}`), the three error
  texts, `Blank` (JavaScript's `!x` on a string field) and the subsequence
  relation.
- `text.dfy` (`Text`): JavaScript's `trim`, over the ECMAScript whitespace and
  line-terminator characters.
- `message_log.dfy` (`MessageLog`): the stored record, the post body, the expiry
  rule, the record a post builds and the read-time filter `ActiveOnly`.
- `key_directory.dfy` (`KeyDirectory`): stored entries (`Participant` record or
  `Legacy` bare name), `find` by alias, the upsert, and the listing with its
  normalisation (`Shown`).
- `relay_store.dfy` (`RelayStore`): pure transitions of the two maps (`Posted`,
  `Enrolled`, `Wiped`), lemmas about reads after writes, and the class `Store`
  whose fields are the two maps and whose methods and functions are the five
  API branches. `Store.Valid()` is the invariant that no room holds two records
  with the same alias nor a record with the empty alias.

The clock is a parameter: every operation that reads `Date.now()` takes `now`
(epoch milliseconds) and `POST /api/messages` also takes `clock`, the ISO text
`new Date().toISOString()` would give, used when `at` is absent or empty.

A behaviour of the code kept as written: `find` compares `p.alias`, which a bare
legacy string does not have, so an upsert never matches a legacy name and
appends a record beside it; a list whose first element is a bare string but
which also holds records is then listed with each record wrapped as the alias of
a new object (`Shown.Boxed`). No operation ever writes a bare string, so this
arises only from state the store was given.

Two behaviours of the code worth stating. An alias that is empty after trimming
is not rejected: a whitespace-only alias is truthy, so the request is answered
ok, the room's participant list is created and nothing is inserted
(`WhitespaceAliasInsertsNothing`, `Store.PostParticipant`). And `ratchetIndex`
is not range-checked: it is stored as `Number(ratchetIndex)`, which may be
negative, fractional or `NaN`; the model narrows it to an integer and stores
any integer it is given (see "## Left out").

## Model

| member | source | states |
|---|---|---|
| `Text.LeadingSpaces` | secure_chat_app/server.js:120 | counts the whitespace characters the alias starts with: all of them are whitespace and the next character, if any, is not |
| `Text.TrailingSpaces` | secure_chat_app/server.js:120 | counts the whitespace characters the alias ends with: all of them are whitespace and the character before them, if any, is not |
| `Text.Trim` | secure_chat_app/server.js:120 | the trimmed alias is never longer than the alias given |
| `Text.TrimInfix` | secure_chat_app/server.js:120 | the trimmed alias is the infix of the alias left after cutting only whitespace at both ends |
| `Text.TrimEdges` | secure_chat_app/server.js:120 | the trimmed alias neither starts nor ends with whitespace |
| `Text.TrimEmptyIff` | secure_chat_app/server.js:120 | the trimmed alias is empty exactly when the alias is all whitespace |
| `Text.TrimFixedIff` | secure_chat_app/server.js:120 | trimming leaves a string unchanged if and only if it has no whitespace at either end |
| `Text.TrimIdempotent` | secure_chat_app/server.js:120 | trimming an already trimmed alias changes nothing |
| `MessageLog.ExpiryOf` | secure_chat_app/server.js:72-74 | an expiry is set exactly when `expiresIn` is a positive number; it then lies strictly after `now`, `expiresIn * 1000` ms later |
| `MessageLog.MakeRecord` | secure_chat_app/server.js:76-84 | `encrypted` is stored as given; `isMe` is true only when given true; `at` falls back to the clock text when absent or empty; `ratchetIndex`, `senderAlias`, `signature` are stored as given when supplied and default to 0, "", "" otherwise; `expiresAt` is the expiry fixed at write time |
| `MessageLog.ActiveOnly` | secure_chat_app/server.js:100 | the read keeps exactly the stored records that never expire or expire strictly after `now` (both directions), each live record as many times as it is stored, in append order (a subsequence of the log) |
| `MessageLog.ActiveOnlyAppend` | secure_chat_app/server.js:100 | filtering a log extended by an append is filtering the old log followed by filtering the appended part |
| `MessageLog.ActiveOnlyShrinks` | secure_chat_app/server.js:100 | expiry is final: the records shown at a later instant are a subsequence of those shown at an earlier one |
| `MessageLog.ActiveOnlyNoExpiry` | secure_chat_app/server.js:100 | a log whose records have no expiry is returned in full at every instant |
| `MessageLog.RecordLiveness` | secure_chat_app/server.js:72-74 | a freshly posted record is shown at instant `t` exactly when it has no positive TTL or `t` is before `now + expiresIn * 1000` |
| `KeyDirectory.FindAlias` | secure_chat_app/server.js:121 | `find` returns the first record whose alias equals the trimmed alias, skipping bare legacy names, or nothing when none matches |
| `KeyDirectory.KeyOf` | secure_chat_app/server.js:121-123 | a key is known for an alias exactly when some record carries that alias, and then a record with that alias and key is in the list |
| `KeyDirectory.Upsert` | secure_chat_app/server.js:121-126 | the list keeps its length or gains exactly one record at the end (only for a non-empty alias); every entry that does not match the alias is unchanged |
| `KeyDirectory.UpsertKeepsAliasesDistinct` | secure_chat_app/server.js:121-126 | an upsert into a list without duplicate aliases leaves none |
| `KeyDirectory.UpsertSetsKey` | secure_chat_app/server.js:122-126 | after an upsert the alias holds the supplied key, or its previous key when none is supplied, or "" for a new record without a key |
| `KeyDirectory.UpsertKeepsRosterWellFormed` | secure_chat_app/server.js:121-126 | an upsert into a list without duplicate aliases and without an empty alias leaves neither |
| `KeyDirectory.UpsertKeepsOtherKeys` | secure_chat_app/server.js:121-126 | an upsert of one alias leaves every other alias's key as it was |
| `KeyDirectory.UpsertIdempotent` | secure_chat_app/server.js:121-126 | repeating the same upsert changes nothing further |
| `KeyDirectory.SecondPostWins` | secure_chat_app/server.js:123 | posting k1 then k2 for one alias leaves k2; posting k1 then no key leaves k1 |
| `KeyDirectory.EmptyAliasNotInserted` | secure_chat_app/server.js:124 | an alias that trims to "" is never inserted |
| `KeyDirectory.Listing` | secure_chat_app/server.js:140-143 | the listing has one element per stored entry |
| `KeyDirectory.ListingOfRecords` | secure_chat_app/server.js:140-143 | a list of records is returned as exactly those records, in order |
| `KeyDirectory.ListingOfLegacyNames` | secure_chat_app/server.js:141-142 | a legacy list of bare names is returned as `{alias: name, publicKey: ""}` for each name, in order |
| `RelayStore.Posted` | secure_chat_app/server.js:75-76 | after a post the room exists and its log is the old log plus the new record at the end; every other room is unchanged |
| `RelayStore.Enrolled` | secure_chat_app/server.js:118-126 | after an upsert the room exists and holds the old list (empty when the room was absent) upserted with the alias and key; every other room is unchanged |
| `RelayStore.EnrolledKeepsRostersWellFormed` | secure_chat_app/server.js:118-126 | an upsert keeps every room free of duplicate aliases and of records with an empty alias |
| `RelayStore.WhitespaceAliasInsertsNothing` | secure_chat_app/server.js:113-126 | a whitespace-only alias creates the room's list if absent and inserts nothing |
| `RelayStore.Wiped` | secure_chat_app/server.js:156-159 | after a wipe every listed room is gone and every other room is present exactly when it was, with the same contents |
| `RelayStore.PostThenRead` | secure_chat_app/server.js:75-100 | reading a room after a post gives what it gave before, followed by the new record while that record is live |
| `RelayStore.OneSecondTtl` | secure_chat_app/server.js:72-100 | a message posted with `expiresIn = 1` is shown 500 ms later and not shown 1500 ms later |
| `RelayStore.NoTtlNeverExpires` | secure_chat_app/server.js:72-100 | a message posted without a positive TTL is shown at every later read |
| `RelayStore.WipeThenRead` | secure_chat_app/server.js:155-159 | after a wipe both reads of a listed room return empty |
| `RelayStore.Store.constructor` | secure_chat_app/server.js:15-17 | the store starts with both maps empty |
| `RelayStore.Store.PostMessage` | secure_chat_app/server.js:64-88 | fails with "roomId and encrypted required" exactly when `roomId` is absent or empty or `encrypted` is absent, changing nothing; otherwise the message map becomes `Posted` with the built record; the participant map never changes |
| `RelayStore.Store.GetMessages` | secure_chat_app/server.js:91-107 | fails with "roomId required" exactly when `roomId` is absent or empty; otherwise returns exactly the room's live records in append order, and an empty list for an unknown room |
| `RelayStore.Store.PostParticipant` | secure_chat_app/server.js:110-130 | fails with "roomId and alias required" exactly when `roomId` is absent or empty or `alias` is absent, empty or not a string (`alias` is `None` then), changing nothing; otherwise the participant map becomes `Enrolled` with the trimmed alias, and a whitespace-only alias only creates the room's list; the message map never changes; the store stays `Valid` |
| `RelayStore.Store.Enroll` | secure_chat_app/server.js:118-126 | the in-place upsert (room created if absent, record found and updated or appended) yields `Enrolled` |
| `RelayStore.Store.GetParticipants` | secure_chat_app/server.js:133-150 | fails with "roomId required" exactly when `roomId` is absent or empty; otherwise returns the room's listing, one element per stored entry, and an empty list for an unknown room |
| `RelayStore.Store.Wipe` | secure_chat_app/server.js:153-163 | always ok; both maps lose exactly the listed rooms, and a missing or non-array `roomIds` wipes nothing |

## Left out

- HTTP plumbing (server creation, URL parsing, status codes, headers including CORS, `listen`): I/O; results are `Response` values instead.
- Body parsing: buffering and `JSON.parse` are library code; a malformed body parses as `{}`, which the model covers by every field being `None`.
- Static file serving, the MIME table, the path-prefix check and the SPA fallback: filesystem I/O, not part of the relay store.
- The clock: `Date.now()` and `toISOString()` are the parameters `now` and `clock`.
- JavaScript coercions (`String()`, `Boolean()`, `Number()`): `alias` is not coerced but checked, and a non-string `alias` is modelled as `None`, which is rejected exactly like a missing one; the other fields are modelled as already typed values, so a non-string `roomId`, `encrypted`, `senderAlias`, `signature` or `publicKey` (stored as `String(publicKey)`), a non-boolean `isMe` (stored as `Boolean(isMe)`, so `"yes"` becomes true), a truthy non-string `at` (stored as given) and a non-numeric `ratchetIndex` are not represented; room ids are strings only, so a numeric `roomId` key (which a query string could never read back) and non-string wipe ids are not modelled.
- MessageLog.MakeRecord: `ratchetIndex` is an integer, while the code stores `Number(ratchetIndex)`, which may be fractional or `NaN`.
- RelayStore.Store.PostMessage, RelayStore.Store.PostParticipant, RelayStore.Store.Wipe: a body that is the JSON text `null` parses to `null` (server.js:51); the destructuring at server.js:66 and :112 and the read of `body.roomIds` at :155 then throw a `TypeError`, no response is sent, and on Node 15 or later the unhandled rejection ends the process, losing every room; the model instead treats every field as absent and answers `ValidationError` (posts) or `Ok` with nothing wiped (wipe).
- MessageLog.ExpiryOf: `expiresIn` and `expiresAt` are exact reals; double-precision rounding of `expiresIn * 1000` is not modelled.
- Concurrency: each POST branch awaits `parseBody` (server.js:65, :111, :154), so requests interleave while bodies arrive; but no `await` separates a branch's validation from its map writes, so each branch's state change is atomic and the model treats them as a sequence of whole operations.
