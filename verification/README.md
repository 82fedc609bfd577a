# Derpi post votes: the vote state engine

This project models the backend that keeps up/down votes on posts and comments.
Clients connect over a socket and authenticate with an API key. The external user
service resolves the key to a user, and the socket is then bound to that user's id.
An authenticated socket can ask for the scores of a set of entities, and it can vote
`up`, `down` or `retract` on one entity. Each vote consumes a rate-limit token. It
rewrites the user's vote record, recomputes the entity's score as the sum of its
votes, stores that score, and broadcasts the new score and the voter's new direction
to every socket.

Three parts are modelled.
- `VoteStore` (`src/store.js`): `calcScore`, `updateScore`, `getUserVote`, the three
  `transform*` helpers, `vote` and `getScores`, as pure functions over an immutable `Db`.
  `Db` holds the two document collections as sequences.
- `DerpiApi` (`src/derpi-api.js`): the local API-key guard and the check that the
  service answered with an object.
- `Server` (`src/server.js`, the `connection` handler): the session table and the
  `auth`, `get-scores`, `vote` and `disconnect` transitions. Each is a pure function
  that returns the new state, the messages emitted and the external calls made.

`EntityKeys` models the `type_id` keys and proves them injective. `JsValues` models
the JavaScript values that arrive in payloads. `VoteStoreAsWritten` models `vote`
as written, including the fall-through described under Findings, over the documents
the store holds: nedb's `update(query, { value })` replaces the matched document with
`{ value }`, which no later query matches. `Scenario` runs the store through one
concrete sequence of votes on post 42.

Some consequences of the code that the model states:
- A second `auth` on a bound socket rebinds it.
- A `get-scores` naming no entity still queries both collections. The reply is then
  empty.
- A rejected vote (a retraction with nothing to retract) sends no reply at all.
- A failed user lookup leaves `auth` unanswered. The promise at `src/derpi-api.js`
  lines 24-29 has no rejection path.
- After user 1 votes up and user 2 votes down on post 42, user 1 changing to `down`
  leaves two down votes, so the score is -2 (`Scenario.FirstUserChangesToDown`). It
  goes back to -1 when user 1 retracts.

## Model

| member | source | states |
|---|---|---|
| EntityKeys.IntToString | src/store.js:59 | the `${id}` numeral never contains '_', and it starts with '-' exactly for negative ids |
| EntityKeys.NatToStringInjective | src/store.js:59 | distinct natural numbers print as distinct numerals |
| EntityKeys.IntToStringInjective | src/store.js:59 | distinct integer ids print as distinct numerals |
| EntityKeys.EntityKeyInjective | src/store.js:72-76 | two entities share a `type_id` key only if they have the same type and the same id, whatever the type strings are |
| JsValues.Get | src/store.js:176 | a property read gives the field's value when the value is an object with that field, and undefined otherwise |
| VoteStore.Locate | src/store.js:100-108 | `findOne` picks the first matching vote document: it matches, nothing before it matches, and None means nothing matches |
| VoteStore.LocateScore | src/store.js:42 | the score upsert acts on the first score document of the entity, or on none when the entity has none |
| VoteStore.Filter | src/store.js:179 | `find` keeps exactly the documents that satisfy the query, and never more than there were |
| VoteStore.CalcScore | src/store.js:23-31 | the loop computes the sum of the entity's vote values, with null counted as 0, which is the reference `Score` |
| VoteStore.UpdateScore | src/store.js:39-49 | upsert of `{type, id, score}` with the recomputed score: the returned document is stored, the votes are untouched, and every other entity's score documents stay as they were |
| VoteStore.GetUserVote | src/store.js:100-108 | resolves with a vote of this user on this entity, and with nothing exactly when the user has no vote on it |
| VoteStore.IndexBy | src/store.js:56-62 | `forEach` into an empty object: the keys are exactly those of the documents, and one document gives a one-entry object |
| VoteStore.IndexByLastWins | src/store.js:56-62 | a key holds the value of the last document that has it: later assignments overwrite earlier ones |
| VoteStore.TransformUserVotes | src/store.js:56-62 | `type_id` maps to 'up' for a positive value and to 'down' otherwise, for every document whose key is not repeated later |
| VoteStore.TransformBroadcastVotes | src/store.js:69-79 | `type_id` maps to the voter and their direction, which is null for a retracted vote |
| VoteStore.TransformScores | src/store.js:86-92 | `type_id` maps to the document's score |
| VoteStore.Mutate | src/store.js:141-161 | the exclusive three-way branch: remove, rewrite or insert. The broadcast document carries the user, the entity and the new value |
| VoteStore.Vote | src/store.js:117-164 | rejects exactly for a retraction with no existing vote. Otherwise it broadcasts the entity's new score, equal to the sum of its votes, and the voter's requested direction, and stores that score document |
| VoteStore.GetScores | src/store.js:172-191 | no reply when `entities` is undefined or null. Otherwise the score keys are the requested entities that have score documents, the vote keys are the caller's own votes on requested entities, and a request naming no supported type with ids gives an empty reply |
| VoteStoreProofs.ScoreConcat | src/store.js:28 | the score of two vote collections put together is the sum of their scores |
| VoteStoreProofs.ScoreAround | src/store.js:28 | the score splits around any one vote document |
| VoteStoreProofs.ScoreWithoutVotesIsZero | src/store.js:28 | an entity nobody voted on scores 0 |
| VoteStoreProofs.LocateIsFirstMatch | src/store.js:102 | a matching document with no earlier match is the one `findOne` picks |
| VoteStoreProofs.LocateScoreIsFirstMatch | src/store.js:42 | a matching score document with no earlier match is the one the upsert rewrites |
| VoteStoreProofs.MutateScore | src/store.js:141-161 | after the mutation, each entity's score is the old score minus the replaced vote's value plus the new value, and changes only for the voted entity |
| VoteStoreProofs.MutateFrame | src/store.js:141-161 | the mutation keeps every vote document of other users and other entities, and adds none |
| VoteStoreProofs.MutateKeepsUniqueVotes | src/store.js:141-161 | at most one vote per user and entity survives the exclusive mutation |
| VoteStoreProofs.MutateKeepsUnitValues | src/store.js:121-132 | every stored value stays +1 or -1 |
| VoteStoreProofs.PresentScoreIsLocated | src/store.js:42 | the upsert finds a score document for an entity that has one, and with one score document per entity it is the stored document itself |
| VoteStoreProofs.UpdateScoreKeepsUniqueScores | src/store.js:42 | the upsert keeps one score document per entity |
| VoteStoreProofs.UpsertKeepsScoresAreSums | src/store.js:135-139 | after mutation and upsert, every stored score equals the sum of its entity's votes |
| VoteStoreProofs.UpsertKeepsVotedEntitiesScored | src/store.js:135-139 | every entity with a vote still has a score document |
| VoteStoreProofs.VoteSteps | src/store.js:134-161 | a resolved vote is the mutation followed by the score upsert |
| VoteStoreProofs.VotePreservesValid | src/store.js:117-164 | every resolved vote keeps the store valid: one vote per user and entity, unit values, one score per entity, and each score the sum of its votes |
| VoteStoreProofs.MutateTwice | src/store.js:149-154 | writing the same up/down value a second time leaves the vote documents as the first write left them |
| VoteStoreProofs.UpdateScoreIdempotent | src/store.js:39-49 | a second upsert with unchanged votes leaves the store as it was |
| VoteStoreProofs.VoteTwiceIsIdempotent | src/store.js:117-164 | voting up (or down) twice in a row: the second vote resolves with the same store and the same broadcast as the first |
| VoteStoreProofs.VoteScoreIsPatchedScore | src/store.js:117-164 | the new score is the old score minus the user's previous value (if any) plus the new one |
| VoteStoreProofs.VoteFrame | src/store.js:117-164 | a vote changes no other user's record, no other entity's score and no other score document |
| VoteStoreProofs.VoteLeavesUserVote | src/store.js:141-161 | afterwards the user's record holds +1 after 'up' and -1 after 'down', and there is none after a retraction |
| VoteStoreProofs.VoteChangeRewritesInPlace | src/store.js:149-154 | changing or repeating an existing up/down vote rewrites that record in place: the collection keeps its size, the record holds the new value, and every other document stays |
| VoteStoreProofs.PresentVoteIsFound | src/store.js:100-108 | with one vote per user and entity, `getUserVote` returns the stored document |
| VoteStoreProofs.VoteKeepsOtherUsersVotes | src/store.js:117-164 | another user's vote on any entity is the same before and after |
| VoteStoreProofs.FilterKeepsKeysDistinct | src/store.js:179 | the documents a `find` returns keep distinct keys if they were distinct among the matches |
| VoteStoreProofs.DistinctKeysAreLast | src/store.js:56-62 | in documents with distinct keys, every document is the last one with its key |
| VoteStoreProofs.TransformScoresOfDistinct | src/store.js:86-92 | with distinct keys, every document's score is reported under its key |
| VoteStoreProofs.TransformUserVotesOfDistinct | src/store.js:56-62 | with distinct keys, every document's direction is reported under its key |
| VoteStoreProofs.RequestedScoresDistinct | src/store.js:174-179 | with one score document per entity, the matching score documents have distinct keys |
| VoteStoreProofs.OwnVotesDistinct | src/store.js:183-186 | with one vote per user and entity, the caller's matching votes have distinct keys |
| VoteStoreProofs.GetScoresReportsStoredScores | src/store.js:172-191 | every requested entity with a score document is reported with that score, which is the sum of its votes |
| VoteStoreProofs.GetScoresReportsOwnVotes | src/store.js:172-191 | every one of the caller's votes on a requested entity is reported with its direction |
| VoteStoreAsWritten.Records | src/store.js:102 | the vote records of the collection in order, without the orphans no query matches: exactly the documents `Record(d)` it holds |
| VoteStoreAsWritten.LocateRecord | src/store.js:143-149 | the first document matching `{userId, type, id}`, which `remove` and `update` act on: it matches, nothing before it does, and None means nothing does |
| VoteStoreAsWritten.LocateRecordIsFindOne | src/store.js:100-108 | the document `remove` and `update` act on is the one `getUserVote` finds among the records, and there is none exactly when `getUserVote` finds none |
| VoteStoreAsWritten.SkipNonMatching | src/store.js:102 | `findOne` passes over a first document that does not match the query, an orphan included |
| VoteStoreAsWritten.LocateRecordIsFirstMatch | src/store.js:143-149 | a matching document with no earlier match is the one `remove` and `update` act on |
| VoteStoreAsWritten.InsertKeepsOneRecordEach | src/store.js:157 | the insert, where no record of the key is left, keeps one record per user and entity, and the inserted record is the one found |
| VoteStoreAsWritten.RemoveClearsKey | src/store.js:143 | removing the user's only record on the entity leaves none, and keeps one record per key |
| VoteStoreAsWritten.ReplaceClearsKey | src/store.js:149 | replacing the user's only record on the entity by `{ value }` leaves no record of that key, and keeps one record per key |
| VoteStoreAsWritten.VoteAsWritten | src/store.js:117-164 | the fall-through version: it rejects in the same cases, and the inserted `{userId, type, id, value}` is always the last document |
| VoteStoreAsWritten.AsWrittenKeepsOneRecordEach | src/store.js:141-161 | as written, a vote still leaves one record per user and entity, and the caller's record is the one inserted last |
| VoteStoreAsWritten.AsWrittenChangedVoteLeavesOrphan | src/store.js:141-161 | as written, changing or repeating an existing vote turns the matched record into an orphan `{value}` and inserts a fresh record, so the collection grows by one document that no query matches |
| VoteStoreAsWritten.AsWrittenRetractLeavesNullVote | src/store.js:141-161 | as written, a retraction leaves a null record, so a second retraction is accepted and `getScores` reports 'down' |
| VoteStoreAsWritten.AsWrittenUpTwiceLeavesOrphan | src/store.js:141-161 | as written, a second 'up' by user 1 on post 42 leaves `[{value: 1}, {userId: 1, type: 'post', id: 42, value: 1}]`. The score is still 1, and the exclusive version keeps the single record |
| VoteStoreAsWritten.AsWrittenRetractConcrete | src/store.js:141-161 | as written, retracting user 1's up-vote on post 42 leaves `{userId: 1, type: 'post', id: 42, value: null}`. The exclusive version leaves no record |
| DerpiApi.MatchesKeyPattern | src/derpi-api.js:21 | `/^[A-Za-z\d]+$/` holds exactly for non-empty strings of ASCII letters and digits |
| DerpiApi.FetchUser | src/derpi-api.js:9-13 | resolves with the parsed body exactly when `_.isObject` holds of it |
| DerpiApi.CheckApiKey | src/derpi-api.js:20-30 | the service is asked exactly for string keys that match the pattern. Other keys reject, an object answer resolves with that object, and anything else never settles |
| Server.Caller | src/server.js:80-82 | a request passes the guard exactly when the socket has a binding with a truthy id, and then acts as that id |
| Server.OnAuth | src/server.js:71-78 | a malformed key gets `status: false` with no lookup and no state change. An object answer binds the socket to `user.id` and replies `status: true` with the user and the version. Otherwise there is no reply. Other sockets and the store are untouched |
| Server.OnGetScores | src/server.js:79-85 | changes nothing. An unauthenticated socket gets no reply and causes no store call. Otherwise there is one store call, and the reply is exactly the `getScores` result for the bound user, when there is one |
| Server.AfterStoreVote | src/server.js:93-99 | a rejected vote emits nothing and changes nothing. A resolved one stores the new state and ends with the 'vote-cast' broadcast. The caller alone gets 'vote-limit-reached' with the 50-second ttl exactly when no token is left |
| Server.OnVote | src/server.js:86-104 | unauthenticated sockets are ignored, and the session table never changes. A denied token sends the caller alone 'rate-limit' with the options (10, 50), with no store call and no state change. A granted token goes on to the store vote |
| Server.OnDisconnect | src/server.js:105-107 | removes the socket's binding only, emits nothing, and leaves the store and the limiter untouched |
| ServerProofs.StepPreservesValid | src/server.js:70-108 | every event keeps the store valid |
| ServerProofs.RunPreservesValid | src/server.js:70-108 | any sequence of events keeps the store valid, so each score stays the sum of its votes |
| ServerProofs.StepKeepsSocketUnbound | src/server.js:70-108 | no event but an 'auth' on that socket binds it, and no message is addressed to an unbound socket |
| ServerProofs.UnboundSocketStaysSilent | src/server.js:79-90 | a socket that never authenticates stays unbound for a whole run, and no message is addressed to it. The 'vote-cast' broadcast still reaches it |
| ServerProofs.VoteBroadcastCarriesOnlyTheVoter | src/server.js:86-104 | a broadcast after a vote event comes from an authenticated socket. Its `userVotes` holds exactly the voted entity, mapped to the acting user and the requested direction |
| ServerProofs.BroadcastCarriesOnlyTheVoter | src/server.js:98 | the only broadcast is 'vote-cast' after an authenticated vote. It carries one entity and the acting user's own vote, never another user's |
| Scenario.Post42Key | src/store.js:89 | the key of post 42 is `post_42` |
| Scenario.FirstUpVote | src/store.js:117-164 | user 1 votes up on post 42 in an empty store: score 1, broadcast `{post_42: 1}` with user 1 'up' |
| Scenario.SecondUserDownVote | src/store.js:117-164 | user 2 then votes down: score 0, broadcast with user 2 'down' |
| Scenario.FirstUserChangesToDown | src/store.js:117-164 | user 1 changes to down: their record is rewritten, not duplicated, and the score is -2 |
| Scenario.RetractIsNoDirection | src/store.js:121-132 | 'retract' selects neither +1 nor -1 and broadcasts a null direction |
| Scenario.RetractStore | src/store.js:141-148 | user 1's retraction removes their record, and the stored score becomes -1 |
| Scenario.FirstUserRetracts | src/store.js:117-164 | the retraction broadcasts score -1 with user 1's direction null |
| Scenario.SecondUserReadsScores | src/store.js:172-191 | user 2 then asks for post 42 and gets `{post_42: -1}` and `{post_42: 'down'}` |

## Left out

- Persistence and storage errors: the collections' files, autocompaction (src/store.js:13-15) and every `err` branch. The store is a value, and its operations never fail.
- Concurrency: each event runs to completion before the next one. Interleavings of asynchronous callbacks, such as two votes on one entity overlapping, are not modelled.
- The rate limiter's token bucket is a library outside this model. Each vote event carries whether `consume` succeeds and what `hasTokenSync` then reports. Only the options (src/rate-limit.js:3-6) are modelled.
- The HTTP request and JSON parsing of `fetchUser` are I/O. The parsed answer is a parameter of the `auth` event.
- Transport setup and the origin allow-list (src/server.js:60-68), and the package version, which is a parameter.
- A missing `data` payload: reading `data.apiKey` or `data.entities` throws in the 'auth' or 'get-scores' handler. On 'vote' the read of `data.type` throws inside the `consume(...).then` callback (src/server.js:93), so the `.catch` at src/server.js:101-103 sends the caller 'rate-limit' after a token was consumed. Neither path is modelled: every event carries its fields.
- Payload types: `type` and `direction` are strings and ids are integers in the model. A non-string `direction` would fall to the `default` branch (src/store.js:128) and act as a retraction, as every string other than 'up' and 'down' does here. A non-string `type` or a fractional id would be stored and keyed through the template literal.
- EntityKeys.IntToString: ids are exact integers printed as plain decimal numerals. JavaScript prints numbers of magnitude 10^21 and above in exponent form, and integers beyond 2^53 are not all representable; neither is modelled.
- Server.OnGetScores: the reply is always sent when the store answers. At src/server.js:84 it goes through the client's acknowledgement callback `resp`, so a client that asks for no acknowledgement gets nothing.
- VoteStore.Mutate: this is the corrected version. The update at src/store.js:149 passes `{ value }` as the new document, and nedb replaces the whole matched document with it. The corrected version sets `value` on the matched record instead, as the code's own `existingVote.value = value` presumes. `VoteStoreAsWritten.VoteAsWritten` models the replacement.
- VoteStoreAsWritten.VoteAsWritten: it gives only the resulting vote documents. Which of the two completions resolves the promise first depends on scheduling and is not modelled.
- DerpiApi.CheckApiKey: a failed request is not distinguished from a non-object answer. Both leave the promise unsettled.

## Findings

| source | as written | input that shows it | evidently intended | confidence | as-written member | corrected member |
|---|---|---|---|---|---|---|
| src/store.js:141-161 | the branch for an existing vote has no `return`, so the insert at line 157 also runs, with `value` null on a retraction | user 1 has +1 on post 42 and sends 'retract': the record `{userId: 1, type: 'post', id: 42, value: null}` is inserted, a second 'retract' is accepted, and `getScores` reports 'down' | a retraction removes the vote and leaves no record | not executed | VoteStoreAsWritten.AsWrittenRetractLeavesNullVote | VoteStoreProofs.VoteLeavesUserVote |
| src/store.js:141-161 | the same fall-through runs after the update of an existing vote, and that update replaces the record with `{ value }` | user 1 has +1 on post 42 and sends 'up' again: the record becomes the orphan `{value: 1}` and a fresh record is inserted, so every changed or repeated vote leaves one more document that no query matches | changing a vote rewrites the record in place and adds no document | not executed | VoteStoreAsWritten.AsWrittenChangedVoteLeavesOrphan | VoteStoreProofs.VoteChangeRewritesInPlace |
