# zKillboard API key handling, modelled in Dafny

This project models the core of zKillboard's `Api` class, the code that
polls the EVE Online XML API for killmails:

- **AccessGate** (`Api::checkAPI`, `Api::hasBits`): the admission check a
  (keyID, vCode) pair passes before it is stored. Both fields are trimmed.
  A blank field is refused, and so is a keyID whose `(int)` cast is 0. The
  `APIKeyInfo` call is then made, and the key's access mask must carry the
  KillLog bit (256).
- **ErrorClassifier** (the `switch` of `Api::handleApiException`): maps the
  code of a remote API error to the mutations to attempt. These are the
  global stop marker, a per-character backoff, clearing one character,
  demoting it, clearing all of the key's characters, and marking the key.
- **StateMutator** (the writes at the end of `handleApiException`): applies
  those flags to the character and key tables in the source's fixed order.
- **FetchScheduler** (`Api::fetchApis`): drops half-validated character
  rows and reads the shard count (default 30). When the count is not the
  largest assigned `modulus` plus one, it resets every modulus.
  Unassigned moduli are filled with `apiRowID % count`, and one fetch
  worker per shard index is requested.
- **KillmailIngester** (`Api::processRawApi`): stores each kill of a
  KillLog reply whose killID is not yet in the killmail table, and returns
  the number stored.
- **Php**: the PHP built-ins these lean on, modelled exactly. These are
  `trim`, the `(int)` cast of a string (PHP 5, 64-bit: `strtol` with
  saturation) and the decimal rendering of an integer.

The database is a value:
- `Store.Db` holds the key table (by keyID), the character table (by
  `apiRowID`) and the `ApiStop904` marker;
- the killmail table is a map from killID.

Every operation is a pure function from the old tables to the new ones.
Three things the code gets from outside become parameters:
- the current time;
- the remote `APIKeyInfo` call, as a function from (keyID, vCode) to a
  reply;
- whether the demotion's UPDATE succeeded.

In these places the code does not do what its comments suggest, and the
model follows the code:
- code 403 is caught by the first `case 403` (a five-minute backoff), so it
  never evicts the key;
- code 222 computes a one-week backoff but never writes it, because it does
  not set `updateCacheTime`;
- the error code of the (keyID, charID) row is written after the key's
  characters were deleted, so after an eviction no row carries it;
- 28/904 also record the error code on the character row;
- `fetchApis` itself never reads the `ApiStop904` marker;
- the modulus reset fires when the largest modulus plus one differs from
  the shard count, which is not the same as the count having changed. A
  new count can pass the test: rows 40 and 52 holding 10 and 22 from 30
  shards are kept at 23 shards (FetchScheduler.ShardTestMissesChange).
  An unchanged count can fail it: once row 52 is deleted, the next cycle
  at 23 shards moves row 40 from 10 to 17
  (FetchScheduler.ShardTestResetsUnchangedCount). Every row still lands in
  one of the shards (FetchScheduler.AssignModulusInRange), which is what
  the comment at the test asks for.

## Model

| member | source | states |
|---|---|---|
| ErrorClassifier.Classify | classes/Api.php:184-278 | At most one kind of effect per code. Clearing all characters always marks the key. A backoff never marks the key, and it lies in the future except for 119/120, which take the remote hint. A stop marker is now + 5 minutes. Every code outside the listed cases only marks the key. |
| ErrorClassifier.Code403TakesFirstCase | classes/Api.php:200-205 | 403 gets the five-minute backoff of 502/503, not the eviction of the later `case 403` beside 211 (lines 246-251). |
| ErrorClassifier.AccountExpiredWeekIsNotApplied | classes/Api.php:240-244 | 222 computes now + one week but leaves `updateCacheTime` unset, so the week is never written. |
| ErrorClassifier.EvictionCodesEvict | classes/Api.php:217-261 | Each of 200, 202-205, 210, 211, 220-222 and 521 asks for exactly an eviction of all characters plus a key mark. |
| StateMutator.Demote | classes/Api.php:281 | Every row of the character, under any key, becomes a non-director. No row is added or removed and no other column changes. |
| StateMutator.DeleteCharacter | classes/Api.php:287 | Exactly the rows of (keyID, charID) disappear. The others are kept unchanged. |
| StateMutator.DeleteKeyCharacters | classes/Api.php:291 | Exactly the rows of keyID disappear. The others are kept unchanged. |
| StateMutator.MarkKey | classes/Api.php:295 | Only the error code of key keyID changes. A key that is not stored stays absent. |
| StateMutator.SetCachedUntil | classes/Api.php:299-300 | Every row of the character, under any key, gets the backoff time. Nothing else changes. |
| StateMutator.RecordError | classes/Api.php:302 | Only the (keyID, charID) rows get the error code. Nothing else changes. |
| StateMutator.Prune | classes/Api.php:280-292 | Rows are removed only from keyID, and only `isDirector` changes. Rows of other keys and other characters are untouched. After an eviction no row of keyID is left. |
| StateMutator.WriteBackoff | classes/Api.php:298-301 | Only `cachedUntil` changes, and it changes only when the branch asked for a backoff with a non-zero time and a character is given. |
| StateMutator.ApplyToCharacters | classes/Api.php:280-302 | The character-table writes in order. Removals happen only in keyID. Rows of other keys and characters are untouched. Key, character and modulus never change. The (keyID, charID) rows that remain carry the code. Without a backoff no `cachedUntil` changes. |
| StateMutator.Apply | classes/Api.php:194-302 | The stop marker changes only when the action sets it. The key table changes only in key keyID's error code, and only when the action marks the key. The character table gets the writes above. |
| StateMutator.HandleApiException | classes/Api.php:184-303 | The handler is the classification followed by its writes. Only 28 and 904 move the stop marker, to now + 5 minutes. No key is added or removed. A (keyID, charID) row that survives always carries the error's code. |
| StateMutator.ApplyWithoutDeletion | classes/Api.php:280-302 | An action that neither deletes nor demotes changes only the backoff of the character's rows and the error code of the (keyID, charID) rows. |
| StateMutator.ApplyEviction | classes/Api.php:286-302 | An eviction without backoff or demotion leaves exactly the rows of the other keys. |
| StateMutator.ApplyCharacterClear | classes/Api.php:280-288 | A character clear, whether asked for or escalated from a failed demotion, leaves every row except (keyID, charID). |
| StateMutator.ServiceUnavailableBacksOff | classes/Api.php:200-205 | For 403/502/503, the character is backed off to now + 5 minutes and the code is recorded. The keys and the stop marker are unchanged. |
| StateMutator.ServerErrorBacksOff | classes/Api.php:263-269 | For 500/520/404/902, the character is backed off to now + 1 hour and the code is recorded. Nothing else changes. |
| StateMutator.KillsExhaustedUsesHint | classes/Api.php:207-215 | For 119/120, the backoff is the remote `cached_until` verbatim, and a zero hint writes none. The code is recorded on the (keyID, charID) rows. Nothing else changes. |
| StateMutator.EvictionCodesClearKey | classes/Api.php:217-261 | For every eviction code, the key is marked with the code, every character row of the key is gone, all other rows are unchanged, and the stop marker is unchanged. |
| StateMutator.TransferredCharacterDropped | classes/Api.php:230-234 | For 201/522, only the (keyID, charID) row is deleted. With charID 0 only the code is recorded. |
| StateMutator.DemotionCodes | classes/Api.php:235-238 | For 207/209, the character is demoted under every key and the code is recorded. A failed demotion deletes the (keyID, charID) row instead. With charID 0 only the code is recorded. |
| StateMutator.GlobalStopCodes | classes/Api.php:195-198 | For 28/904, the stop marker becomes now + 5 minutes and only the code is recorded. The keys are unchanged. |
| StateMutator.UnknownCodesMarkKey | classes/Api.php:271-277 | For code 0 and every unlisted code, the key is marked and only the code is recorded. No character is removed. |
| AccessGate.TextSuccessOnly | classes/Api.php:38-63 | The returned text is "success" exactly for the success verdict. No refusal text equals it. |
| AccessGate.TextCarriesMessage | classes/Api.php:53 | The text of a remote failure ends with the service's message, unchanged. |
| AccessGate.HasBits | classes/Api.php:170-173 | True exactly when bit 8 (value 256) of the mask's two's-complement form is set. |
| AccessGate.HasBitsOnlyBit8 | classes/Api.php:172 | The bits above and below bit 8 do not affect the answer. |
| AccessGate.CheckApi | classes/Api.php:33-64 | A blank trimmed field gives the "no keyID and/or vCode" refusal, and a keyID casting to 0 gives "Invalid keyID". The result is success exactly when the input is well formed, the service returns a mask and the mask has the KillLog bit. It is the KillLog refusal exactly when the mask lacks that bit. A remote error on a well-formed input gives "Error: code Message: message" with the service's code and message. As written, the "mistaken keyid for the vcode" hint is never returned. |
| AccessGate.MalformedInputMakesNoRemoteCall | classes/Api.php:35-42 | A refused input gets the same verdict whatever the service would reply, so the call is never made, and the verdict is one of the two malformed-input refusals. |
| AccessGate.BlankFieldsRefused | classes/Api.php:35-38 | An empty keyID or an all-blank vCode is refused as missing. |
| AccessGate.LetterKeyRefused | classes/Api.php:39-42 | The keyID "abc" is refused as invalid. |
| AccessGate.KeyHundredByMask | classes/Api.php:56-63 | Key 100 is accepted with access mask 256 and refused with mask 0. |
| AccessGate.SwapTestAsWritten | classes/Api.php:51 | The test `strlen($keyID) > 20`, applied to the keyID after its `(int)` cast, never passes. |
| AccessGate.CheckApiIntended | classes/Api.php:33-64 | The corrected check gives the swap hint exactly when a well-formed keyID longer than 20 characters is rejected remotely, and the remote error, with the service's code and message, exactly when it is not longer. In every other case it agrees with the code as written. |
| AccessGate.SwapHintDiscrepancy | classes/Api.php:51-53 | For every input that should get the hint, the code as written reports the remote error instead. |
| AccessGate.SwapHintCounterexample | classes/Api.php:51-53 | A concrete input: the 21-character keyID "9xxxxxxxxxxxxxxxxxxxx" rejected with code 203. |
| Php.Trim | classes/Api.php:35-36 | `trim` is empty exactly when the string is all blanks. Otherwise it starts and ends with a non-blank, and it is never longer than the input. |
| Php.TrimSegment | classes/Api.php:35-36 | `trim` returns a slice of the input, with only blanks cut off on either side. |
| Php.TrimNonBlank | classes/Api.php:35-36 | A string with non-blank ends is its own trim. |
| Php.TrimIdempotent | classes/Api.php:35-36 | Trimming twice is trimming once. |
| Php.IntCast | classes/Api.php:39 | The `(int)` cast lies in the 64-bit range. It is 0 when no digit follows the leading blanks and sign, and otherwise has the sign the string shows. |
| Php.IntCastDigitPrefix | classes/Api.php:39 | The cast reads the leading digits and stops at the first other character. |
| Php.IntCastNegative | classes/Api.php:39 | A minus sign before digits negates their value. |
| Php.IntCastNoDigits | classes/Api.php:39-42 | A string starting with neither a blank, a sign nor a digit casts to 0, so `checkAPI` refuses it. |
| Php.IntCastGeneral | classes/Api.php:39 | Leading blanks, at most one sign, a digit run and any text not starting with a digit cast to the signed value of the digits, clamped to the 64-bit range. |
| Php.IntCastBlankPlus | classes/Api.php:39 | `(int)" +12"` is 12. |
| Php.IntCastMinusThenText | classes/Api.php:39 | `(int)"-7x"` is -7. |
| Php.IntCastSaturatesHigh | classes/Api.php:39 | A digit run above PHP_INT_MAX casts to PHP_INT_MAX. |
| Php.IntCastSaturatesLow | classes/Api.php:39 | A minus sign and a digit run above -PHP_INT_MIN cast to PHP_INT_MIN. |
| Php.IntCastRoundTrip | classes/Api.php:39 | Casting the decimal rendering of a 64-bit integer gives the integer back. |
| Php.DecimalString | classes/Api.php:51 | The rendering is non-empty, and it is digits with a leading minus exactly for negative numbers. |
| Php.DecimalLengthBound | classes/Api.php:51 | A 64-bit integer renders in at most 20 characters. |
| Php.Saturate | classes/Api.php:39 | An out-of-range value saturates to PHP_INT_MIN or PHP_INT_MAX. An in-range value is kept. |
| FetchScheduler.FetchesPerSecond | classes/Api.php:310 | 30 when nothing is configured. Otherwise the `(int)` cast of the stored value, a 64-bit integer. |
| FetchScheduler.ShardCountChanged | classes/Api.php:311-313 | The reset test, row by row: it passes exactly when either no row has a modulus and the count is 1, or some row has modulus count - 1 and none has a larger one. |
| FetchScheduler.FetchApis | classes/Api.php:305-326 | One run assigns the moduli and requests the workers for the same configured count. Exactly the checked rows survive. There are max(count, 0) requests. |
| FetchScheduler.Cleanup | classes/Api.php:309 | Exactly the rows whose director check completed survive, unchanged. |
| FetchScheduler.MaxModulus | classes/Api.php:311 | NULL exactly when no row has a modulus. Otherwise it is some row's modulus and no modulus exceeds it. |
| FetchScheduler.SqlMod | classes/Api.php:318 | MySQL's `%`. NULL exactly for a zero divisor. For non-negative operands it is the remainder. In general it has the dividend's sign and is smaller than the divisor in magnitude. |
| FetchScheduler.AssignModulus | classes/Api.php:309-318 | Exactly the checked rows survive, and only their modulus changes. When the reset test does not fire, assigned moduli are kept. A reset or unassigned modulus becomes `apiRowID % count`. |
| FetchScheduler.Launches | classes/Api.php:320-325 | As many launch requests as the shard count, and none when it is not positive. |
| FetchScheduler.LaunchesDistinct | classes/Api.php:320-325 | Each request names a distinct shard index in [0, count) together with the count, and every index in [0, count) is requested. |
| FetchScheduler.AssignModulusInRange | classes/Api.php:311-318 | With a positive count, every surviving row ends with a modulus in [0, count), whatever the previous count was. |
| FetchScheduler.EveryShardLaunched | classes/Api.php:305-326 | Every surviving row's shard is among the launch requests. |
| FetchScheduler.CleanupKeepsCheckedRows | classes/Api.php:309 | The cleanup removes nothing from a table with no half-validated rows. |
| FetchScheduler.StableWithoutReset | classes/Api.php:311-318 | A table with every modulus in range that passes the reset test is left unchanged. |
| FetchScheduler.ShardTestMissesChange | classes/Api.php:311-318 | Rows 40 and 52 holding 10 and 22, which a 30-shard cycle leaves as they are, are also kept at 23 shards, although 40 % 23 is 17. |
| FetchScheduler.ShardTestResetsUnchangedCount | classes/Api.php:311-318 | At 23 shards the two rows pass the reset test, but once row 52 is gone the test fires and row 40 moves to modulus 17. |
| FetchScheduler.StableAfterReset | classes/Api.php:316-318 | A table whose moduli are already `apiRowID % count` is left unchanged, even when it is reset. |
| FetchScheduler.SameShardCountKept | classes/Api.php:311-318 | When the reset test does not fire in a cycle, it does not fire in the next one with the same count. |
| FetchScheduler.UnchangedCountIsPositive | classes/Api.php:310-313 | With no negative modulus, a zero or negative count always counts as a change, so every row is reset. |
| FetchScheduler.AssignModulusIdempotent | classes/Api.php:309-318 | A second cycle right after the first, with the same shard count and no row deleted in between, changes no row. This holds for every count the cast can give, zero and negative ones included. |
| KillmailIngester.FirstIndex | classes/Api.php:355 | The position of the first kill of the reply with a given killID. |
| KillmailIngester.KillIDsMembers | classes/Api.php:355-356 | The killID set of a reply holds exactly the killIDs occurring in it. |
| KillmailIngester.Ingest | classes/Api.php:352-370 | Afterwards the table holds the old killIDs plus the reply's, and every old row is unchanged. |
| KillmailIngester.IngestStoresFirstOccurrence | classes/Api.php:355-367 | Each new row holds the hash and JSON of the first kill with that killID, with source "keyID:" followed by the key. |
| KillmailIngester.IngestCountsNewKills | classes/Api.php:354-369 | The returned count is the number of distinct killIDs of the reply that the table did not hold. |
| KillmailIngester.IngestCountsAddedRows | classes/Api.php:354-369 | The returned count is the number of rows the table grew by. |
| KillmailIngester.PresentKillsChangeNothing | classes/Api.php:361-362 | A reply whose killIDs are all stored changes nothing and returns 0. |
| KillmailIngester.IngestIdempotent | classes/Api.php:352-370 | Replaying a reply with the same key or any other changes no row and returns 0, so each killmail keeps the source that stored it first. |

## Left out

- `Api::addKey`, `deleteKey`, `getKeys`, `getCharacterKeys` and `getCharacters` are left out. They are plain row reads and writes with no logic of their own.
- `Api::doApiSummary` is left out. It is statistics and IRC reporting.
- `classes/Twit.php` is left out. It is not part of the key-handling core.
- Process spawning is left out: the `flock -w 60` per-shard lock, `exec` and the background workers. `FetchScheduler.Launches` returns the requests instead, so "at most one worker per shard" is reduced to "one request per shard index" (LaunchesDistinct).
- The fetch worker (`apiFetchKillLog`) is not part of this model. Nor is its check of the `ApiStop904` marker, which `fetchApis` itself does not read.
- Logging (`Log::log`) is left out. It has no effect on the tables.
- The clocks are a parameter `now`. The database's `now()` and PHP's `time()` are taken to be the same clock, in seconds.
- StateMutator.Apply: only the demotion's UPDATE may fail. Every other write is taken to succeed, since the source ignores their results.
- The key table is keyed by keyID alone. Key rows are used only through keyID here.
- Store.CharRow: `cachedUntil` is an integer timestamp, not a MySQL datetime.
- KillmailIngester.Ingest: the JSON encoding and `Util::getKillHash` are taken as given fields of each kill. The loop is sequential, so the race that `insert ignore` guards against is not modelled. An insert of a killID found absent always adds one row.
- AccessGate.CheckApiIntended: the corrected swap test counts characters, while PHP's `strlen` counts bytes. The two agree only for ASCII keyIDs.
- AccessGate.HasBits: the access mask is an integer. PHP's conversion of a string mask before `&` is not modelled.
- Php.IntCast: follows PHP 5's `strtol` with saturation, the `php5` the scheduler runs. PHP 7's numeric-string rules are not modelled.
- FetchScheduler.AssignModulusInRange: needs non-negative row ids and moduli, as `apiRowID` is an auto-increment column.
- FetchScheduler.AssignModulus: "after a reset the largest modulus is count - 1" is not stated, because it depends on which row ids exist. Idempotence is proved whether or not it holds (AssignModulusIdempotent).

## Findings

| source | as written | input that shows it | evidently intended | confidence | as-written member | corrected member |
|---|---|---|---|---|---|---|
| classes/Api.php:51 | The swap hint tests `strlen($keyID)` after `$keyID` was overwritten by its `(int)` cast (line 39). A 64-bit integer never prints longer than 20 characters, so the hint can never be given. | keyID "9xxxxxxxxxxxxxxxxxxxx" (21 characters, casts to 9), vCode "x", remote error 203: the remote error is returned instead of the hint | Test the length of the trimmed keyID as typed | high (proved; not executed) | AccessGate.SwapTestAsWritten, AccessGate.SwapHintCounterexample | AccessGate.CheckApiIntended |
