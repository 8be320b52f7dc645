/**
 * The write pipeline at the end of `Api::handleApiException`: the flags of
 * an `Action` applied to the store in the source's fixed order. Each write
 * is one SQL statement over the character or key table; the only write
 * whose failure the source looks at is the demotion, and whether it
 * succeeded is a parameter.
 */
module StateMutator {
  import opened Wrappers
  import opened Store
  import opened ErrorClassifier

  /** The remote error: its code, message and `cached_until` hint (0 when absent). */
  datatype RemoteException = RemoteException(code: int, message: string, cachedUntil: int)

  /** Marks every row of character `charID`, under any key, as not a director. */
  function Demote(chars: Characters, charID: int): (r: Characters)
    ensures r.Keys == chars.Keys
    ensures forall id | id in r :: r[id] == chars[id].(isDirector := r[id].isDirector)
    ensures forall id | id in r && chars[id].characterID == charID :: r[id].isDirector == NotDirector
    ensures forall id | id in r && chars[id].characterID != charID :: r[id] == chars[id]
  {
    map id | id in chars ::
      if chars[id].characterID == charID then chars[id].(isDirector := NotDirector) else chars[id]
  }

  /** Deletes the rows of character `charID` under key `keyID`. */
  function DeleteCharacter(chars: Characters, keyID: int, charID: int): (r: Characters)
    ensures forall id :: id in r <==> id in chars && !(chars[id].keyID == keyID && chars[id].characterID == charID)
    ensures forall id | id in r :: r[id] == chars[id]
  {
    map id | id in chars && !(chars[id].keyID == keyID && chars[id].characterID == charID) :: chars[id]
  }

  /** Deletes every character row of key `keyID`. */
  function DeleteKeyCharacters(chars: Characters, keyID: int): (r: Characters)
    ensures forall id :: id in r <==> id in chars && chars[id].keyID != keyID
    ensures forall id | id in r :: r[id] == chars[id]
  {
    map id | id in chars && chars[id].keyID != keyID :: chars[id]
  }

  /** Sets the error code of key `keyID`; a key that is not stored is left absent. */
  function MarkKey(keys: map<int, KeyRow>, keyID: int, code: int): (r: map<int, KeyRow>)
    ensures r.Keys == keys.Keys
    ensures keyID in r ==> r[keyID].errorCode == code && r[keyID].vCode == keys[keyID].vCode
    ensures forall k | k in r && k != keyID :: r[k] == keys[k]
  {
    if keyID in keys then keys[keyID := keys[keyID].(errorCode := code)] else keys
  }

  /** Sets the backoff time of every row of character `charID`, under any key. */
  function SetCachedUntil(chars: Characters, charID: int, until: int): (r: Characters)
    ensures r.Keys == chars.Keys
    ensures forall id | id in r :: r[id] == chars[id].(cachedUntil := r[id].cachedUntil)
    ensures forall id | id in r && chars[id].characterID == charID :: r[id].cachedUntil == until
    ensures forall id | id in r && chars[id].characterID != charID :: r[id] == chars[id]
  {
    map id | id in chars ::
      if chars[id].characterID == charID then chars[id].(cachedUntil := until) else chars[id]
  }

  /** Records the error code on the rows of character `charID` under key `keyID`. */
  function RecordError(chars: Characters, keyID: int, charID: int, code: int): (r: Characters)
    ensures r.Keys == chars.Keys
    ensures forall id | id in r :: r[id] == chars[id].(errorCode := r[id].errorCode)
    ensures forall id | id in r && chars[id].keyID == keyID && chars[id].characterID == charID ::
      r[id].errorCode == code
    ensures forall id | id in r && !(chars[id].keyID == keyID && chars[id].characterID == charID) ::
      r[id] == chars[id]
  {
    map id | id in chars ::
      if chars[id].keyID == keyID && chars[id].characterID == charID
      then chars[id].(errorCode := code) else chars[id]
  }

  /**
   * The deleting half of the pipeline: demotion (a failed demotion
   * escalates to clearing the character), clearing the character, and
   * clearing every character of the key. Rows are only ever removed from
   * key `keyID`, and the only column it changes is `isDirector`.
   */
  function Prune(chars: Characters, keyID: int, charID: int, a: Action, demoteOk: bool): (r: Characters)
    ensures r.Keys <= chars.Keys
    ensures forall id :: id in chars && id !in r ==> chars[id].keyID == keyID
    ensures forall id | id in r :: r[id] == chars[id].(isDirector := r[id].isDirector)
    ensures forall id :: (id in chars && chars[id].keyID != keyID && chars[id].characterID != charID
      ==> id in r && r[id] == chars[id])
    ensures a.clearAllCharacters ==> forall id | id in r :: r[id].keyID != keyID
  {
    var demote := a.demoteCharacter && charID != 0;
    var c1 := if demote && demoteOk then Demote(chars, charID) else chars;
    var clearCharacter := a.clearCharacter || (demote && !demoteOk);
    var c2 := if clearCharacter && charID != 0 then DeleteCharacter(c1, keyID, charID) else c1;
    if a.clearAllCharacters then DeleteKeyCharacters(c2, keyID) else c2
  }

  /** The backoff write, done only when the branch asked for it with a non-zero time and there is a character. */
  function WriteBackoff(chars: Characters, charID: int, a: Action): (r: Characters)
    ensures r.Keys == chars.Keys
    ensures forall id | id in r :: r[id] == chars[id].(cachedUntil := r[id].cachedUntil)
    ensures !(a.updateCacheTime && a.cacheUntil != 0 && charID != 0)
      ==> forall id | id in r :: r[id].cachedUntil == chars[id].cachedUntil
  {
    if a.updateCacheTime && a.cacheUntil != 0 && charID != 0
    then SetCachedUntil(chars, charID, a.cacheUntil) else chars
  }

  /**
   * The character-table writes of `handleApiException` for action `a`, in
   * source order: the deletions of Prune, the backoff, and last the error
   * code of the (keyID, charID) row, which is written on every path.
   * Rows are only removed, and only from key `keyID`; rows of neither this
   * key nor this character are untouched; no row changes key, character or
   * shard.
   */
  function ApplyToCharacters(chars: Characters, keyID: int, charID: int, code: int, a: Action, demoteOk: bool): (r: Characters)
    ensures r.Keys <= chars.Keys
    ensures forall id :: id in chars && id !in r ==> chars[id].keyID == keyID
    ensures forall id :: (id in chars && chars[id].keyID != keyID && chars[id].characterID != charID
      ==> id in r && r[id] == chars[id])
    ensures forall id | id in r ::
      && r[id].keyID == chars[id].keyID
      && r[id].characterID == chars[id].characterID
      && r[id].modulus == chars[id].modulus
    ensures a.clearAllCharacters ==> forall id | id in r :: r[id].keyID != keyID
    ensures forall id :: (id in r && r[id].keyID == keyID && r[id].characterID == charID
      ==> r[id].errorCode == code)
    ensures !(a.updateCacheTime && a.cacheUntil != 0 && charID != 0)
      ==> forall id | id in r :: r[id].cachedUntil == chars[id].cachedUntil
  {
    var pruned := Prune(chars, keyID, charID, a, demoteOk);
    RecordError(WriteBackoff(pruned, charID, a), keyID, charID, code)
  }

  /**
   * Every write of `handleApiException` for action `a`: the stop marker
   * (written inside the switch), the character-table writes, and the key's
   * error mark. The stop marker is the only global effect, and the key
   * table changes only in the error code of key `keyID`.
   */
  function Apply(db: Db, keyID: int, charID: int, code: int, a: Action, demoteOk: bool): (r: Db)
    ensures r.apiStop == (if a.stopUntil.Some? then a.stopUntil else db.apiStop)
    ensures r.keys.Keys == db.keys.Keys
    ensures forall k :: k in db.keys && (k != keyID || !a.clearApiEntry) ==> r.keys[k] == db.keys[k]
    ensures a.clearApiEntry && keyID in db.keys ==> r.keys[keyID] == db.keys[keyID].(errorCode := code)
    ensures r.chars == ApplyToCharacters(db.chars, keyID, charID, code, a, demoteOk)
  {
    var stop := if a.stopUntil.Some? then a.stopUntil else db.apiStop;
    var keys := if a.clearApiEntry then MarkKey(db.keys, keyID, code) else db.keys;
    Db(keys, ApplyToCharacters(db.chars, keyID, charID, code, a, demoteOk), stop)
  }

  /**
   * `Api::handleApiException($keyID, $charID, $e)`: classify, then apply.
   * Only timeouts and temporary bans (28, 904) move the stop marker, no key
   * is added or removed, and a surviving (keyID, charID) row always carries
   * the error's code.
   */
  function HandleApiException(db: Db, keyID: int, charID: int, e: RemoteException, now: int, demoteOk: bool): (r: Db)
    ensures r == Apply(db, keyID, charID, e.code, Classify(e.code, now, e.cachedUntil), demoteOk)
    ensures r.apiStop == if e.code == 28 || e.code == 904 then Some(now + FiveMinutes) else db.apiStop
    ensures r.keys.Keys == db.keys.Keys
    ensures forall id | id in r.chars && r.chars[id].keyID == keyID && r.chars[id].characterID == charID ::
      r.chars[id].errorCode == e.code
  {
    Apply(db, keyID, charID, e.code, Classify(e.code, now, e.cachedUntil), demoteOk)
  }

  // Reference descriptions of the outcomes, one per family of codes.

  /**
   * `after` is `before` in which only two things changed: every row of
   * character `charID` has backoff `until` (when `until` and `charID` are
   * non-zero, under any key), and the (keyID, charID) rows carry `code`.
   */
  ghost predicate BackedOff(before: Characters, after: Characters, keyID: int, charID: int, code: int, until: int) {
    && after.Keys == before.Keys
    && forall id | id in before ::
      after[id] == before[id].(
        cachedUntil := if until != 0 && charID != 0 && before[id].characterID == charID
          then until else before[id].cachedUntil,
        errorCode := if before[id].keyID == keyID && before[id].characterID == charID
          then code else before[id].errorCode)
  }

  /** `after` differs from `before` only in the error code of the (keyID, charID) rows. */
  ghost predicate OnlyErrorRecorded(before: Characters, after: Characters, keyID: int, charID: int, code: int) {
    BackedOff(before, after, keyID, charID, code, 0)
  }

  /** `after` is `before` without the rows of key `keyID`. */
  ghost predicate WithoutKey(before: Characters, after: Characters, keyID: int) {
    && (forall id :: id in after <==> id in before && before[id].keyID != keyID)
    && forall id | id in after :: after[id] == before[id]
  }

  /** `after` is `before` without the rows of character `charID` under key `keyID`. */
  ghost predicate WithoutCharacter(before: Characters, after: Characters, keyID: int, charID: int) {
    && (forall id :: id in after <==>
          id in before && !(before[id].keyID == keyID && before[id].characterID == charID))
    && forall id | id in after :: after[id] == before[id]
  }

  /** The key table after the key has been marked with `code`, and nothing else. */
  ghost predicate KeyMarked(before: map<int, KeyRow>, after: map<int, KeyRow>, keyID: int, code: int) {
    && after.Keys == before.Keys
    && forall k | k in before ::
      after[k] == if k == keyID then before[k].(errorCode := code) else before[k]
  }

  /**
   * An action that neither deletes nor demotes changes at most the backoff
   * of `charID`'s rows and the error code of the (keyID, charID) rows.
   */
  lemma ApplyWithoutDeletion(db: Db, keyID: int, charID: int, code: int, a: Action, demoteOk: bool)
    requires !a.clearCharacter && !a.clearAllCharacters && !a.demoteCharacter
    ensures BackedOff(db.chars, Apply(db, keyID, charID, code, a, demoteOk).chars, keyID, charID, code,
      if a.updateCacheTime then a.cacheUntil else 0)
  {
    assert Prune(db.chars, keyID, charID, a, demoteOk) == db.chars;
  }

  /** An eviction without backoff or demotion leaves exactly the rows of the other keys. */
  lemma ApplyEviction(db: Db, keyID: int, charID: int, code: int, a: Action, demoteOk: bool)
    requires a.clearAllCharacters && !a.updateCacheTime && !a.demoteCharacter
    ensures WithoutKey(db.chars, Apply(db, keyID, charID, code, a, demoteOk).chars, keyID)
  {
    var pruned := Prune(db.chars, keyID, charID, a, demoteOk);
    var c2 := if a.clearCharacter && charID != 0 then DeleteCharacter(db.chars, keyID, charID) else db.chars;
    assert pruned == DeleteKeyCharacters(c2, keyID);
    assert WriteBackoff(pruned, charID, a) == pruned;
    assert RecordError(pruned, keyID, charID, code) == pruned;
  }

  /** Clearing one character, and nothing else, leaves every row but (keyID, charID). */
  lemma ApplyCharacterClear(db: Db, keyID: int, charID: int, code: int, a: Action, demoteOk: bool)
    requires charID != 0 && !a.clearAllCharacters && !a.updateCacheTime
    requires (a.clearCharacter && !a.demoteCharacter) || (a.demoteCharacter && !demoteOk)
    ensures WithoutCharacter(db.chars, Apply(db, keyID, charID, code, a, demoteOk).chars, keyID, charID)
  {
    var pruned := Prune(db.chars, keyID, charID, a, demoteOk);
    assert pruned == DeleteCharacter(db.chars, keyID, charID);
    assert WriteBackoff(pruned, charID, a) == pruned;
    assert RecordError(pruned, keyID, charID, code) == pruned;
  }

  /**
   * Service-unavailable codes (403, 502, 503) back the character off for
   * five minutes; the key, the stop marker and every other column stay.
   */
  lemma ServiceUnavailableBacksOff(db: Db, keyID: int, charID: int, e: RemoteException, now: int, demoteOk: bool)
    requires e.code == 403 || e.code == 502 || e.code == 503
    ensures var r := HandleApiException(db, keyID, charID, e, now, demoteOk);
      && r.keys == db.keys && r.apiStop == db.apiStop
      && BackedOff(db.chars, r.chars, keyID, charID, e.code, now + FiveMinutes)
  {
    assert Classify(e.code, now, e.cachedUntil) == Backoff(now + FiveMinutes);
    ApplyWithoutDeletion(db, keyID, charID, e.code, Backoff(now + FiveMinutes), demoteOk);
  }

  /** Remote-side failures (500, 520, 404, 902) back the character off for an hour. */
  lemma ServerErrorBacksOff(db: Db, keyID: int, charID: int, e: RemoteException, now: int, demoteOk: bool)
    requires e.code == 500 || e.code == 520 || e.code == 404 || e.code == 902
    ensures var r := HandleApiException(db, keyID, charID, e, now, demoteOk);
      && r.keys == db.keys && r.apiStop == db.apiStop
      && BackedOff(db.chars, r.chars, keyID, charID, e.code, now + OneHour)
  {
    assert Classify(e.code, now, e.cachedUntil) == Backoff(now + OneHour);
    ApplyWithoutDeletion(db, keyID, charID, e.code, Backoff(now + OneHour), demoteOk);
  }

  /**
   * 119 and 120 back off to the error's own `cached_until`, verbatim; a
   * zero hint writes no backoff at all.
   */
  lemma KillsExhaustedUsesHint(db: Db, keyID: int, charID: int, e: RemoteException, now: int, demoteOk: bool)
    requires e.code == 119 || e.code == 120
    ensures var r := HandleApiException(db, keyID, charID, e, now, demoteOk);
      && r.keys == db.keys && r.apiStop == db.apiStop
      && BackedOff(db.chars, r.chars, keyID, charID, e.code, e.cachedUntil)
  {
    assert Classify(e.code, now, e.cachedUntil) == Backoff(e.cachedUntil);
    ApplyWithoutDeletion(db, keyID, charID, e.code, Backoff(e.cachedUntil), demoteOk);
  }

  /**
   * Authentication, scope and account-status codes delete every character
   * of the key and mark the key; for 222 the week-long backoff is not
   * written, so no other row changes.
   */
  lemma EvictionCodesClearKey(db: Db, keyID: int, charID: int, e: RemoteException, now: int, demoteOk: bool)
    requires e.code in EvictionCodes
    ensures var r := HandleApiException(db, keyID, charID, e, now, demoteOk);
      && KeyMarked(db.keys, r.keys, keyID, e.code)
      && r.apiStop == db.apiStop
      && WithoutKey(db.chars, r.chars, keyID)
  {
    var a := Classify(e.code, now, e.cachedUntil);
    assert a == Evict || a == Evict.(cacheUntil := now + OneWeek);
    ApplyEviction(db, keyID, charID, e.code, a, demoteOk);
  }

  /**
   * 201 and 522 (character no longer on the account) delete only the
   * (keyID, charID) row; with no character (charID 0) nothing is deleted
   * and only the error code is recorded.
   */
  lemma TransferredCharacterDropped(db: Db, keyID: int, charID: int, e: RemoteException, now: int, demoteOk: bool)
    requires e.code == 201 || e.code == 522
    ensures var r := HandleApiException(db, keyID, charID, e, now, demoteOk);
      && r.keys == db.keys && r.apiStop == db.apiStop
      && (charID != 0 ==> WithoutCharacter(db.chars, r.chars, keyID, charID))
      && (charID == 0 ==> OnlyErrorRecorded(db.chars, r.chars, keyID, charID, e.code))
  {
    var a := Classify(e.code, now, e.cachedUntil);
    assert a == NoAction.(clearCharacter := true);
    if charID != 0 {
      ApplyCharacterClear(db, keyID, charID, e.code, a, demoteOk);
    } else {
      assert Prune(db.chars, keyID, charID, a, demoteOk) == db.chars;
    }
  }

  /**
   * 207 and 209 demote the character (under every key) and record the
   * code; when the demotion write fails the (keyID, charID) row is deleted
   * instead; with no character only the code is recorded.
   */
  lemma DemotionCodes(db: Db, keyID: int, charID: int, e: RemoteException, now: int, demoteOk: bool)
    requires e.code == 207 || e.code == 209
    ensures var r := HandleApiException(db, keyID, charID, e, now, demoteOk);
      && r.keys == db.keys && r.apiStop == db.apiStop
      && (charID != 0 && demoteOk ==>
        && r.chars.Keys == db.chars.Keys
        && forall id | id in db.chars ::
          r.chars[id] == db.chars[id].(
            isDirector := if db.chars[id].characterID == charID then NotDirector else db.chars[id].isDirector,
            errorCode := if db.chars[id].keyID == keyID && db.chars[id].characterID == charID
              then e.code else db.chars[id].errorCode))
      && (charID != 0 && !demoteOk ==>
        WithoutCharacter(db.chars, r.chars, keyID, charID))
      && (charID == 0 ==> OnlyErrorRecorded(db.chars, r.chars, keyID, charID, e.code))
  {
    var a := Classify(e.code, now, e.cachedUntil);
    assert a == NoAction.(demoteCharacter := true);
    if charID != 0 && !demoteOk {
      ApplyCharacterClear(db, keyID, charID, e.code, a, demoteOk);
    } else if charID != 0 {
      assert Prune(db.chars, keyID, charID, a, demoteOk) == Demote(db.chars, charID);
    } else {
      assert Prune(db.chars, keyID, charID, a, demoteOk) == db.chars;
    }
  }

  /**
   * Timeouts (28) and temporary bans (904) refresh the global stop marker
   * to five minutes from now and otherwise only record the code.
   */
  lemma GlobalStopCodes(db: Db, keyID: int, charID: int, e: RemoteException, now: int, demoteOk: bool)
    requires e.code == 28 || e.code == 904
    ensures var r := HandleApiException(db, keyID, charID, e, now, demoteOk);
      && r.keys == db.keys && r.apiStop == Some(now + FiveMinutes)
      && OnlyErrorRecorded(db.chars, r.chars, keyID, charID, e.code)
  {
    var a := Classify(e.code, now, e.cachedUntil);
    assert a == NoAction.(stopUntil := Some(now + FiveMinutes));
    ApplyWithoutDeletion(db, keyID, charID, e.code, a, demoteOk);
  }

  /**
   * Code 0 (unparseable response) and every code the switch does not list
   * only mark the key and record the code; no character is removed.
   */
  lemma UnknownCodesMarkKey(db: Db, keyID: int, charID: int, e: RemoteException, now: int, demoteOk: bool)
    requires e.code !in ListedCodes
    ensures var r := HandleApiException(db, keyID, charID, e, now, demoteOk);
      && KeyMarked(db.keys, r.keys, keyID, e.code) && r.apiStop == db.apiStop
      && OnlyErrorRecorded(db.chars, r.chars, keyID, charID, e.code)
  {
    var a := Classify(e.code, now, e.cachedUntil);
    assert a == NoAction.(clearApiEntry := true);
    ApplyWithoutDeletion(db, keyID, charID, e.code, a, demoteOk);
  }
}
