/**
 * The switch of `Api::handleApiException`: from the numeric code of a
 * remote API error to the set of mutations the handler will attempt.
 * Classification does no I/O; the current time and the error's
 * `cached_until` hint are parameters.
 */
module ErrorClassifier {
  import opened Wrappers

  /**
   * The flags the switch sets. `cacheUntil` is the backoff time the switch
   * computed (0 when none), which is written only when `updateCacheTime` is
   * also set. `stopUntil` is the new `ApiStop904` marker, if the branch
   * writes one.
   */
  datatype Action = Action(
    clearCharacter: bool,
    clearAllCharacters: bool,
    clearApiEntry: bool,
    updateCacheTime: bool,
    demoteCharacter: bool,
    cacheUntil: int,
    stopUntil: Option<int>)

  const NoAction := Action(false, false, false, false, false, 0, None)

  const FiveMinutes := 300
  const OneHour := 3600
  const OneWeek := 7 * 24 * 3600

  /** Every code the switch names in a `case` other than `case 0`. */
  const ListedCodes: set<int> := {
    28, 904, 403, 502, 503, 119, 120, 221, 220, 200, 522, 201, 207, 209, 222,
    211, 202, 203, 204, 205, 210, 521, 500, 520, 404, 902 }

  /** Codes that evict every character of the key and mark the key. */
  const EvictionCodes: set<int> := {200, 220, 221, 211, 202, 203, 204, 205, 210, 521, 222}

  function Backoff(until: int): Action {
    NoAction.(updateCacheTime := true, cacheUntil := until)
  }

  const Evict := NoAction.(clearAllCharacters := true, clearApiEntry := true)

  /** How many of the mutually exclusive kinds of effect an action asks for. */
  function EffectCount(a: Action): nat {
    (if a.clearCharacter then 1 else 0)
    + (if a.demoteCharacter then 1 else 0)
    + (if a.clearAllCharacters then 1 else 0)
    + (if a.updateCacheTime then 1 else 0)
    + (if a.stopUntil.Some? then 1 else 0)
  }

  /**
   * The switch, branch by branch in source order. PHP's `switch` compares
   * with `==` and takes the first matching `case`, so the second `case 403`
   * (in the branch with 211) can never be reached: 403 is caught by the
   * earlier 403/502/503 branch.
   */
  function Classify(code: int, now: int, hint: int): (a: Action)
    ensures EffectCount(a) <= 1
    ensures a.clearAllCharacters ==> a.clearApiEntry
    ensures a.updateCacheTime ==> !a.clearApiEntry
    ensures a.updateCacheTime && code != 119 && code != 120 ==> a.cacheUntil > now
    ensures a.stopUntil.Some? ==> a.stopUntil.value == now + FiveMinutes
    ensures code !in ListedCodes ==> a == NoAction.(clearApiEntry := true)
  {
    if code == 28 || code == 904 then
      NoAction.(stopUntil := Some(now + FiveMinutes))
    else if code == 403 || code == 502 || code == 503 then
      Backoff(now + FiveMinutes)
    else if code == 119 then
      Backoff(hint)
    else if code == 120 then
      Backoff(hint)
    else if code == 221 then
      Evict
    else if code == 220 || code == 200 then
      Evict
    else if code == 522 || code == 201 then
      NoAction.(clearCharacter := true)
    else if code == 207 || code == 209 then
      NoAction.(demoteCharacter := true)
    else if code == 222 then
      Evict.(cacheUntil := now + OneWeek)
    else if code == 403 || code == 211 then
      Evict
    else if code == 202 || code == 203 || code == 204 || code == 205 || code == 210 || code == 521 then
      Evict
    else if code == 500 || code == 520 || code == 404 || code == 902 then
      Backoff(now + OneHour)
    else
      NoAction.(clearApiEntry := true)
  }

  /**
   * 403 is classified like 502 and 503, a five-minute backoff; the later
   * `case 403` beside 211 never applies, so 403 never evicts the key.
   */
  lemma Code403TakesFirstCase(now: int, hint: int)
    ensures Classify(403, now, hint) == Backoff(now + FiveMinutes)
    ensures Classify(403, now, hint) != Classify(211, now, hint)
  {
  }

  /**
   * Code 222 computes a one-week `cacheUntil` but does not set
   * `updateCacheTime`, so the week is never written.
   */
  lemma AccountExpiredWeekIsNotApplied(now: int, hint: int)
    ensures Classify(222, now, hint).cacheUntil == now + OneWeek
    ensures !Classify(222, now, hint).updateCacheTime
  {
  }

  /** Every eviction code asks for exactly an eviction and a key mark. */
  lemma EvictionCodesEvict(code: int, now: int, hint: int)
    requires code in EvictionCodes
    ensures var a := Classify(code, now, hint);
      a.clearAllCharacters && a.clearApiEntry && EffectCount(a) == 1
  {
  }
}
