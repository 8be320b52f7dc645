/**
 * The shard assignment of `Api::fetchApis`: drop half-validated character
 * rows, read the shard count, reset every `modulus` when the count is not
 * the largest one assigned plus one, fill the unassigned ones from
 * `apiRowID`, and request one fetch worker per shard. The process spawning
 * and its `flock` are left out; the launches are returned as a list.
 */
module FetchScheduler {
  import opened Wrappers
  import opened Php
  import opened Store

  const DefaultFetchesPerSecond := 30

  /** A launch request for the worker of shard `index` out of `count`. */
  datatype Launch = Launch(index: int, count: int)

  /** The configured shard count, cast to an integer; 30 when nothing is configured. */
  function FetchesPerSecond(configured: Option<string>): (fps: int)
    ensures configured.None? ==> fps == DefaultFetchesPerSecond
    ensures configured.Some? ==> fps == IntCast(configured.value)
    ensures IntMin <= fps <= IntMax
  {
    match configured
    case None => DefaultFetchesPerSecond
    case Some(v) => IntCast(v)
  }

  /** Drops the character rows whose director check never completed. */
  function Cleanup(chars: Characters): (r: Characters)
    ensures forall id :: id in r <==> id in chars && chars[id].isDirector != Unset
    ensures forall id | id in r :: r[id] == chars[id]
  {
    map id | id in chars && chars[id].isDirector != Unset :: chars[id]
  }

  /** The non-NULL `modulus` values of the table. */
  function Moduli(chars: Characters): set<int> {
    set id | id in chars && chars[id].modulus.Some? :: chars[id].modulus.value
  }

  /** A non-empty set has an element. */
  lemma NonEmptyHasElement(s: set<int>)
    requires s != {}
    ensures exists y :: y in s
  {
    if forall y :: y !in s {
      assert false;
    }
  }

  lemma {:induction false} MaxExists(s: set<int>)
    requires s != {}
    ensures exists m :: m in s && forall x | x in s :: x <= m
  {
    NonEmptyHasElement(s);
    var y :| y in s;
    var w := y;
    if s - {y} != {} {
      MaxExists(s - {y});
      var m :| m in s - {y} && forall x | x in s - {y} :: x <= m;
      w := if m < y then y else m;
    }
    assert forall x | x in s - {y} :: x <= w;
    assert forall x | x in s :: x == y || x in s - {y};
  }

  /** The largest element of a non-empty finite set. */
  function SetMax(s: set<int>): (m: int)
    requires s != {}
    ensures m in s && forall x | x in s :: x <= m
  {
    MaxExists(s);
    var m :| m in s && forall x | x in s :: x <= m;
    m
  }

  /** The largest assigned modulus of the table; none when no row has one, as SQL's MAX gives NULL. */
  function MaxModulus(chars: Characters): (r: Option<int>)
    ensures r.None? <==> forall id | id in chars :: chars[id].modulus.None?
    ensures r.Some? ==> exists id | id in chars :: chars[id].modulus == r
    ensures r.Some? ==> forall id | id in chars && chars[id].modulus.Some? :: chars[id].modulus.value <= r.value
  {
    var s := Moduli(chars);
    assert forall id | id in chars && chars[id].modulus.Some? :: chars[id].modulus.value in s;
    if s == {} then
      None
    else
      var m := SetMax(s);
      Some(m)
  }

  /**
   * The reset test of `fetchApis`: the largest modulus plus one is not
   * `fps` (PHP reads a NULL maximum as 0 in the addition). It stands in
   * for "the shard count changed" but is not the same thing: a new count
   * can pass it (ShardTestMissesChange) and an unchanged one can fail it
   * once rows are deleted (ShardTestResetsUnchangedCount). Either way
   * every row ends in one of the `fps` shards (AssignModulusInRange).
   */
  function ShardCountChanged(chars: Characters, fps: int): (changed: bool)
    ensures !changed <==>
      || ((forall id | id in chars :: chars[id].modulus.None?) && fps == 1)
      || ((exists id | id in chars :: chars[id].modulus == Some(fps - 1))
          && forall id | id in chars && chars[id].modulus.Some? :: chars[id].modulus.value < fps)
  {
    MaxModulus(chars).GetOr(0) + 1 != fps
  }

  /**
   * MySQL's `a % n`: NULL when `n` is 0, otherwise the remainder of the
   * division truncated toward zero, which has the sign of `a`.
   */
  function SqlMod(a: int, n: int): (r: Option<int>)
    ensures n == 0 <==> r.None?
    ensures n > 0 && a >= 0 ==> r == Some(a % n)
    ensures n != 0 && a >= 0 ==> 0 <= r.value < if n > 0 then n else -n
    ensures n != 0 && a < 0 ==> -(if n > 0 then n else -n) < r.value <= 0
  {
    if n == 0 then None
    else
      var m := if n > 0 then n else -n;
      if a >= 0 then Some(a % m) else Some(-((-a) % m))
  }

  /**
   * The modulus updates of `fetchApis` (after the cleanup): when the reset
   * test fires every modulus is set to NULL, then every NULL modulus
   * becomes `apiRowID % fps`. Nothing but the modulus changes, and when
   * the test does not fire every assigned modulus is kept.
   */
  function AssignModulus(chars: Characters, fps: int): (r: Characters)
    ensures forall id :: id in r <==> id in chars && chars[id].isDirector != Unset
    ensures forall id | id in r :: r[id] == chars[id].(modulus := r[id].modulus)
    ensures !ShardCountChanged(Cleanup(chars), fps) ==>
      forall id | id in r && chars[id].modulus.Some? :: r[id].modulus == chars[id].modulus
    ensures forall id | id in r && (ShardCountChanged(Cleanup(chars), fps) || chars[id].modulus.None?) ::
      r[id].modulus == SqlMod(id, fps)
  {
    var cleaned := Cleanup(chars);
    var reset := if ShardCountChanged(cleaned, fps)
      then map id | id in cleaned :: cleaned[id].(modulus := None)
      else cleaned;
    map id | id in reset ::
      if reset[id].modulus.None? then reset[id].(modulus := SqlMod(id, fps)) else reset[id]
  }

  /** The launch loop: one request per shard index `0 .. fps - 1`. */
  function Launches(fps: int): (r: seq<Launch>)
    ensures |r| == if fps > 0 then fps else 0
  {
    seq(if fps > 0 then fps else 0, i => Launch(i, fps))
  }

  /**
   * One run of the scheduler without the process spawning: the new table
   * and the launch requests, both for the configured shard count. The rows
   * that survive are exactly the checked ones.
   */
  function FetchApis(chars: Characters, configured: Option<string>): (r: (Characters, seq<Launch>))
    ensures r == (AssignModulus(chars, FetchesPerSecond(configured)), Launches(FetchesPerSecond(configured)))
    ensures forall id :: id in r.0 <==> id in chars && chars[id].isDirector != Unset
    ensures |r.1| == if FetchesPerSecond(configured) > 0 then FetchesPerSecond(configured) else 0
  {
    var fps := FetchesPerSecond(configured);
    (AssignModulus(chars, fps), Launches(fps))
  }

  /** Row ids are non-negative and no assigned modulus is negative. */
  predicate NonNegative(chars: Characters) {
    forall id | id in chars :: id >= 0 && (chars[id].modulus.Some? ==> chars[id].modulus.value >= 0)
  }

  /** Every row has a modulus, and it is a shard index below `fps`. */
  predicate InRange(chars: Characters, fps: int) {
    forall id | id in chars :: chars[id].modulus.Some? && 0 <= chars[id].modulus.value < fps
  }

  /**
   * After a cycle with a positive shard count every surviving row belongs
   * to one of the `fps` shards, whatever the previous count was.
   */
  lemma AssignModulusInRange(chars: Characters, fps: int)
    requires fps > 0 && NonNegative(chars)
    ensures InRange(AssignModulus(chars, fps), fps)
  {
    var cleaned := Cleanup(chars);
    var r := AssignModulus(chars, fps);
    if !ShardCountChanged(cleaned, fps) {
      var mx := MaxModulus(cleaned);
      forall id | id in r
        ensures r[id].modulus.Some? && 0 <= r[id].modulus.value < fps
      {
        if chars[id].modulus.Some? {
          assert cleaned[id].modulus.Some?;
          assert mx.Some? && chars[id].modulus.value <= mx.value;
        }
      }
    }
  }

  /**
   * Every surviving row's shard gets a worker: its modulus is the index of
   * one of the launch requests.
   */
  lemma EveryShardLaunched(chars: Characters, configured: Option<string>)
    requires FetchesPerSecond(configured) > 0 && NonNegative(chars)
    ensures var (r, launches) := FetchApis(chars, configured);
      forall id | id in r :: Launch(r[id].modulus.value, FetchesPerSecond(configured)) in launches
  {
    var fps := FetchesPerSecond(configured);
    var r := AssignModulus(chars, fps);
    var launches := Launches(fps);
    AssignModulusInRange(chars, fps);
    forall id | id in r
      ensures Launch(r[id].modulus.value, fps) in launches
    {
      assert launches[r[id].modulus.value] == Launch(r[id].modulus.value, fps);
    }
  }

  /** The launch requests name each shard index `0 .. fps - 1` exactly once. */
  lemma LaunchesDistinct(fps: int)
    ensures forall i, j | 0 <= i < j < |Launches(fps)| :: Launches(fps)[i].index != Launches(fps)[j].index
    ensures forall l | l in Launches(fps) :: 0 <= l.index < fps && l.count == fps
    ensures forall i | 0 <= i < fps :: Launch(i, fps) in Launches(fps)
  {
    forall i | 0 <= i < fps
      ensures Launch(i, fps) in Launches(fps)
    {
      assert Launches(fps)[i] == Launch(i, fps);
    }
  }

  /** No row is waiting for its director check. */
  predicate NoUnsetRows(chars: Characters) {
    forall id | id in chars :: chars[id].isDirector != Unset
  }

  /** The cleanup removes nothing from a table with no unchecked rows. */
  lemma CleanupKeepsCheckedRows(t: Characters)
    requires NoUnsetRows(t)
    ensures Cleanup(t) == t
  {
    assert forall id :: id in Cleanup(t) <==> id in t;
  }

  /** A cycle that needs no reset over a table whose rows all have a modulus changes nothing. */
  lemma StableWithoutReset(t: Characters, fps: int)
    requires NoUnsetRows(t) && InRange(t, fps) && !ShardCountChanged(t, fps)
    ensures AssignModulus(t, fps) == t
  {
    CleanupKeepsCheckedRows(t);
    var r := AssignModulus(t, fps);
    assert forall id | id in r :: r[id] == t[id];
  }

  /** A cycle over a table whose moduli are already `apiRowID % fps` changes nothing. */
  lemma StableAfterReset(t: Characters, fps: int)
    requires NoUnsetRows(t) && forall id | id in t :: t[id].modulus == SqlMod(id, fps)
    ensures AssignModulus(t, fps) == t
  {
    CleanupKeepsCheckedRows(t);
    var r := AssignModulus(t, fps);
    var reset := ShardCountChanged(t, fps);
    forall id | id in r
      ensures r[id] == t[id]
    {
      if reset || t[id].modulus.None? {
        assert r[id].modulus == SqlMod(id, fps);
      } else {
        assert r[id].modulus == t[id].modulus;
      }
    }
  }

  /**
   * Modulus stability: a second cycle with the same shard count changes
   * nothing, whether or not the first one had to reset the moduli.
   */
  lemma AssignModulusIdempotent(chars: Characters, fps: int)
    requires NonNegative(chars)
    ensures AssignModulus(AssignModulus(chars, fps), fps) == AssignModulus(chars, fps)
  {
    var r1 := AssignModulus(chars, fps);
    assert NoUnsetRows(r1);
    if ShardCountChanged(Cleanup(chars), fps) {
      StableAfterReset(r1, fps);
    } else {
      UnchangedCountIsPositive(chars, fps);
      AssignModulusInRange(chars, fps);
      SameShardCountKept(chars, fps);
      StableWithoutReset(r1, fps);
    }
  }

  /**
   * With no negative modulus the largest one plus one is at least 1, so a
   * zero or negative shard count is always a change and resets every row.
   */
  lemma UnchangedCountIsPositive(chars: Characters, fps: int)
    requires NonNegative(chars) && !ShardCountChanged(Cleanup(chars), fps)
    ensures fps > 0
  {
    var cleaned := Cleanup(chars);
    var mx := MaxModulus(cleaned);
    if mx.Some? {
      var id :| id in cleaned && cleaned[id].modulus == mx;
      assert chars[id].modulus == mx;
    }
  }

  /**
   * When the reset test did not fire, the largest modulus after the
   * cycle is still `fps - 1`, so the next cycle with the same `fps` does
   * not fire it either.
   */
  lemma SameShardCountKept(chars: Characters, fps: int)
    requires fps > 0 && NonNegative(chars)
    requires !ShardCountChanged(Cleanup(chars), fps)
    ensures !ShardCountChanged(AssignModulus(chars, fps), fps)
  {
    var cleaned := Cleanup(chars);
    var r1 := AssignModulus(chars, fps);
    AssignModulusInRange(chars, fps);
    var mx := MaxModulus(cleaned);
    if mx.Some? {
      var id :| id in cleaned && cleaned[id].modulus == mx;
      assert r1[id].modulus == mx;
      assert MaxModulus(r1).Some? && MaxModulus(r1).value >= mx.value;
    } else if r1 != map[] {
      var id :| id in r1;
      assert fps == 1;
      assert MaxModulus(r1).Some?;
    }
  }

  /** A checked row with modulus `m`, for the worked cases below. */
  function RowWithModulus(m: int): CharRow {
    CharRow(1, 1, NotDirector, 0, 0, Some(m))
  }

  /** The largest modulus of rows 40 and 52 holding 10 and 22. */
  lemma TwoRowMax()
    ensures MaxModulus(map[40 := RowWithModulus(10), 52 := RowWithModulus(22)]) == Some(22)
  {
    var t := map[40 := RowWithModulus(10), 52 := RowWithModulus(22)];
    var mx := MaxModulus(t);
    assert t[52].modulus == Some(22);
    assert mx.Some? && mx.value >= 22;
    var id :| id in t && t[id].modulus == mx;
    assert id == 40 || id == 52;
  }

  /**
   * The test misses a change of count: rows 40 and 52, assigned for 30
   * shards, hold 10 and 22; at 23 shards the largest modulus plus one is
   * 23, so nothing is redistributed and row 40 keeps 10, not 40 % 23 = 17.
   */
  lemma ShardTestMissesChange()
    ensures var t := map[40 := RowWithModulus(10), 52 := RowWithModulus(22)];
      && AssignModulus(t, 30) == t
      && AssignModulus(t, 23) == t
      && SqlMod(40, 23) == Some(17) != t[40].modulus
  {
    TwoRowsAssignedForThirty();
    TwoRowsKeptForTwentyThree();
  }

  /** At 23 shards the two rows count as unchanged and keep their moduli. */
  lemma TwoRowsKeptForTwentyThree()
    ensures var t := map[40 := RowWithModulus(10), 52 := RowWithModulus(22)];
      AssignModulus(t, 23) == t
  {
    var t := map[40 := RowWithModulus(10), 52 := RowWithModulus(22)];
    TwoRowMax();
    assert NoUnsetRows(t) && InRange(t, 23);
    StableWithoutReset(t, 23);
  }

  /** Rows 40 and 52 with moduli 10 and 22 are what a cycle with 30 shards leaves. */
  lemma TwoRowsAssignedForThirty()
    ensures var t := map[40 := RowWithModulus(10), 52 := RowWithModulus(22)];
      AssignModulus(t, 30) == t
  {
    var t := map[40 := RowWithModulus(10), 52 := RowWithModulus(22)];
    assert SqlMod(40, 30) == Some(10) && SqlMod(52, 30) == Some(22);
    StableAfterReset(t, 30);
  }

  /**
   * The test fires without a change of count: with 23 shards as before,
   * once row 52 is deleted the largest modulus plus one is 11, so the
   * next cycle resets every row and row 40 moves from 10 to 17.
   */
  lemma ShardTestResetsUnchangedCount()
    ensures !ShardCountChanged(map[40 := RowWithModulus(10), 52 := RowWithModulus(22)], 23)
    ensures ShardCountChanged(map[40 := RowWithModulus(10)], 23)
    ensures AssignModulus(map[40 := RowWithModulus(10)], 23)[40].modulus == Some(17)
  {
    TwoRowMax();
    var t := map[40 := RowWithModulus(10)];
    CleanupKeepsCheckedRows(t);
    var mx := MaxModulus(t);
    assert t[40].modulus.Some?;
    assert mx.Some?;
    var id :| id in t && t[id].modulus == mx;
    assert mx == Some(10);
  }
}

