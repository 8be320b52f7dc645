/**
 * `Api::processRawApi`: store the kills of one KillLog reply in the raw
 * killmail table, skipping every killID the table already holds, and count
 * the rows added. The table is a map from killID (its primary key) to the
 * stored row; the loop runs in reply order, so a killID that appears twice
 * in one reply is stored from its first occurrence.
 */
module KillmailIngester {
  /**
   * One kill of the KillLog reply as the loop sees it: its killID, the hash
   * `Util::getKillHash` computes for it and its JSON encoding. Hashing and
   * encoding are outside this model and taken as given.
   */
  datatype Kill = Kill(killID: int, hash: string, json: string)

  /** A row of `zz_killmails` without its key: hash, source and kill JSON. */
  datatype KillmailRow = KillmailRow(hash: string, source: string, json: string)

  type Killmails = map<int, KillmailRow>

  /** The `source` column: the key the kill was fetched with. */
  function Source(keyID: string): string {
    "keyID:" + keyID
  }

  function Row(keyID: string, k: Kill): KillmailRow {
    KillmailRow(k.hash, Source(keyID), k.json)
  }

  /** The killIDs of a reply. */
  function KillIDs(kills: seq<Kill>): set<int> {
    if kills == [] then {} else {kills[0].killID} + KillIDs(kills[1..])
  }

  /** `KillIDs` holds exactly the killIDs that occur in the reply. */
  lemma {:induction false} KillIDsMembers(kills: seq<Kill>)
    ensures forall i | 0 <= i < |kills| :: kills[i].killID in KillIDs(kills)
    ensures forall id | id in KillIDs(kills) :: exists i | 0 <= i < |kills| :: kills[i].killID == id
  {
    if kills != [] {
      KillIDsMembers(kills[1..]);
      assert forall i | 1 <= i < |kills| :: kills[i] == kills[1..][i - 1];
      forall id | id in KillIDs(kills)
        ensures exists i | 0 <= i < |kills| :: kills[i].killID == id
      {
        if id != kills[0].killID {
          var j :| 0 <= j < |kills[1..]| && kills[1..][j].killID == id;
          assert kills[j + 1].killID == id;
        }
      }
    }
  }

  /** The position of the first kill with this killID. */
  function FirstIndex(kills: seq<Kill>, id: int): (i: nat)
    requires id in KillIDs(kills)
    ensures i < |kills| && kills[i].killID == id
    ensures forall j | 0 <= j < i :: kills[j].killID != id
  {
    if kills[0].killID == id then 0 else 1 + FirstIndex(kills[1..], id)
  }

  /**
   * The loop of `processRawApi`. A kill whose killID is already in the
   * table is skipped (the `count(1)` probe); otherwise its row is inserted
   * and counted. The table after the loop holds the old rows unchanged and
   * one new row for each new killID (`IngestStoresFirstOccurrence` says
   * which); `IngestCountsNewKills` says what the count is.
   */
  function Ingest(db: Killmails, keyID: string, kills: seq<Kill>): (r: (Killmails, nat))
    ensures r.0.Keys == db.Keys + KillIDs(kills)
    ensures forall id | id in db :: r.0[id] == db[id]
    decreases |kills|
  {
    if kills == [] then (db, 0)
    else
      var k := kills[0];
      assert KillIDs(kills) == {k.killID} + KillIDs(kills[1..]);
      if k.killID in db then
        Ingest(db, keyID, kills[1..])
      else
        var r := Ingest(db[k.killID := Row(keyID, k)], keyID, kills[1..]);
        (r.0, r.1 + 1)
  }

  /** Skipping the first kill of a reply does not move the first occurrence of another killID. */
  lemma FirstIndexTail(kills: seq<Kill>, id: int)
    requires id in KillIDs(kills) && kills[0].killID != id
    ensures id in KillIDs(kills[1..])
    ensures kills[FirstIndex(kills, id)] == kills[1..][FirstIndex(kills[1..], id)]
  {
  }

  /**
   * Every new row is the row of the first kill in the reply with that
   * killID, stored with the source of the key that fetched the reply.
   */
  lemma {:induction false} IngestStoresFirstOccurrence(db: Killmails, keyID: string, kills: seq<Kill>)
    ensures var after := Ingest(db, keyID, kills).0;
      forall id | id in after && id !in db :: after[id] == Row(keyID, kills[FirstIndex(kills, id)])
    decreases |kills|
  {
    if kills != [] {
      var k := kills[0];
      var next := if k.killID in db then db else db[k.killID := Row(keyID, k)];
      IngestStoresFirstOccurrence(next, keyID, kills[1..]);
      var after := Ingest(db, keyID, kills).0;
      assert after == Ingest(next, keyID, kills[1..]).0;
      forall id | id in after && id !in db
        ensures after[id] == Row(keyID, kills[FirstIndex(kills, id)])
      {
        if id != k.killID {
          FirstIndexTail(kills, id);
        }
      }
    }
  }

  /** Set arithmetic for a first killID the table already holds. */
  lemma NewIdsWhenPresent(ids: set<int>, rest: set<int>, keys: set<int>, k: int)
    requires ids == {k} + rest && k in keys
    ensures ids - keys == rest - keys
  {
  }

  /** Set arithmetic for a first killID the table does not hold: it is one more new id. */
  lemma NewIdsWhenAbsent(ids: set<int>, rest: set<int>, keys: set<int>, grown: set<int>, k: int)
    requires ids == {k} + rest && k !in keys && grown == keys + {k}
    ensures |ids - keys| == |rest - grown| + 1
  {
    assert ids - keys == (rest - grown) + {k};
  }

  /**
   * The count `processRawApi` returns is the number of distinct killIDs of
   * the reply that the table did not hold.
   */
  lemma {:induction false} IngestCountsNewKills(db: Killmails, keyID: string, kills: seq<Kill>)
    ensures Ingest(db, keyID, kills).1 == |KillIDs(kills) - db.Keys|
    decreases |kills|, 1
  {
    if kills != [] {
      if kills[0].killID in db {
        CountSkipsPresentKill(db, keyID, kills);
      } else {
        CountAddsAbsentKill(db, keyID, kills);
      }
    }
  }

  /** The induction step of `IngestCountsNewKills` for a first kill already stored. */
  lemma {:induction false} CountSkipsPresentKill(db: Killmails, keyID: string, kills: seq<Kill>)
    requires kills != [] && kills[0].killID in db
    ensures Ingest(db, keyID, kills).1 == |KillIDs(kills) - db.Keys|
    decreases |kills|, 0
  {
    var rest := kills[1..];
    assert Ingest(db, keyID, kills) == Ingest(db, keyID, rest);
    IngestCountsNewKills(db, keyID, rest);
    NewIdsWhenPresent(KillIDs(kills), KillIDs(rest), db.Keys, kills[0].killID);
  }

  /** The induction step of `IngestCountsNewKills` for a first kill not yet stored. */
  lemma {:induction false} CountAddsAbsentKill(db: Killmails, keyID: string, kills: seq<Kill>)
    requires kills != [] && kills[0].killID !in db
    ensures Ingest(db, keyID, kills).1 == |KillIDs(kills) - db.Keys|
    decreases |kills|, 0
  {
    var k := kills[0].killID;
    var next := db[k := Row(keyID, kills[0])];
    assert Ingest(db, keyID, kills).1 == Ingest(next, keyID, kills[1..]).1 + 1;
    assert KillIDs(kills) == {k} + KillIDs(kills[1..]);
    assert next.Keys == db.Keys + {k};
    IngestCountsNewKills(next, keyID, kills[1..]);
    NewIdsWhenAbsent(KillIDs(kills), KillIDs(kills[1..]), db.Keys, next.Keys, k);
  }

  /** The count is the number of rows the table grew by. */
  lemma IngestCountsAddedRows(db: Killmails, keyID: string, kills: seq<Kill>)
    ensures |db| + Ingest(db, keyID, kills).1 == |Ingest(db, keyID, kills).0|
  {
    var after := Ingest(db, keyID, kills).0;
    var added := KillIDs(kills) - db.Keys;
    IngestCountsNewKills(db, keyID, kills);
    assert after.Keys == db.Keys + added;
    assert db.Keys * added == {};
    assert |after.Keys| == |after|;
    assert |db.Keys| == |db|;
  }

  /** A reply whose killIDs are all stored already leaves the table as it is and adds nothing. */
  lemma PresentKillsChangeNothing(db: Killmails, keyID: string, kills: seq<Kill>)
    requires KillIDs(kills) <= db.Keys
    ensures Ingest(db, keyID, kills) == (db, 0)
  {
    var (after, added) := Ingest(db, keyID, kills);
    assert after.Keys == db.Keys;
    assert after == db;
  }

  /**
   * Idempotent ingest: replaying a reply, fetched with the same key or any
   * other, changes no row and adds nothing, so each killmail keeps the
   * source of the key that fetched it first.
   */
  lemma IngestIdempotent(db: Killmails, keyID: string, otherKeyID: string, kills: seq<Kill>)
    ensures var once := Ingest(db, keyID, kills).0;
      Ingest(once, otherKeyID, kills) == (once, 0)
  {
    PresentKillsChangeNothing(Ingest(db, keyID, kills).0, otherKeyID, kills);
  }
}
