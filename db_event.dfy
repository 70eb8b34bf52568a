/** The append-only `events` log of internal/db/event.go, as a function on the
    database value. */
module EventLog {
  import opened Schema

  /** The state change of `INSERT INTO events (type, commit_hash, payload)`:
      one row at the end with the next AUTOINCREMENT id, which becomes
      last_insert_rowid.  `commit_hash` has no foreign key, so no hash is
      checked. */
  function AppendEvent(db: Database, kind: string, commitHash: string, payload: string, now: int): (r: Database)
    requires WellFormed(db)
    ensures WellFormed(r)
    ensures |r.events| == |db.events| + 1 && r.events[..|db.events|] == db.events
    ensures var e := r.events[|db.events|];
            e.kind == kind && e.commitHash == commitHash && e.payload == payload && e.createdAt == now
            && e.id == r.lastInsertId
            && (forall i :: 0 <= i < |db.events| ==> db.events[i].id < e.id)
    ensures r.repos == db.repos && r.commits == db.commits && r.reviews == db.reviews
  {
    db.(events := db.events + [EventRow(db.nextEventId, kind, commitHash, now, payload)],
        nextEventId := db.nextEventId + 1,
        lastInsertId := db.nextEventId)
  }

  /** An event may name a hash with no commit: the append happens all the same. */
  lemma EventForUnknownHash(db: Database, kind: string, hash: string, payload: string, now: int)
    requires WellFormed(db) && hash !in db.commits
    ensures var r := AppendEvent(db, kind, hash, payload, now);
            r.events == db.events + [EventRow(db.nextEventId, kind, hash, now, payload)]
            && hash !in r.commits
  {
  }
}
