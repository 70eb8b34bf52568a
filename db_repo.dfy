/** The `repositories` table operations of internal/db/repo.go, as functions
    on the database value.  The Store class applies them in place. */
module RepoTable {
  import opened Common
  import opened Schema

  /** The record GetRepoByPath scans out of a row (Go's `db.Repository`). */
  datatype Repository = Repository(
    id: int,
    name: string,
    path: string,
    active: bool,
    lastCommitHash: string)

  function AsRepository(id: int, row: RepoRow): Repository
  {
    Repository(id, row.name, row.path, row.active, row.lastCommitHash)
  }

  /** The state change of
      `INSERT INTO repositories (name, path) VALUES (?, ?)
       ON CONFLICT(path) DO UPDATE SET name=excluded.name`:
      an unseen path gets a row with the next AUTOINCREMENT id and the column
      defaults (active, empty watermark); a registered path only has its name
      replaced.  Both branches use up an AUTOINCREMENT id, since SQLite
      draws the new rowid before the conflict check and writes the sequence
      at the end of the statement; only the inserting branch moves
      last_insert_rowid. */
  function Upsert(db: Database, name: string, path: string, now: int): (r: Database)
    requires WellFormed(db)
    ensures WellFormed(r) && Registered(r, path)
    ensures r.commits == db.commits && r.reviews == db.reviews && r.events == db.events
  {
    if Registered(db, path) then
      var renamed := map id | id in db.repos ::
        if db.repos[id].path == path then db.repos[id].(name := name) else db.repos[id];
      var w :| w in db.repos && db.repos[w].path == path;
      assert renamed[w].path == path;
      db.(repos := renamed, nextRepoId := db.nextRepoId + 1)
    else
      var r := db.(repos := db.repos[db.nextRepoId := RepoRow(name, path, true, "", now)],
                   nextRepoId := db.nextRepoId + 1,
                   lastInsertId := db.nextRepoId);
      assert r.repos[db.nextRepoId].path == path;
      r
  }

  /** `SELECT ... FROM repositories WHERE path = ?`: the row at `path`, if any. */
  ghost function Lookup(db: Database, path: string): (r: Option<Repository>)
    requires WellFormed(db)
    ensures r.Some? <==> Registered(db, path)
    ensures r.Some? ==> r.value.id in db.repos && db.repos[r.value.id].path == path
                        && r.value == AsRepository(r.value.id, db.repos[r.value.id])
  {
    if Registered(db, path) then
      var id :| id in db.repos && db.repos[id].path == path;
      Some(AsRepository(id, db.repos[id]))
    else None
  }

  /** `UPDATE repositories SET last_commit_hash = ? WHERE id = ?`. */
  function SetWatermark(db: Database, id: int, hash: string): (r: Database)
    requires WellFormed(db)
    ensures WellFormed(r)
    ensures r.repos.Keys == db.repos.Keys
    ensures r.commits == db.commits && r.reviews == db.reviews && r.events == db.events
  {
    if id in db.repos then db.(repos := db.repos[id := db.repos[id].(lastCommitHash := hash)])
    else db
  }

  /** The row at a path is the only one with that path. */
  lemma LookupFinds(db: Database, path: string, id: int)
    requires WellFormed(db)
    requires id in db.repos && db.repos[id].path == path
    ensures Lookup(db, path) == Some(AsRepository(id, db.repos[id]))
  {
  }

  /** Registering an unseen path creates a row under a fresh id with the
      given name, active, and an empty watermark; no other row changes. */
  lemma UpsertNewPath(db: Database, name: string, path: string, now: int)
    requires WellFormed(db) && !Registered(db, path)
    ensures var r := Upsert(db, name, path, now);
            && db.nextRepoId !in db.repos
            && r.repos == db.repos[db.nextRepoId := RepoRow(name, path, true, "", now)]
            && Lookup(r, path) == Some(Repository(db.nextRepoId, name, path, true, ""))
  {
    var r := Upsert(db, name, path, now);
    LookupFinds(r, path, db.nextRepoId);
  }

  /** Registering a path again keeps its id, path, active flag and watermark
      and replaces only its name; every other row stays as it was. */
  lemma UpsertExistingPath(db: Database, name: string, path: string, now: int, id: int)
    requires WellFormed(db) && id in db.repos && db.repos[id].path == path
    ensures var r := Upsert(db, name, path, now);
            && r.repos.Keys == db.repos.Keys
            && r.repos[id] == db.repos[id].(name := name)
            && (forall other :: other in db.repos && other != id ==> r.repos[other] == db.repos[other])
            && r.nextRepoId == db.nextRepoId + 1
            && r.lastInsertId == db.lastInsertId
            && Lookup(r, path) == Some(Repository(id, name, path, db.repos[id].active, db.repos[id].lastCommitHash))
  {
    var r := Upsert(db, name, path, now);
    assert Registered(db, path);
    LookupFinds(r, path, id);
  }

  /** Registering the same path twice in a row leaves the tables and
      last_insert_rowid as once; the second call only uses up one more id. */
  lemma UpsertIdempotent(db: Database, name: string, path: string, now: int, later: int)
    requires WellFormed(db)
    ensures var once := Upsert(db, name, path, now);
            Upsert(once, name, path, later) == once.(nextRepoId := once.nextRepoId + 1)
  {
    var r := Upsert(db, name, path, now);
    var r2 := Upsert(r, name, path, later);
    assert forall id :: id in r.repos && r.repos[id].path == path ==> r.repos[id].name == name;
    assert r2.repos == r.repos;
  }

  /** The id a re-registration uses up is never handed out: "/a", "/a"
      again, then "/b" gives "/b" the id 3. */
  lemma UpsertAgainSkipsId()
    ensures var db := Upsert(Upsert(Upsert(Empty, "a", "/a", 0), "a", "/a", 0), "b", "/b", 0);
            Lookup(db, "/b") == Some(Repository(3, "b", "/b", true, ""))
  {
    EmptyIsWellFormed();
    var d1 := Upsert(Empty, "a", "/a", 0);
    UpsertNewPath(Empty, "a", "/a", 0);
    var d2 := Upsert(d1, "a", "/a", 0);
    UpsertExistingPath(d1, "a", "/a", 0, 1);
    assert !Registered(d2, "/b") by {
      assert d2.repos.Keys == {1};
    }
    UpsertNewPath(d2, "b", "/b", 0);
  }

  /** Two registered paths never share an id. */
  lemma DistinctPathsDistinctIds(db: Database, p: string, q: string)
    requires WellFormed(db) && Registered(db, p) && Registered(db, q) && p != q
    ensures Lookup(db, p).value.id != Lookup(db, q).value.id
  {
  }

  /** The watermark of a known repository becomes `hash` (even an older one:
      nothing checks monotonicity); other fields and rows stay; an unknown
      id changes nothing. */
  lemma SetWatermarkEffect(db: Database, id: int, hash: string)
    requires WellFormed(db)
    ensures var r := SetWatermark(db, id, hash);
            && (id in db.repos ==> r.repos[id] == db.repos[id].(lastCommitHash := hash))
            && (forall other :: other in db.repos && other != id ==> r.repos[other] == db.repos[other])
            && (id !in db.repos ==> r == db)
  {
  }
}
