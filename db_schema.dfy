/** The review database of internal/db/schema.go as a value: the four tables,
    the counters SQLite keeps for the two AUTOINCREMENT keys, and the one
    piece of connection state the store reads back (`last_insert_rowid`).

    db.go opens the database with a single connection and with
    `foreign_keys=ON`; both facts shape the operations below. */
module Schema {
  import opened Common

  /** A row of `repositories`, without its key column `id`. */
  datatype RepoRow = RepoRow(
    name: string,
    path: string,
    active: bool,
    lastCommitHash: string,   // the ingestion watermark
    createdAt: int)

  /** A row of `commits`, without its key column `hash`. */
  datatype CommitRecord = CommitRecord(
    repoId: int,
    author: string,
    subject: string,
    body: string,
    branch: string,
    committedAt: int,
    detectedAt: int)

  /** A row of `review_state`, without its key column `commit_hash`. */
  datatype ReviewState = ReviewState(
    status: string,
    reviewedAt: Option<int>,   // NULL is None
    note: string)

  /** A row of the append-only `events` log. */
  datatype EventRow = EventRow(
    id: int,
    kind: string,
    commitHash: string,
    createdAt: int,
    payload: string)

  /** The whole database as seen through its single connection. */
  datatype Database = Database(
    repos: map<int, RepoRow>,            // keyed by id, `path` is UNIQUE
    nextRepoId: int,                     // next AUTOINCREMENT id of `repositories`
    commits: map<string, CommitRecord>,  // keyed by hash
    reviews: map<string, ReviewState>,   // keyed by commit_hash
    events: seq<EventRow>,               // in insertion order
    nextEventId: int,                    // next AUTOINCREMENT id of `events`
    lastInsertId: int)                   // the connection's last_insert_rowid()

  const StatusUnreviewed: string := "unreviewed"
  const StatusReviewed: string := "reviewed"
  const StatusIgnored: string := "ignored"

  /** The review_state row the column defaults give a newly inserted hash. */
  const DefaultReview: ReviewState := ReviewState(StatusUnreviewed, None, "")

  /** The database right after the migrations have run on a new file. */
  const Empty: Database := Database(map[], 1, map[], map[], [], 1, 0)

  /** What the schema's keys and constraints guarantee of every state:
      ids below their AUTOINCREMENT counters, unique paths, both foreign keys
      (`commits.repo_id` and `review_state.commit_hash`), and event ids
      increasing in insertion order.  No operation deletes rows, so the
      rowids of the two rowid tables without AUTOINCREMENT run from 1 to
      the number of rows. */
  predicate WellFormed(db: Database)
  {
    && db.nextRepoId >= 1
    && db.nextEventId >= 1
    && db.lastInsertId >= 0
    && (forall id :: id in db.repos ==> 1 <= id < db.nextRepoId)
    && (forall a, b :: a in db.repos && b in db.repos && db.repos[a].path == db.repos[b].path ==> a == b)
    && (forall h :: h in db.commits ==> db.commits[h].repoId in db.repos)
    && db.reviews.Keys <= db.commits.Keys
    && (forall i :: 0 <= i < |db.events| ==> 1 <= db.events[i].id < db.nextEventId)
    && (forall i, j :: 0 <= i < j < |db.events| ==> db.events[i].id < db.events[j].id)
  }

  /** Every commit has its review_state row and every review_state row its
      commit: the pairing InsertCommit sets up. */
  predicate Paired(db: Database)
  {
    db.commits.Keys == db.reviews.Keys
  }

  /** Some repository is registered at `path`. */
  predicate Registered(db: Database, path: string)
  {
    exists id :: id in db.repos && db.repos[id].path == path
  }

  lemma EmptyIsWellFormed()
    ensures WellFormed(Empty) && Paired(Empty)
  {
  }
}
