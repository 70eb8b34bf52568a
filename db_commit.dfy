/** The `commits` and `review_state` operations of internal/db/commit.go, as
    functions on the database value, with the meaning of its two listings
    and of its statistics.  The Store class applies and evaluates them. */
module CommitTable {
  import opened Common
  import opened Schema

  /** Go's `ReviewFilter` constants. */
  datatype ReviewFilter = FilterAll | FilterUnreviewed | FilterReviewed | FilterIgnored
  {
    /** The string each constant stands for. */
    function Value(): string
    {
      match this
      case FilterAll => "all"
      case FilterUnreviewed => StatusUnreviewed
      case FilterReviewed => StatusReviewed
      case FilterIgnored => StatusIgnored
    }
  }

  /** Driver failures InsertCommit can meet: its first statement (into
      `commits`) or its second (into `review_state`) returns an error. */
  datatype InsertFault = NoFault | CommitStmtFails | ReviewStmtFails

  /** The database after an operation, and whether it returned a nil error. */
  datatype Step = Step(db: Database, ok: bool)

  /** `INSERT OR IGNORE INTO commits` when it succeeds: a new hash gets its
      row under the next rowid, which becomes last_insert_rowid; a stored
      hash is skipped. */
  function InsertCommitRow(db: Database, hash: string, row: CommitRecord): (r: Database)
    requires WellFormed(db) && (hash in db.commits || row.repoId in db.repos)
    ensures WellFormed(r)
    ensures r.repos == db.repos && r.events == db.events && r.reviews == db.reviews
    ensures hash in r.commits && r.commits.Keys == db.commits.Keys + {hash}
    ensures forall h :: h in db.commits ==> r.commits[h] == db.commits[h]
  {
    if hash in db.commits then db
    else db.(commits := db.commits[hash := row], lastInsertId := |db.commits| + 1)
  }

  /** `INSERT OR IGNORE INTO review_state (commit_hash)` when it succeeds: a
      new hash gets the default row. */
  function InsertReviewRow(db: Database, hash: string): (r: Database)
    requires WellFormed(db) && hash in db.commits
    ensures WellFormed(r)
    ensures r.repos == db.repos && r.events == db.events && r.commits == db.commits
    ensures hash in r.reviews && r.reviews.Keys == db.reviews.Keys + {hash}
    ensures forall h :: h in db.reviews ==> r.reviews[h] == db.reviews[h]
  {
    if hash in db.reviews then db
    else db.(reviews := db.reviews[hash := DefaultReview], lastInsertId := |db.reviews| + 1)
  }

  /** The state change of InsertCommit: the commits statement, then the
      review_state statement.  A new hash whose repo_id names no repository
      violates the foreign key, and the first statement fails. */
  function InsertCommitOp(db: Database, repoId: int, hash: string, author: string, subject: string,
                          body: string, branch: string, committedAt: int, now: int,
                          fault: InsertFault): (r: Step)
    requires WellFormed(db)
    ensures WellFormed(r.db)
    ensures r.db.repos == db.repos && r.db.events == db.events
    ensures r.db.commits.Keys == db.commits.Keys || r.db.commits.Keys == db.commits.Keys + {hash}
    ensures forall h :: h in db.commits ==> r.db.commits[h] == db.commits[h]
    ensures forall h :: h in db.reviews ==> h in r.db.reviews && r.db.reviews[h] == db.reviews[h]
    ensures Paired(db) && r.ok ==> Paired(r.db)
    ensures r.ok ==> hash in r.db.commits && hash in r.db.reviews
    ensures r.ok <==> fault == NoFault && (hash in db.commits || repoId in db.repos)
  {
    if fault == CommitStmtFails || (hash !in db.commits && repoId !in db.repos) then
      Step(db, false)
    else
      var afterCommit := InsertCommitRow(db, hash, CommitRecord(repoId, author, subject, body, branch, committedAt, now));
      if fault == ReviewStmtFails then Step(afterCommit, false)
      else
        assert fault == NoFault;
        Step(InsertReviewRow(afterCommit, hash), true)
  }

  /** The review_state row UpdateReviewStatus writes: `reviewed_at` is the
      current time for "reviewed" and NULL for every other status. */
  function ReviewTo(status: string, note: string, now: int): ReviewState
  {
    ReviewState(status, if status == StatusReviewed then Some(now) else None, note)
  }

  /** The state change of UpdateReviewStatus:
      `UPDATE review_state SET status, reviewed_at, note WHERE commit_hash = ?`.
      An unknown hash matches no row and is not an error. */
  function UpdateReviewOp(db: Database, hash: string, status: string, note: string, now: int,
                          fault: bool): (r: Step)
    requires WellFormed(db)
    ensures WellFormed(r.db) && r.ok == !fault
    ensures r.db.reviews.Keys == db.reviews.Keys
    ensures r.db.repos == db.repos && r.db.commits == db.commits && r.db.events == db.events
    ensures Paired(db) ==> Paired(r.db)
  {
    if fault then Step(db, false)
    else if hash in db.reviews then Step(db.(reviews := db.reviews[hash := ReviewTo(status, note, now)]), true)
    else Step(db, true)
  }

  /** Inserting a new hash of a registered repository adds exactly one
      commit row and one review_state row, the latter "unreviewed" with an
      empty note and no reviewed_at. */
  lemma InsertNewHash(db: Database, repoId: int, hash: string, author: string, subject: string,
                      body: string, branch: string, committedAt: int, now: int)
    requires WellFormed(db) && hash !in db.commits && repoId in db.repos
    ensures var r := InsertCommitOp(db, repoId, hash, author, subject, body, branch, committedAt, now, NoFault);
            && r.ok
            && r.db.commits == db.commits[hash := CommitRecord(repoId, author, subject, body, branch, committedAt, now)]
            && r.db.reviews == db.reviews[hash := DefaultReview]
            && DefaultReview.status == "unreviewed" && DefaultReview.note == "" && DefaultReview.reviewedAt == None
  {
  }

  /** Inserting a hash that is already stored succeeds and changes nothing:
      its repository, fields, status and note stay as they were. */
  lemma InsertDuplicateHash(db: Database, repoId: int, hash: string, author: string, subject: string,
                            body: string, branch: string, committedAt: int, now: int)
    requires WellFormed(db) && Paired(db) && hash in db.commits
    ensures InsertCommitOp(db, repoId, hash, author, subject, body, branch, committedAt, now, NoFault) == Step(db, true)
  {
  }

  /** A new hash naming no registered repository fails on the foreign key
      and leaves the database as it was. */
  lemma InsertUnknownRepo(db: Database, repoId: int, hash: string, author: string, subject: string,
                          body: string, branch: string, committedAt: int, now: int, fault: InsertFault)
    requires WellFormed(db) && hash !in db.commits && repoId !in db.repos
    ensures InsertCommitOp(db, repoId, hash, author, subject, body, branch, committedAt, now, fault) == Step(db, false)
  {
  }

  /** The only way InsertCommit breaks the pairing of commits and
      review_state: its second statement fails after the first inserted. */
  lemma InsertUnpairsOnlyOnReviewFailure(db: Database, repoId: int, hash: string, author: string,
                                         subject: string, body: string, branch: string,
                                         committedAt: int, now: int, fault: InsertFault)
    requires WellFormed(db) && Paired(db)
    ensures var r := InsertCommitOp(db, repoId, hash, author, subject, body, branch, committedAt, now, fault);
            !Paired(r.db) <==> fault == ReviewStmtFails && hash !in db.commits && repoId in db.repos
  {
    var r := InsertCommitOp(db, repoId, hash, author, subject, body, branch, committedAt, now, fault);
    if fault == ReviewStmtFails && hash !in db.commits && repoId in db.repos {
      assert hash in r.db.commits && hash !in r.db.reviews;
    }
  }

  /** UpdateReviewStatus on a stored hash sets its status, overwrites its
      note, and sets reviewed_at to `now` exactly when the status is
      "reviewed" (clearing it otherwise); every other row stays. */
  lemma UpdateReviewEffect(db: Database, hash: string, status: string, note: string, now: int)
    requires WellFormed(db) && hash in db.reviews
    ensures var r := UpdateReviewOp(db, hash, status, note, now, false);
            && r.db.reviews[hash].status == status
            && r.db.reviews[hash].note == note
            && (r.db.reviews[hash].reviewedAt == Some(now) <==> status == "reviewed")
            && (status != "reviewed" ==> r.db.reviews[hash].reviewedAt == None)
            && (forall h :: h in db.reviews && h != hash ==> r.db.reviews[h] == db.reviews[h])
  {
  }

  /** UpdateReviewStatus on an unknown hash succeeds and changes nothing. */
  lemma UpdateReviewUnknownHash(db: Database, hash: string, status: string, note: string, now: int)
    requires WellFormed(db) && hash !in db.reviews
    ensures UpdateReviewOp(db, hash, status, note, now, false) == Step(db, true)
  {
  }

  /** Marking reviewed, then unreviewed, then reviewed again: each step into
      "reviewed" stamps its own time, the step away clears the stamp, and
      the final status is "reviewed". */
  lemma ReviewRoundTrip(db: Database, hash: string, t1: int, t2: int, t3: int)
    requires WellFormed(db) && hash in db.reviews
    ensures var s1 := UpdateReviewOp(db, hash, StatusReviewed, "", t1, false).db;
            var s2 := UpdateReviewOp(s1, hash, StatusUnreviewed, "", t2, false).db;
            var s3 := UpdateReviewOp(s2, hash, StatusReviewed, "", t3, false).db;
            && s1.reviews[hash].reviewedAt == Some(t1)
            && s2.reviews[hash].reviewedAt == None
            && s3.reviews[hash] == ReviewState(StatusReviewed, Some(t3), "")
  {
  }

  // ---------------------------------------------------------------------
  // Listings

  /** A row of the listing join `commits JOIN review_state JOIN repositories`
      (Go's `db.CommitRow`). */
  datatype CommitRow = CommitRow(
    hash: string,
    repoId: int,
    repoName: string,
    author: string,
    subject: string,
    body: string,
    branch: string,
    committedAt: int,
    detectedAt: int,
    status: string,
    reviewedAt: Option<int>,
    note: string)

  /** The status condition a filter adds to the query: none for FilterAll,
      `r.status = '<filter>'` otherwise. */
  predicate Passes(filter: ReviewFilter, status: string)
  {
    filter == FilterAll || status == filter.Value()
  }

  /** The hash `h` is a row of the listing for repositories `ids`: it has a
      commit, a review_state row and a repository (the two inner joins), its
      repo_id is one of `ids`, and its status passes the filter. */
  predicate Listed(db: Database, ids: set<int>, filter: ReviewFilter, h: string)
  {
    && h in db.commits && h in db.reviews
    && db.commits[h].repoId in ids && db.commits[h].repoId in db.repos
    && Passes(filter, db.reviews[h].status)
  }

  /** The joined row of a listed hash. */
  function JoinRow(db: Database, h: string): CommitRow
    requires h in db.commits && h in db.reviews && db.commits[h].repoId in db.repos
  {
    var c := db.commits[h];
    var r := db.reviews[h];
    CommitRow(h, c.repoId, db.repos[c.repoId].name, c.author, c.subject, c.body, c.branch,
              c.committedAt, c.detectedAt, r.status, r.reviewedAt, r.note)
  }

  /** `ORDER BY c.committed_at DESC`: newest first (rows of equal time in no
      particular order). */
  predicate NewestFirst(rows: seq<CommitRow>)
  {
    forall i, j :: 0 <= i < j < |rows| ==> rows[i].committedAt >= rows[j].committedAt
  }

  /** `rows` is a result of the listing query: each listed hash exactly once,
      as its joined row, newest first, and nothing else. */
  ghost predicate IsListing(db: Database, ids: set<int>, filter: ReviewFilter, rows: seq<CommitRow>)
  {
    && (forall i :: 0 <= i < |rows| ==> Listed(db, ids, filter, rows[i].hash) && rows[i] == JoinRow(db, rows[i].hash))
    && (forall h :: Listed(db, ids, filter, h) ==> exists i :: 0 <= i < |rows| && rows[i].hash == h)
    && (forall i, j :: 0 <= i < j < |rows| ==> rows[i].hash != rows[j].hash)
    && NewestFirst(rows)
  }

  /** Halfway through producing a listing: `rows` holds listed hashes, each
      once and newest first, none newer than a hash still `remaining`, and
      every listed hash is in one of the two. */
  ghost predicate ListingSoFar(db: Database, ids: set<int>, filter: ReviewFilter,
                               remaining: set<string>, rows: seq<CommitRow>)
  {
    && (forall h :: h in remaining ==> Listed(db, ids, filter, h))
    && (forall i :: 0 <= i < |rows| ==>
          Listed(db, ids, filter, rows[i].hash) && rows[i] == JoinRow(db, rows[i].hash) && rows[i].hash !in remaining)
    && (forall h :: Listed(db, ids, filter, h) ==> h in remaining || exists i :: 0 <= i < |rows| && rows[i].hash == h)
    && (forall i, j :: 0 <= i < j < |rows| ==> rows[i].hash != rows[j].hash)
    && NewestFirst(rows)
    && (forall i, h :: 0 <= i < |rows| && h in remaining ==> rows[i].committedAt >= db.commits[h].committedAt)
  }

  /** The hashes the listing query selects. */
  function ListedSet(db: Database, ids: set<int>, filter: ReviewFilter): (s: set<string>)
    ensures forall h :: h in s <==> Listed(db, ids, filter, h)
  {
    set h | h in db.commits && h in db.reviews && db.commits[h].repoId in ids
            && db.commits[h].repoId in db.repos && Passes(filter, db.reviews[h].status)
  }

  lemma ListingStart(db: Database, ids: set<int>, filter: ReviewFilter)
    ensures ListingSoFar(db, ids, filter, ListedSet(db, ids, filter), [])
  {
  }

  /** Moving a newest remaining hash to the end of the rows keeps the
      invariant. */
  lemma ListingStep(db: Database, ids: set<int>, filter: ReviewFilter,
                    remaining: set<string>, rows: seq<CommitRow>, h: string)
    requires ListingSoFar(db, ids, filter, remaining, rows)
    requires h in remaining
    requires forall g :: g in remaining ==> db.commits[g].committedAt <= db.commits[h].committedAt
    ensures ListingSoFar(db, ids, filter, remaining - {h}, rows + [JoinRow(db, h)])
  {
    var rows' := rows + [JoinRow(db, h)];
    var remaining' := remaining - {h};
    forall g | Listed(db, ids, filter, g) ensures g in remaining' || exists i :: 0 <= i < |rows'| && rows'[i].hash == g {
      if g == h {
        assert rows'[|rows|].hash == g;
      } else if g !in remaining {
        var i :| 0 <= i < |rows| && rows[i].hash == g;
        assert rows'[i].hash == g;
      }
    }
    assert NewestFirst(rows');
  }

  lemma ListingDone(db: Database, ids: set<int>, filter: ReviewFilter, rows: seq<CommitRow>)
    requires ListingSoFar(db, ids, filter, {}, rows)
    ensures IsListing(db, ids, filter, rows)
  {
  }

  /** A non-empty set of stored hashes has a newest member. */
  lemma {:induction false} NewestExists(commits: map<string, CommitRecord>, s: set<string>)
    requires s != {} && s <= commits.Keys
    ensures exists h :: h in s && forall g :: g in s ==> commits[g].committedAt <= commits[h].committedAt
  {
    var x :| x in s;
    if s != {x} {
      NewestExists(commits, s - {x});
      var h :| h in s - {x} && forall g :: g in s - {x} ==> commits[g].committedAt <= commits[h].committedAt;
      if commits[x].committedAt > commits[h].committedAt {
        assert forall g :: g in s ==> commits[g].committedAt <= commits[x].committedAt;
      } else {
        assert forall g :: g in s ==> commits[g].committedAt <= commits[h].committedAt;
      }
    }
  }

  /** Listing several repositories lists, for each, what listing it alone
      would: the `IN (...)` condition is the union of the single-id ones. */
  lemma ListedUnion(db: Database, ids: set<int>, filter: ReviewFilter, h: string)
    ensures Listed(db, ids, filter, h) <==> exists id :: id in ids && Listed(db, {id}, filter, h)
  {
    if Listed(db, ids, filter, h) {
      assert Listed(db, {db.commits[h].repoId}, filter, h);
    }
  }

  /** With no repository ids nothing is listed. */
  lemma NothingListedForNoIds(db: Database, filter: ReviewFilter, rows: seq<CommitRow>)
    ensures IsListing(db, {}, filter, rows) <==> rows == []
  {
    if |rows| > 0 {
      assert !Listed(db, {}, filter, rows[0].hash);
    }
  }

  /** A listing with a status filter is exactly the unfiltered listing's rows
      of that status. */
  lemma FilteredListingIsSublisting(db: Database, ids: set<int>, filter: ReviewFilter, h: string)
    ensures Listed(db, ids, filter, h) <==> Listed(db, ids, FilterAll, h) && Passes(filter, db.reviews[h].status)
  {
  }

  // ---------------------------------------------------------------------
  // Statistics

  /** Go's `db.Stats`. */
  datatype Stats = Stats(total: int, unreviewed: int, reviewed: int, ignored: int)

  /** The hashes `commits c JOIN review_state r ... WHERE c.repo_id IN ids`
      counts (the statistics do not join repositories). */
  function Joined(db: Database, ids: set<int>): set<string>
  {
    set h | h in db.commits && h in db.reviews && db.commits[h].repoId in ids
  }

  /** The joined hashes whose status is `status`. */
  function WithStatus(db: Database, ids: set<int>, status: string): set<string>
  {
    set h | h in db.commits && h in db.reviews && db.commits[h].repoId in ids && db.reviews[h].status == status
  }

  /** What the statistics mean: the number of joined rows, and the number of
      them with each of the three known statuses. */
  function StatsOf(db: Database, ids: set<int>): Stats
  {
    Stats(|Joined(db, ids)|, |WithStatus(db, ids, StatusUnreviewed)|,
          |WithStatus(db, ids, StatusReviewed)|, |WithStatus(db, ids, StatusIgnored)|)
  }

  /** A row of `SELECT r.status, COUNT(*) ... GROUP BY r.status`. */
  datatype Group = Group(status: string, count: nat)

  /** `groups` is a result of the grouping query: one row per status that
      occurs, carrying the number of joined rows with that status. */
  predicate IsGrouping(db: Database, ids: set<int>, groups: seq<Group>)
  {
    && (forall i, j :: 0 <= i < j < |groups| ==> groups[i].status != groups[j].status)
    && (forall i :: 0 <= i < |groups| ==> groups[i].count == |WithStatus(db, ids, groups[i].status)|)
    && (forall h :: h in Joined(db, ids) ==> exists i :: 0 <= i < |groups| && groups[i].status == db.reviews[h].status)
  }

  /** The statuses occurring among the joined rows. */
  function StatusesOf(db: Database, ids: set<int>): (s: set<string>)
    ensures forall h :: h in Joined(db, ids) ==> db.reviews[h].status in s
  {
    set h | h in Joined(db, ids) :: db.reviews[h].status
  }

  /** Halfway through the grouping: one correct row for each status already
      done, and every occurring status either done or `pending`. */
  predicate GroupingSoFar(db: Database, ids: set<int>, pending: set<string>, groups: seq<Group>)
  {
    && (forall i :: 0 <= i < |groups| ==> groups[i].status !in pending)
    && (forall i, j :: 0 <= i < j < |groups| ==> groups[i].status != groups[j].status)
    && (forall i :: 0 <= i < |groups| ==> groups[i].count == |WithStatus(db, ids, groups[i].status)|)
    && (forall h :: h in Joined(db, ids) ==>
          db.reviews[h].status in pending || exists i :: 0 <= i < |groups| && groups[i].status == db.reviews[h].status)
  }

  lemma GroupingStep(db: Database, ids: set<int>, pending: set<string>, groups: seq<Group>, st: string)
    requires GroupingSoFar(db, ids, pending, groups) && st in pending
    ensures GroupingSoFar(db, ids, pending - {st}, groups + [Group(st, |WithStatus(db, ids, st)|)])
  {
    var groups' := groups + [Group(st, |WithStatus(db, ids, st)|)];
    forall h | h in Joined(db, ids)
      ensures db.reviews[h].status in pending - {st} || exists i :: 0 <= i < |groups'| && groups'[i].status == db.reviews[h].status
    {
      if db.reviews[h].status == st {
        assert groups'[|groups|].status == st;
      } else if db.reviews[h].status !in pending {
        var i :| 0 <= i < |groups| && groups[i].status == db.reviews[h].status;
        assert groups'[i] == groups[i];
      }
    }
  }

  /** The sum of the counts (`s.Total += count`). */
  function SumCounts(groups: seq<Group>): nat
  {
    if groups == [] then 0 else SumCounts(groups[..|groups| - 1]) + groups[|groups| - 1].count
  }

  /** The value the `switch` leaves in the field for `status`: the count of
      the last row with that status, 0 when there is none. */
  function CountFor(groups: seq<Group>, status: string): nat
  {
    if groups == [] then 0
    else if groups[|groups| - 1].status == status then groups[|groups| - 1].count
    else CountFor(groups[..|groups| - 1], status)
  }

  function StatusSet(groups: seq<Group>): set<string>
  {
    set i | 0 <= i < |groups| :: groups[i].status
  }

  /** The joined hashes whose status is one of `statuses`. */
  function Covered(db: Database, ids: set<int>, statuses: set<string>): set<string>
  {
    set h | h in Joined(db, ids) && db.reviews[h].status in statuses
  }

  /** Summing the counts of distinct statuses counts every joined hash with
      one of those statuses once. */
  lemma {:induction false} SumCountsCovers(db: Database, ids: set<int>, groups: seq<Group>)
    requires forall i, j :: 0 <= i < j < |groups| ==> groups[i].status != groups[j].status
    requires forall i :: 0 <= i < |groups| ==> groups[i].count == |WithStatus(db, ids, groups[i].status)|
    ensures SumCounts(groups) == |Covered(db, ids, StatusSet(groups))|
  {
    if groups == [] {
      assert Covered(db, ids, StatusSet(groups)) == {};
    } else {
      var n := |groups| - 1;
      var front := groups[..n];
      var last := groups[n];
      SumCountsCovers(db, ids, front);
      assert StatusSet(groups) == StatusSet(front) + {last.status};
      assert last.status !in StatusSet(front);
      var a := Covered(db, ids, StatusSet(front));
      var b := WithStatus(db, ids, last.status);
      assert Covered(db, ids, StatusSet(groups)) == a + b;
      assert a * b == {};
    }
  }

  /** In a grouping the last row with a status is its only row. */
  lemma {:induction false} CountForGroup(db: Database, ids: set<int>, groups: seq<Group>, status: string)
    requires forall i :: 0 <= i < |groups| ==> groups[i].count == |WithStatus(db, ids, groups[i].status)|
    requires (forall h :: h in WithStatus(db, ids, status) ==> status in StatusSet(groups))
    ensures CountFor(groups, status) == |WithStatus(db, ids, status)|
  {
    if groups == [] {
      assert StatusSet(groups) == {};
      assert WithStatus(db, ids, status) == {};
    } else {
      var n := |groups| - 1;
      if groups[n].status != status {
        forall h | h in WithStatus(db, ids, status) ensures status in StatusSet(groups[..n]) {
          var i :| 0 <= i < |groups| && groups[i].status == status;
          assert groups[..n][i] == groups[i];
        }
        CountForGroup(db, ids, groups[..n], status);
      }
    }
  }

  /** Tallying a grouping gives the statistics: the total is the sum over
      every status that occurs, each named field its status's count. */
  lemma TallyOfGrouping(db: Database, ids: set<int>, groups: seq<Group>)
    requires IsGrouping(db, ids, groups)
    ensures Stats(SumCounts(groups), CountFor(groups, StatusUnreviewed), CountFor(groups, StatusReviewed),
                  CountFor(groups, StatusIgnored)) == StatsOf(db, ids)
  {
    SumCountsCovers(db, ids, groups);
    assert Covered(db, ids, StatusSet(groups)) == Joined(db, ids);
    forall st | st in {StatusUnreviewed, StatusReviewed, StatusIgnored}
      ensures CountFor(groups, st) == |WithStatus(db, ids, st)|
    {
      forall h | h in WithStatus(db, ids, st) ensures st in StatusSet(groups) {
        assert h in Joined(db, ids);
      }
      CountForGroup(db, ids, groups, st);
    }
  }

  /** The total is at least the three named counts together, and equals them
      when no other status occurs. */
  lemma TotalCoversNamed(db: Database, ids: set<int>)
    ensures var s := StatsOf(db, ids);
            && s.total >= s.unreviewed + s.reviewed + s.ignored
            && ((forall h :: h in Joined(db, ids) ==> db.reviews[h].status in {StatusUnreviewed, StatusReviewed, StatusIgnored})
                ==> s.total == s.unreviewed + s.reviewed + s.ignored)
  {
    var u := WithStatus(db, ids, StatusUnreviewed);
    var r := WithStatus(db, ids, StatusReviewed);
    var i := WithStatus(db, ids, StatusIgnored);
    var all := Joined(db, ids);
    assert u * r == {} && (u + r) * i == {};
    assert |u + r + i| == |u| + |r| + |i|;
    assert u + r + i <= all;
    SubsetCard(u + r + i, all);
    if forall h :: h in all ==> db.reviews[h].status in {StatusUnreviewed, StatusReviewed, StatusIgnored} {
      assert u + r + i == all;
    }
  }

  lemma SubsetCard(a: set<string>, b: set<string>)
    requires a <= b
    ensures |a| <= |b|
  {
    assert b == a + (b - a);
  }

  /** No repository ids give all-zero statistics. */
  lemma NoIdsNoStats(db: Database)
    ensures StatsOf(db, {}) == Stats(0, 0, 0, 0)
  {
    assert Joined(db, {}) == {};
    assert WithStatus(db, {}, StatusUnreviewed) == {};
    assert WithStatus(db, {}, StatusReviewed) == {};
    assert WithStatus(db, {}, StatusIgnored) == {};
  }
}
