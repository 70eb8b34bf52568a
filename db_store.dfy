/** The review store of internal/db: the database behind the single `*sql.DB`
    connection, updated in place by the exported functions of commit.go,
    repo.go and event.go.  Each statement's effect is the matching function of
    RepoTable, CommitTable or EventLog; a `fault` parameter stands for the
    driver returning an error. */
module ReviewStore {
  import opened Common
  import opened Schema
  import opened RepoTable
  import opened CommitTable
  import opened EventLog

  /** Where UpsertRepo can fail: the upsert statement itself, which then
      writes nothing, or the `SELECT id` that reads the row back after the
      upsert has been applied. */
  datatype UpsertFault = NoUpsertFault | ExecFails | ReadBackFails

  class Store {
    var repos: map<int, RepoRow>
    var nextRepoId: int
    var commits: map<string, CommitRecord>
    var reviews: map<string, ReviewState>
    var events: seq<EventRow>
    var nextEventId: int
    var lastInsertId: int

    /** The tables as a value. */
    function State(): Database
      reads this
    {
      Database(repos, nextRepoId, commits, reviews, events, nextEventId, lastInsertId)
    }

    ghost predicate Valid()
      reads this
    {
      WellFormed(State())
    }

    /** A freshly migrated database: four empty tables. */
    constructor ()
      ensures Valid() && State() == Empty && Paired(State())
    {
      repos, nextRepoId := map[], 1;
      commits, reviews := map[], map[];
      events, nextEventId := [], 1;
      lastInsertId := 0;
    }

    /** Writes a value-level operation's result back into the fields: every
        state change below is a function of RepoTable, CommitTable or
        EventLog applied to State() and stored this way. */
    method SetState(db: Database)
      modifies this
      ensures State() == db
    {
      repos, nextRepoId := db.repos, db.nextRepoId;
      commits, reviews := db.commits, db.reviews;
      events, nextEventId := db.events, db.nextEventId;
      lastInsertId := db.lastInsertId;
    }

    /** UpsertRepo with the id always read back by path: the id of the row
        now registered at `path`, new or old.  A failing read-back reports an
        error although the upsert has been applied. */
    method UpsertRepo(name: string, path: string, now: int, fault: UpsertFault) returns (r: Result<int>)
      requires Valid()
      modifies this
      ensures Valid()
      ensures fault == ExecFails ==> r.Err? && State() == old(State())
      ensures fault != ExecFails ==> State() == Upsert(old(State()), name, path, now)
      ensures fault != ExecFails ==> Lookup(State(), path).Some? && Lookup(State(), path).value.name == name
      ensures fault == ReadBackFails ==> r.Err?
      ensures fault == NoUpsertFault ==> r.Ok? && r.value in repos && Lookup(State(), path) == Some(AsRepository(r.value, repos[r.value]))
      ensures fault == NoUpsertFault && Registered(old(State()), path) ==> Lookup(old(State()), path).value.id == r.value
    {
      if fault == ExecFails {
        r := Err("upsert repo failed");
        return;
      }
      ghost var before := State();
      SetState(Upsert(State(), name, path, now));
      var id :| id in repos && repos[id].path == path;
      LookupFinds(State(), path, id);
      if Registered(before, path) {
        var old_id :| old_id in before.repos && before.repos[old_id].path == path;
        UpsertExistingPath(before, name, path, now, old_id);
        LookupFinds(before, path, old_id);
        assert repos[old_id].path == path;
      } else {
        UpsertNewPath(before, name, path, now);
      }
      if fault == ReadBackFails {
        r := Err("read back repo id failed");
        return;
      }
      r := Ok(id);
    }

    /** UpsertRepo as written: the id is the connection's last_insert_rowid
        after the statement, and only a zero makes it read the row back (so
        only then can the read-back fail). */
    method UpsertRepoAsWritten(name: string, path: string, now: int, fault: UpsertFault) returns (r: Result<int>)
      requires Valid()
      modifies this
      ensures Valid()
      ensures fault == ExecFails ==> r.Err? && State() == old(State())
      ensures fault != ExecFails ==> State() == Upsert(old(State()), name, path, now)
      ensures fault != ExecFails ==> Lookup(State(), path).Some? && Lookup(State(), path).value.name == name
      ensures fault != ExecFails && !Registered(old(State()), path) ==>
                r == Ok(old(nextRepoId)) && Lookup(State(), path).value.id == old(nextRepoId)
      ensures fault != ExecFails && Registered(old(State()), path) && old(lastInsertId) != 0 ==>
                r == Ok(old(lastInsertId))
      ensures fault != ExecFails && Registered(old(State()), path) && old(lastInsertId) == 0 ==>
                && (fault == ReadBackFails ==> r.Err?)
                && (fault == NoUpsertFault ==> r == Ok(Lookup(State(), path).value.id))
    {
      if fault == ExecFails {
        r := Err("upsert repo failed");
        return;
      }
      ghost var before := State();
      if Registered(before, path) {
        var old_id :| old_id in before.repos && before.repos[old_id].path == path;
        UpsertExistingPath(before, name, path, now, old_id);
      } else {
        UpsertNewPath(before, name, path, now);
      }
      SetState(Upsert(State(), name, path, now));
      var id := lastInsertId;
      if id == 0 {
        if fault == ReadBackFails {
          r := Err("read back repo id failed");
          return;
        }
        id :| id in repos && repos[id].path == path;
        LookupFinds(State(), path, id);
      }
      r := Ok(id);
    }

    /** GetRepoByPath: the record at `path`, None (and no error) when the path
        is not registered. */
    method GetRepoByPath(path: string, fault: bool) returns (r: Result<Option<Repository>>)
      requires Valid()
      ensures fault ==> r.Err?
      ensures !fault ==> r.Ok? && (r.value.Some? <==> Registered(State(), path))
      ensures !fault && r.value.Some? ==> r.value.value.path == path && r.value.value == Lookup(State(), path).value
    {
      if fault {
        return Err("query repo failed");
      }
      if exists id :: id in repos && repos[id].path == path {
        var id :| id in repos && repos[id].path == path;
        LookupFinds(State(), path, id);
        r := Ok(Some(AsRepository(id, repos[id])));
      } else {
        r := Ok(None);
      }
    }

    /** UpdateLastCommitHash: overwrite one repository's watermark. */
    method UpdateLastCommitHash(id: int, hash: string, fault: bool) returns (r: Outcome)
      requires Valid()
      modifies this
      ensures Valid() && r.Pass? == !fault
      ensures State() == if fault then old(State()) else SetWatermark(old(State()), id, hash)
    {
      if fault {
        return Fail("update watermark failed");
      }
      if id in repos {
        repos := repos[id := repos[id].(lastCommitHash := hash)];
      }
      r := Pass;
    }

    /** InsertCommit: the `commits` statement, then the `review_state` one;
        the first error returns at once. */
    method InsertCommit(repoId: int, hash: string, author: string, subject: string, body: string,
                        branch: string, committedAt: int, now: int, fault: InsertFault) returns (r: Outcome)
      requires Valid()
      modifies this
      ensures Valid()
      ensures var step := InsertCommitOp(old(State()), repoId, hash, author, subject, body, branch, committedAt, now, fault);
              State() == step.db && r.Pass? == step.ok
    {
      if fault == CommitStmtFails {
        return Fail("insert commit failed");
      }
      if hash !in commits && repoId !in repos {
        return Fail("FOREIGN KEY constraint failed");
      }
      SetState(InsertCommitRow(State(), hash, CommitRecord(repoId, author, subject, body, branch, committedAt, now)));
      if fault == ReviewStmtFails {
        return Fail("insert review state failed");
      }
      SetState(InsertReviewRow(State(), hash));
      r := Pass;
    }

    /** UpdateReviewStatus: rewrite the review_state row of `hash`, if any. */
    method UpdateReviewStatus(hash: string, status: string, note: string, now: int, fault: bool) returns (r: Outcome)
      requires Valid()
      modifies this
      ensures Valid()
      ensures var step := UpdateReviewOp(old(State()), hash, status, note, now, fault);
              State() == step.db && r.Pass? == step.ok
    {
      if fault {
        return Fail("update review failed");
      }
      var reviewedAt: Option<int> := None;
      if status == StatusReviewed {
        reviewedAt := Some(now);
      }
      if hash in reviews {
        reviews := reviews[hash := ReviewState(status, reviewedAt, note)];
      }
      r := Pass;
    }

    /** InsertEvent: append one row to the log. */
    method InsertEvent(kind: string, commitHash: string, payload: string, now: int, fault: bool) returns (r: Outcome)
      requires Valid()
      modifies this
      ensures Valid() && r.Pass? == !fault
      ensures State() == if fault then old(State()) else AppendEvent(old(State()), kind, commitHash, payload, now)
    {
      if fault {
        return Fail("insert event failed");
      }
      events := events + [EventRow(nextEventId, kind, commitHash, now, payload)];
      lastInsertId := nextEventId;
      nextEventId := nextEventId + 1;
      r := Pass;
    }

    /** The rows the listing query yields, in the order `scanCommitRows`
        appends them: each round takes a newest remaining row. */
    method Select(ids: set<int>, filter: ReviewFilter) returns (rows: seq<CommitRow>)
      requires Valid()
      ensures IsListing(State(), ids, filter, rows)
    {
      var remaining := ListedSet(State(), ids, filter);
      rows := [];
      ListingStart(State(), ids, filter);
      while remaining != {}
        invariant ListingSoFar(State(), ids, filter, remaining, rows)
        decreases |remaining|
      {
        NewestExists(commits, remaining);
        var h :| h in remaining && forall g :: g in remaining ==> commits[g].committedAt <= commits[h].committedAt;
        ListingStep(State(), ids, filter, remaining, rows, h);
        rows := rows + [JoinRow(State(), h)];
        remaining := remaining - {h};
      }
      ListingDone(State(), ids, filter, rows);
    }

    /** ListCommits: one repository's rows passing the filter, newest first. */
    method ListCommits(repoId: int, filter: ReviewFilter, fault: bool) returns (r: Result<seq<CommitRow>>)
      requires Valid()
      ensures fault <==> r.Err?
      ensures r.Ok? ==> IsListing(State(), {repoId}, filter, r.value)
    {
      if fault {
        return Err("list commits failed");
      }
      var rows := Select({repoId}, filter);
      r := Ok(rows);
    }

    /** ListAllCommits: the rows of any of `repoIds`; no ids give no rows and
        no query. */
    method ListAllCommits(repoIds: seq<int>, filter: ReviewFilter, fault: bool) returns (r: Result<seq<CommitRow>>)
      requires Valid()
      ensures repoIds == [] ==> r == Ok([])
      ensures repoIds != [] ==> (fault <==> r.Err?)
      ensures r.Ok? ==> IsListing(State(), (set id | id in repoIds), filter, r.value)
    {
      if |repoIds| == 0 {
        NothingListedForNoIds(State(), filter, []);
        assert (set id | id in repoIds) == {};
        return Ok([]);
      }
      if fault {
        return Err("list commits failed");
      }
      var rows := Select((set id | id in repoIds), filter);
      r := Ok(rows);
    }

    /** The rows of `SELECT r.status, COUNT(*) ... GROUP BY r.status`, one per
        status that occurs among the joined rows of `ids`. */
    method GroupByStatus(ids: set<int>) returns (groups: seq<Group>)
      requires Valid()
      ensures IsGrouping(State(), ids, groups)
    {
      var pending := StatusesOf(State(), ids);
      groups := [];
      while pending != {}
        invariant GroupingSoFar(State(), ids, pending, groups)
        decreases |pending|
      {
        var st :| st in pending;
        GroupingStep(State(), ids, pending, groups, st);
        groups := groups + [Group(st, |WithStatus(State(), ids, st)|)];
        pending := pending - {st};
      }
    }

    /** queryStats: add every group's count to the total and copy the counts
        of the three known statuses into their fields. */
    method QueryStats(ids: set<int>, fault: bool) returns (r: Result<Stats>)
      requires Valid()
      ensures fault <==> r.Err?
      ensures r.Ok? ==> r.value == StatsOf(State(), ids)
    {
      if fault {
        return Err("query stats failed");
      }
      var groups := GroupByStatus(ids);
      var s := Stats(0, 0, 0, 0);
      var i := 0;
      while i < |groups|
        invariant 0 <= i <= |groups|
        invariant s == Stats(SumCounts(groups[..i]), CountFor(groups[..i], StatusUnreviewed),
                             CountFor(groups[..i], StatusReviewed), CountFor(groups[..i], StatusIgnored))
      {
        var g := groups[i];
        assert groups[..i + 1][..i] == groups[..i];
        s := s.(total := s.total + g.count);
        if g.status == StatusUnreviewed {
          s := s.(unreviewed := g.count);
        } else if g.status == StatusReviewed {
          s := s.(reviewed := g.count);
        } else if g.status == StatusIgnored {
          s := s.(ignored := g.count);
        }
        i := i + 1;
      }
      assert groups[..|groups|] == groups;
      TallyOfGrouping(State(), ids, groups);
      r := Ok(s);
    }

    /** GetStats: the statistics of one repository. */
    method GetStats(repoId: int, fault: bool) returns (r: Result<Stats>)
      requires Valid()
      ensures fault <==> r.Err?
      ensures r.Ok? ==> r.value == StatsOf(State(), {repoId})
    {
      r := QueryStats({repoId}, fault);
    }

    /** GetAggregateStats: the statistics over several repositories; no ids
        give zeros without a query. */
    method GetAggregateStats(repoIds: seq<int>, fault: bool) returns (r: Result<Stats>)
      requires Valid()
      ensures repoIds == [] ==> r == Ok(Stats(0, 0, 0, 0))
      ensures repoIds != [] ==> (fault <==> r.Err?)
      ensures r.Ok? ==> r.value == StatsOf(State(), (set id | id in repoIds))
    {
      if |repoIds| == 0 {
        NoIdsNoStats(State());
        assert (set id | id in repoIds) == {};
        return Ok(Stats(0, 0, 0, 0));
      }
      r := QueryStats((set id | id in repoIds), fault);
    }
  }

  /** The id UpsertRepo as written returns for a path registered again is the
      connection's previous insert id, which may belong to another row:
      registering "/a", then "/b", then "/a" again yields 2, while the row
      GetRepoByPath then reads back for "/a" still has id 1. */
  method UpsertAgainReturnsStaleId() returns (first: Result<int>, again: Result<int>, storedId: int)
    ensures first == Ok(1) && storedId == 1 && again == Ok(2)
  {
    var s := new Store();
    first := s.UpsertRepoAsWritten("a", "/a", 0, NoUpsertFault);
    var second := s.UpsertRepoAsWritten("b", "/b", 0, NoUpsertFault);
    assert s.repos[1].path == "/a";
    again := s.UpsertRepoAsWritten("a", "/a", 0, NoUpsertFault);
    assert s.repos[1].path == "/a";
    LookupFinds(s.State(), "/a", 1);
    var found := s.GetRepoByPath("/a", false);
    storedId := found.value.value.id;
  }

  /** The corrected UpsertRepo, on the same calls, returns the path's own id. */
  method UpsertAgainReturnsOwnId() returns (first: Result<int>, again: Result<int>)
    ensures first == Ok(1) && again == Ok(1)
  {
    var s := new Store();
    first := s.UpsertRepo("a", "/a", 0, NoUpsertFault);
    assert s.repos[1].path == "/a";
    var second := s.UpsertRepo("b", "/b", 0, NoUpsertFault);
    assert s.repos[1].path == "/a";
    again := s.UpsertRepo("a", "/a", 0, NoUpsertFault);
  }
}
