/** The commands of internal/tui/commands.go that move commits from the
    history reader into the review store, and the dispatch in
    internal/tui/model.go that decides which command follows which message.

    A bubbletea command runs later and reports back one message; here each
    command is a method that runs at once and returns that message.  The
    store is the ReviewStore object; the opened repository, the repository
    handle (nil or not), the notifier (nil or not) and every driver error are
    parameters. */
module Ingest {
  import opened Common
  import opened Schema
  import opened RepoTable
  import opened CommitTable
  import opened ReviewStore
  import opened GitRepo
  import Cfg = Config

  /** The messages the commands report (internal/tui/messages.go).  Error
      texts keep only the context the Go code puts in front of the cause. */
  datatype Msg =
    | RepoInitializedMsg(repoId: int, repo: Repo)
    | SeedDoneMsg(commits: seq<CommitInfo>)
    | WatcherEventMsg
    | NewCommitsMsg(commits: seq<CommitInfo>)
    | CommitsPersistedMsg(commits: seq<CommitInfo>)
    | CommitsLoadedMsg(rows: seq<CommitRow>, stats: Stats)
    | ReviewUpdatedMsg(hash: string, status: string)
    | ErrorMsg(err: string)

  /** One desktop notification: `Notify(subject, body)`. */
  datatype Notification = Notification(subject: string, body: string)

  // ---------------------------------------------------------------------
  // persistCommits

  /** The result of the insert loop: the database, and the index of the
      commit whose insert failed, if one did. */
  datatype Inserted = Inserted(db: Database, failedAt: Option<nat>)

  /** The first loop of persistCommits on the database value: InsertCommit
      for each commit in order with the fault `fs[k]` for the k-th, stopping
      at the first error. */
  function InsertAll(db: Database, repoId: int, cs: seq<CommitInfo>, now: int,
                     fs: seq<InsertFault>): (r: Inserted)
    requires WellFormed(db) && |fs| == |cs|
    ensures WellFormed(r.db) && r.db.repos == db.repos && r.db.events == db.events
    ensures r.failedAt.Some? ==> r.failedAt.value < |cs|
    decreases |cs|
  {
    if cs == [] then Inserted(db, None)
    else
      var n := |cs| - 1;
      var before := InsertAll(db, repoId, cs[..n], now, fs[..n]);
      if before.failedAt.Some? then before
      else
        var c := cs[n];
        var step := InsertCommitOp(before.db, repoId, c.hash, c.author, c.subject, c.body, c.branch,
                                   c.timestamp, now, fs[n]);
        Inserted(step.db, if step.ok then None else Some(n))
  }

  /** Once an insert has failed, the commits after it are never tried. */
  lemma {:induction false} InsertAllKeepsFailure(db: Database, repoId: int, cs: seq<CommitInfo>, now: int,
                                                 fs: seq<InsertFault>, j: nat)
    requires WellFormed(db) && |fs| == |cs| && j <= |cs|
    requires InsertAll(db, repoId, cs[..j], now, fs[..j]).failedAt.Some?
    ensures InsertAll(db, repoId, cs, now, fs) == InsertAll(db, repoId, cs[..j], now, fs[..j])
    decreases |cs| - j
  {
    if j < |cs| {
      var n := |cs| - 1;
      assert cs[..n][..j] == cs[..j] && fs[..n][..j] == fs[..j];
      InsertAllKeepsFailure(db, repoId, cs[..n], now, fs[..n], j);
      var before := InsertAll(db, repoId, cs[..n], now, fs[..n]);
      assert before.failedAt.Some?;
      assert InsertAll(db, repoId, cs, now, fs) == before;
    } else {
      assert cs[..j] == cs && fs[..j] == fs;
    }
  }

  /** With a registered repository and no driver error every insert
      succeeds. */
  lemma {:induction false} InsertAllSucceeds(db: Database, repoId: int, cs: seq<CommitInfo>, now: int,
                                             fs: seq<InsertFault>)
    requires WellFormed(db) && |fs| == |cs| && repoId in db.repos
    requires forall k :: 0 <= k < |fs| ==> fs[k] == NoFault
    ensures InsertAll(db, repoId, cs, now, fs).failedAt.None?
    decreases |cs|
  {
    if cs != [] {
      var n := |cs| - 1;
      assert forall k :: 0 <= k < n ==> fs[..n][k] == fs[k];
      InsertAllSucceeds(db, repoId, cs[..n], now, fs[..n]);
      var before := InsertAll(db, repoId, cs[..n], now, fs[..n]);
      var c := cs[n];
      assert InsertCommitOp(before.db, repoId, c.hash, c.author, c.subject, c.body, c.branch,
                            c.timestamp, now, fs[n]).ok;
    }
  }

  /** The insert loop only adds rows: every row stored before keeps its
      values. */
  lemma {:induction false} InsertAllKeepsRows(db: Database, repoId: int, cs: seq<CommitInfo>, now: int,
                                              fs: seq<InsertFault>)
    requires WellFormed(db) && |fs| == |cs|
    ensures forall h :: h in db.commits ==>
              h in InsertAll(db, repoId, cs, now, fs).db.commits
              && InsertAll(db, repoId, cs, now, fs).db.commits[h] == db.commits[h]
    decreases |cs|
  {
    if cs != [] {
      var n := |cs| - 1;
      InsertAllKeepsRows(db, repoId, cs[..n], now, fs[..n]);
      var before := InsertAll(db, repoId, cs[..n], now, fs[..n]);
      if before.failedAt.None? {
        var c := cs[n];
        var step := InsertCommitOp(before.db, repoId, c.hash, c.author, c.subject, c.body, c.branch,
                                   c.timestamp, now, fs[n]);
        assert InsertAll(db, repoId, cs, now, fs).db == step.db;
      } else {
        assert InsertAll(db, repoId, cs, now, fs) == before;
      }
    }
  }

  /** How many commits the insert loop got through: all of them, or those
      before the failing one. */
  function StoredCount(r: Inserted, n: nat): nat
  {
    if r.failedAt.Some? then r.failedAt.value else n
  }

  /** Every commit before the failing one, and every commit when none
      fails, is stored. */
  lemma {:induction false} InsertAllStoresPrefix(db: Database, repoId: int, cs: seq<CommitInfo>, now: int,
                                                 fs: seq<InsertFault>)
    requires WellFormed(db) && |fs| == |cs|
    ensures forall k :: 0 <= k < StoredCount(InsertAll(db, repoId, cs, now, fs), |cs|) ==>
              cs[k].hash in InsertAll(db, repoId, cs, now, fs).db.commits
    decreases |cs|
  {
    if cs != [] {
      var n := |cs| - 1;
      InsertAllStoresPrefix(db, repoId, cs[..n], now, fs[..n]);
      var before := InsertAll(db, repoId, cs[..n], now, fs[..n]);
      var r := InsertAll(db, repoId, cs, now, fs);
      if before.failedAt.Some? {
        assert r == before;
        forall k | 0 <= k < StoredCount(r, |cs|) ensures cs[k].hash in r.db.commits {
          assert cs[..n][k] == cs[k];
        }
      } else {
        var c := cs[n];
        var step := InsertCommitOp(before.db, repoId, c.hash, c.author, c.subject, c.body, c.branch,
                                   c.timestamp, now, fs[n]);
        assert r == Inserted(step.db, if step.ok then None else Some(n));
        assert StoredCount(r, |cs|) == if step.ok then n + 1 else n;
        HashesExtend(cs, n, before.db.commits.Keys, step.db.commits.Keys, step.ok);
      }
    }
  }

  /** One more insert step: the stored prefix grows by the new commit when
      its insert succeeded. */
  lemma HashesExtend(cs: seq<CommitInfo>, n: nat, before: set<string>, after: set<string>, ok: bool)
    requires n < |cs| && before <= after && (ok ==> cs[n].hash in after)
    requires forall k :: 0 <= k < n ==> cs[..n][k].hash in before
    ensures forall k :: 0 <= k < (if ok then n + 1 else n) ==> cs[k].hash in after
  {
    forall k | 0 <= k < (if ok then n + 1 else n) ensures cs[k].hash in after {
      if k < n {
        assert cs[..n][k] == cs[k];
      }
    }
  }

  /** A loop in which no insert fails keeps commits and review_state
      paired. */
  lemma {:induction false} InsertAllPairs(db: Database, repoId: int, cs: seq<CommitInfo>, now: int,
                                          fs: seq<InsertFault>)
    requires WellFormed(db) && |fs| == |cs| && Paired(db)
    requires InsertAll(db, repoId, cs, now, fs).failedAt.None?
    ensures Paired(InsertAll(db, repoId, cs, now, fs).db)
    decreases |cs|
  {
    if cs != [] {
      var n := |cs| - 1;
      var before := InsertAll(db, repoId, cs[..n], now, fs[..n]);
      assert before.failedAt.None?;
      InsertAllPairs(db, repoId, cs[..n], now, fs[..n]);
    }
  }

  /** One notification per commit of the batch, in batch order. */
  function Notices(cs: seq<CommitInfo>): (r: seq<Notification>)
    ensures |r| == |cs|
    ensures forall k :: 0 <= k < |cs| ==> r[k] == Notification("New commit", cs[k].subject)
  {
    seq(|cs|, k requires 0 <= k < |cs| => Notification("New commit", cs[k].subject))
  }

  /** What persistCommits leaves behind: the database, the message it
      reports and the notifications it sent. */
  datatype Persisted = Persisted(db: Database, msg: Msg, notified: seq<Notification>)

  /** persistCommits on the database value. */
  function Persist(db: Database, repoId: int, cs: seq<CommitInfo>, now: int, fs: seq<InsertFault>,
                   watermarkFault: bool, hasNotifier: bool): Persisted
    requires WellFormed(db) && |fs| == |cs| && cs != []
  {
    var ins := InsertAll(db, repoId, cs, now, fs);
    if ins.failedAt.Some? then Persisted(ins.db, ErrorMsg("insert commit"), [])
    else if watermarkFault then Persisted(ins.db, ErrorMsg("update last hash"), [])
    else Persisted(SetWatermark(ins.db, repoId, cs[|cs| - 1].hash), CommitsPersistedMsg(cs),
                   if hasNotifier then Notices(cs) else [])
  }

  /** persistCommits: insert every commit in order, then move the
      repository's watermark to the last one, then notify once per commit.
      The Go code reads `commits[len(commits)-1]`, so the batch must not be
      empty; both callers in model.go check that. */
  method PersistCommits(store: Store, repoId: int, commits: seq<CommitInfo>, now: int,
                        faults: seq<InsertFault>, watermarkFault: bool, hasNotifier: bool)
    returns (msg: Msg, notified: seq<Notification>)
    requires store.Valid() && |faults| == |commits| && commits != []
    modifies store
    ensures store.Valid()
    ensures var p := Persist(old(store.State()), repoId, commits, now, faults, watermarkFault, hasNotifier);
            store.State() == p.db && msg == p.msg && notified == p.notified
  {
    ghost var db0 := store.State();
    for i := 0 to |commits|
      invariant store.Valid()
      invariant InsertAll(db0, repoId, commits[..i], now, faults[..i]) == Inserted(store.State(), None)
    {
      var c := commits[i];
      assert commits[..i + 1][..i] == commits[..i] && faults[..i + 1][..i] == faults[..i];
      assert commits[..i + 1][i] == c && faults[..i + 1][i] == faults[i];
      ghost var before := store.State();
      var r := store.InsertCommit(repoId, c.hash, c.author, c.subject, c.body, c.branch, c.timestamp,
                                  now, faults[i]);
      ghost var step := InsertCommitOp(before, repoId, c.hash, c.author, c.subject, c.body, c.branch,
                                       c.timestamp, now, faults[i]);
      assert InsertAll(db0, repoId, commits[..i + 1], now, faults[..i + 1])
          == Inserted(step.db, if step.ok then None else Some(i));
      if r.Fail? {
        InsertAllKeepsFailure(db0, repoId, commits, now, faults, i + 1);
        assert InsertAll(db0, repoId, commits, now, faults) == Inserted(store.State(), Some(i));
        return ErrorMsg("insert commit"), [];
      }
    }
    assert commits[..|commits|] == commits && faults[..|faults|] == faults;
    assert InsertAll(db0, repoId, commits, now, faults) == Inserted(store.State(), None);
    var last := commits[|commits| - 1];
    var w := store.UpdateLastCommitHash(repoId, last.hash, watermarkFault);
    if w.Fail? {
      return ErrorMsg("update last hash"), [];
    }
    notified := [];
    if hasNotifier {
      notified := NotifyAll(commits);
    }
    msg := CommitsPersistedMsg(commits);
  }

  /** The notify loop of persistCommits: one Notify call per commit, in
      order, each recorded as the notification it sends. */
  method NotifyAll(commits: seq<CommitInfo>) returns (notified: seq<Notification>)
    ensures notified == Notices(commits)
  {
    notified := [];
    for i := 0 to |commits|
      invariant |notified| == i
      invariant forall k :: 0 <= k < i ==> notified[k] == Notification("New commit", commits[k].subject)
    {
      notified := notified + [Notification("New commit", commits[i].subject)];
    }
  }

  /** A batch for a registered repository with no driver error is stored
      whole: every hash is in the commits table (new ones paired with their
      review_state row, stored ones untouched), the repository's watermark
      is the hash of the last commit, and every commit is notified, stored
      before or not. */
  lemma PersistSucceeds(db: Database, repoId: int, cs: seq<CommitInfo>, now: int, fs: seq<InsertFault>,
                        hasNotifier: bool)
    requires WellFormed(db) && |fs| == |cs| && cs != [] && repoId in db.repos
    requires forall k :: 0 <= k < |fs| ==> fs[k] == NoFault
    ensures var p := Persist(db, repoId, cs, now, fs, false, hasNotifier);
            && p.msg == CommitsPersistedMsg(cs)
            && (forall k :: 0 <= k < |cs| ==> cs[k].hash in p.db.commits)
            && (forall h :: h in db.commits ==> h in p.db.commits && p.db.commits[h] == db.commits[h])
            && repoId in p.db.repos
            && p.db.repos[repoId] == db.repos[repoId].(lastCommitHash := cs[|cs| - 1].hash)
            && (Paired(db) ==> Paired(p.db))
            && p.notified == (if hasNotifier then Notices(cs) else [])
  {
    var ins := InsertAll(db, repoId, cs, now, fs);
    InsertAllSucceeds(db, repoId, cs, now, fs);
    InsertAllStoresPrefix(db, repoId, cs, now, fs);
    InsertAllKeepsRows(db, repoId, cs, now, fs);
    if Paired(db) {
      InsertAllPairs(db, repoId, cs, now, fs);
    }
    assert StoredCount(ins, |cs|) == |cs|;
    assert Persist(db, repoId, cs, now, fs, false, hasNotifier).db
        == SetWatermark(ins.db, repoId, cs[|cs| - 1].hash);
  }

  /** The first failing insert ends the run: the commits before it are
      stored, nothing already stored changed, the watermark stays where it
      was, and no notification goes out. */
  lemma PersistAbortsOnInsertError(db: Database, repoId: int, cs: seq<CommitInfo>, now: int,
                                   fs: seq<InsertFault>, watermarkFault: bool, hasNotifier: bool)
    requires WellFormed(db) && |fs| == |cs| && cs != []
    requires InsertAll(db, repoId, cs, now, fs).failedAt.Some?
    ensures var j := InsertAll(db, repoId, cs, now, fs).failedAt.value;
            var p := Persist(db, repoId, cs, now, fs, watermarkFault, hasNotifier);
            && p.msg.ErrorMsg? && p.notified == []
            && p.db.repos == db.repos
            && (forall k :: 0 <= k < j ==> cs[k].hash in p.db.commits)
            && (forall h :: h in db.commits ==> h in p.db.commits && p.db.commits[h] == db.commits[h])
  {
    var ins := InsertAll(db, repoId, cs, now, fs);
    InsertAllStoresPrefix(db, repoId, cs, now, fs);
    InsertAllKeepsRows(db, repoId, cs, now, fs);
    assert StoredCount(ins, |cs|) == ins.failedAt.value;
    assert Persist(db, repoId, cs, now, fs, watermarkFault, hasNotifier).db == ins.db;
  }

  /** A failed watermark update reports an error and notifies nobody; the
      inserted commits stay. */
  lemma PersistWatermarkError(db: Database, repoId: int, cs: seq<CommitInfo>, now: int,
                              fs: seq<InsertFault>, hasNotifier: bool)
    requires WellFormed(db) && |fs| == |cs| && cs != []
    ensures var ins := InsertAll(db, repoId, cs, now, fs);
            var p := Persist(db, repoId, cs, now, fs, true, hasNotifier);
            && p.msg.ErrorMsg? && p.notified == [] && p.db == ins.db && p.db.repos == db.repos
  {
  }

  // ---------------------------------------------------------------------
  // seedCommits and readNewCommits

  /** seedCommits: look the configured repository up by path; with an empty
      watermark seed the newest `SeedDepth` commits, otherwise read the
      commits since the watermark.  Every failure reports an empty batch. */
  method SeedCommitsCmd(store: Store, cfg: Cfg.Config, env: Cfg.Env, repo: Option<Repo>,
                        lookupFault: bool) returns (msg: Msg)
    requires store.Valid()
    ensures msg.SeedDoneMsg?
    ensures var path := Cfg.ExpandHome(cfg.repoPath, env);
            repo.None? || lookupFault || !Registered(store.State(), path) ==> msg == SeedDoneMsg([])
    ensures var path := Cfg.ExpandHome(cfg.repoPath, env);
            repo.Some? && !lookupFault && Registered(store.State(), path) ==>
              var read := Read(repo.value, Lookup(store.State(), path).value.lastCommitHash, cfg.seedDepth);
              msg == SeedDoneMsg(if read.Ok? then read.value else [])
  {
    if repo.None? {
      return SeedDoneMsg([]);
    }
    var path := Cfg.ExpandHome(cfg.repoPath, env);
    var r := store.GetRepoByPath(path, lookupFault);
    if r.Err? || r.value.None? {
      return SeedDoneMsg([]);
    }
    var commits: Result<seq<CommitInfo>>;
    if r.value.value.lastCommitHash == "" {
      commits := SeedCommits(repo.value, cfg.seedDepth);
    } else {
      commits := ReadNewCommits(repo.value, r.value.value.lastCommitHash, cfg.seedDepth);
    }
    if commits.Err? || |commits.value| == 0 {
      return SeedDoneMsg([]);
    }
    msg := SeedDoneMsg(commits.value);
  }

  /** readNewCommits: read the commits since the repository's watermark.  A
      missing repository handle or row reports an empty batch; a read error
      is reported as an error. */
  method ReadNewCommitsCmd(store: Store, cfg: Cfg.Config, env: Cfg.Env, repo: Option<Repo>,
                           lookupFault: bool) returns (msg: Msg)
    requires store.Valid()
    ensures var path := Cfg.ExpandHome(cfg.repoPath, env);
            repo.None? || lookupFault || !Registered(store.State(), path) ==> msg == NewCommitsMsg([])
    ensures var path := Cfg.ExpandHome(cfg.repoPath, env);
            repo.Some? && !lookupFault && Registered(store.State(), path) ==>
              match Read(repo.value, Lookup(store.State(), path).value.lastCommitHash, cfg.seedDepth)
              case Ok(cs) => msg == NewCommitsMsg(cs)
              case Err(e) => msg == ErrorMsg(e)
  {
    if repo.None? {
      return NewCommitsMsg([]);
    }
    var path := Cfg.ExpandHome(cfg.repoPath, env);
    var r := store.GetRepoByPath(path, lookupFault);
    if r.Err? || r.value.None? {
      return NewCommitsMsg([]);
    }
    var commits := ReadNewCommits(repo.value, r.value.value.lastCommitHash, cfg.seedDepth);
    if commits.Err? {
      return ErrorMsg(commits.error);
    }
    msg := NewCommitsMsg(commits.value);
  }

  /** The two branches of seedCommits read the same thing: seeding is
      reading since the empty hash, which the walk never meets, so both are
      the batch since the watermark, at most `SeedDepth` long, and without
      the watermark commit or anything older. */
  lemma SeedIsReadSinceWatermark(repo: Repo, watermark: string, depth: int, j: nat)
    requires j < |repo.history| && repo.history[j].hash == watermark
    ensures var read := if watermark == "" then Read(repo, "", depth) else Read(repo, watermark, depth);
            && read == Read(repo, watermark, depth)
            && (read.Ok? ==> |read.value| <= Max(depth, 0) && |read.value| <= j
                             && forall k :: 0 <= k < |read.value| ==> read.value[k].hash != watermark)
  {
    ReadBounded(repo, watermark, depth);
    if Read(repo, watermark, depth).Ok? {
      ReadStopsBeforeSince(repo, watermark, depth, j);
    }
  }

  // ---------------------------------------------------------------------
  // updateReview, loadCommits, initRepo

  /** updateReview: set the status of a commit with an empty note, so that
      any note it had is erased. */
  method UpdateReview(store: Store, hash: string, status: string, now: int, fault: bool) returns (msg: Msg)
    requires store.Valid()
    modifies store
    ensures store.Valid()
    ensures store.State() == UpdateReviewOp(old(store.State()), hash, status, "", now, fault).db
    ensures msg == if fault then ErrorMsg("update review status") else ReviewUpdatedMsg(hash, status)
    ensures !fault && hash in old(store.reviews) ==>
              store.reviews[hash].status == status && store.reviews[hash].note == ""
  {
    var r := store.UpdateReviewStatus(hash, status, "", now, fault);
    if r.Fail? {
      return ErrorMsg("update review status");
    }
    msg := ReviewUpdatedMsg(hash, status);
  }

  /** loadCommits: every commit of the repository, newest first, and its
      counts per status. */
  method LoadCommits(store: Store, repoId: int, listFault: bool, statsFault: bool) returns (msg: Msg)
    requires store.Valid()
    ensures msg.ErrorMsg? <==> listFault || statsFault
    ensures msg.CommitsLoadedMsg? ==>
              IsListing(store.State(), {repoId}, FilterAll, msg.rows)
              && msg.stats == StatsOf(store.State(), {repoId})
  {
    var rows := store.ListCommits(repoId, FilterAll, listFault);
    if rows.Err? {
      return ErrorMsg(rows.error);
    }
    var stats := store.GetStats(repoId, statsFault);
    if stats.Err? {
      return ErrorMsg(stats.error);
    }
    msg := CommitsLoadedMsg(rows.value, stats.value);
  }

  /** `name` is what follows the last '/' of `path`, or all of `path` when
      it has none. */
  predicate LastSegment(path: string, name: string)
  {
    if '/' in path then
      && |name| < |path| && '/' !in name
      && path[|path| - |name| - 1] == '/' && name == path[|path| - |name|..]
    else name == path
  }

  /** repoName: scan back from the end for the last '/'. */
  method RepoName(path: string) returns (name: string)
    ensures LastSegment(path, name)
    ensures |name| <= |path|
  {
    var i := |path| - 1;
    while i >= 0
      invariant -1 <= i < |path|
      invariant '/' !in path[i + 1..]
      decreases i + 1
    {
      if path[i] == '/' {
        assert path[|path| - |path[i + 1..]|..] == path[i + 1..];
        return path[i + 1..];
      }
      assert path[i..] == [path[i]] + path[i + 1..];
      i := i - 1;
    }
    assert path[0..] == path;
    name := path;
  }

  /** A path has one last segment. */
  lemma LastSegmentUnique(path: string, a: string, b: string)
    requires LastSegment(path, a) && LastSegment(path, b)
    ensures a == b
  {
  }

  /** A trailing '/' leaves an empty name; the last segment of a nested
      path is its final directory. */
  lemma LastSegmentExamples()
    ensures LastSegment("/home/me/apollo", "apollo")
    ensures LastSegment("/home/me/apollo/", "")
    ensures LastSegment("apollo", "apollo")
  {
    assert "/home/me/apollo"[8] == '/';
    assert "/home/me/apollo/"[15] == '/';
    assert "/home/me/apollo"[9..] == "apollo";
    assert "/home/me/apollo/"[16..] == "";
    assert forall k :: 0 <= k < 6 ==> "apollo"[k] != '/';
  }

  /** initRepo: register the configured repository (once it opens) under
      its last path segment, and report the id UpsertRepo returns.  That is
      the path's own id whenever the path is new or no insert came before on
      the connection, as on the program's one call, right after Open. */
  method InitRepo(store: Store, cfg: Cfg.Config, env: Cfg.Env, openResult: Option<Repo>, now: int,
                  fault: UpsertFault) returns (msg: Msg)
    requires store.Valid()
    modifies store
    ensures store.Valid()
    ensures openResult.None? ==> msg.ErrorMsg? && store.State() == old(store.State())
    ensures openResult.Some? && fault == ExecFails ==> msg.ErrorMsg? && store.State() == old(store.State())
    ensures var path := Cfg.ExpandHome(cfg.repoPath, env);
            openResult.Some? ==>
              (msg.ErrorMsg? <==>
                 fault == ExecFails
                 || (fault == ReadBackFails && Registered(old(store.State()), path) && old(store.lastInsertId) == 0))
    ensures var path := Cfg.ExpandHome(cfg.repoPath, env);
            openResult.Some? && fault != ExecFails ==>
              && Lookup(store.State(), path).Some?
              && LastSegment(path, Lookup(store.State(), path).value.name)
              && store.commits == old(store.commits) && store.reviews == old(store.reviews)
              && store.events == old(store.events)
    ensures var path := Cfg.ExpandHome(cfg.repoPath, env);
            msg.RepoInitializedMsg? ==>
              && openResult.Some? && msg.repo == openResult.value
              && msg.repoId == if Registered(old(store.State()), path) && old(store.lastInsertId) != 0
                               then old(store.lastInsertId)
                               else Lookup(store.State(), path).value.id
    ensures var path := Cfg.ExpandHome(cfg.repoPath, env);
            msg.RepoInitializedMsg? && old(store.lastInsertId) == 0 ==> Lookup(store.State(), path).value.id == msg.repoId
  {
    var path := Cfg.ExpandHome(cfg.repoPath, env);
    if openResult.None? {
      return ErrorMsg("open repo");
    }
    var name := RepoName(path);
    var id := store.UpsertRepoAsWritten(name, path, now, fault);
    if id.Err? {
      return ErrorMsg("upsert repo");
    }
    msg := RepoInitializedMsg(id.value, openResult.value);
  }

  // ---------------------------------------------------------------------
  // Dispatch (model.go, Update)

  /** The commands Update starts in answer to a message. */
  datatype Task =
    | SeedTask
    | PersistTask(commits: seq<CommitInfo>)
    | LoadTask
    | StartWatcherTask
    | ListenWatcherTask
    | ReadNewTask

  /** The ingestion branches of Update: which commands follow which message.
      A persist command is only ever started for a non-empty batch, which
      is what PersistCommits needs. */
  function Reaction(msg: Msg): (r: seq<Task>)
    ensures forall k :: 0 <= k < |r| && r[k].PersistTask? ==> r[k].commits != []
    ensures msg.SeedDoneMsg? ==> StartWatcherTask in r
    ensures (msg.CommitsPersistedMsg? || msg.ReviewUpdatedMsg?) ==> r == [LoadTask]
    ensures (msg.SeedDoneMsg? || msg.NewCommitsMsg?) && msg.commits != [] ==> PersistTask(msg.commits) in r
    ensures msg.NewCommitsMsg? && msg.commits == [] ==> r == []
  {
    match msg
    case RepoInitializedMsg(_, _) => [SeedTask]
    case SeedDoneMsg(cs) =>
      if |cs| > 0 then [PersistTask(cs), StartWatcherTask] else [LoadTask, StartWatcherTask]
    case WatcherEventMsg => [ReadNewTask, ListenWatcherTask]
    case NewCommitsMsg(cs) => if |cs| == 0 then [] else [PersistTask(cs)]
    case CommitsPersistedMsg(_) => [LoadTask]
    case CommitsLoadedMsg(_, _) => []
    case ReviewUpdatedMsg(_, _) => [LoadTask]
    case ErrorMsg(_) => []
  }
}
