/** The history reader of internal/git/repo.go.

    go-git is not part of this model.  An opened repository is its HEAD
    reference name (or the failure to resolve HEAD), the commits its log
    iterator yields from HEAD in walk order (newest first), and where that
    iterator fails, if anywhere. */
module GitRepo {
  import opened Common
  import opened GoStrings

  /** A commit object as the log iterator yields it. */
  datatype RawCommit = RawCommit(
    hash: string,
    authorName: string,
    message: string,
    when: int,
    parents: seq<string>)

  /** Go's `git.CommitInfo` (internal/git/types.go). */
  datatype CommitInfo = CommitInfo(
    hash: string,
    author: string,
    subject: string,
    body: string,
    branch: string,
    timestamp: int,
    parents: seq<string>)

  /** An opened repository: `head` is the name of the reference HEAD
      resolves to (None when `Head()` errors); `history` is what
      `Log(From: HEAD)` walks, newest first; `logFails` says `Log` itself
      errors; `walkFailsAt = Some(k)` says the iterator errors instead of
      yielding `history[k]` (or instead of ending, when k = |history|). */
  datatype Repo = Repo(
    head: Option<string>,
    history: seq<RawCommit>,
    logFails: bool,
    walkFailsAt: Option<nat>)

  const HeadsPrefix: string := "refs/heads/"

  /** CurrentBranch: the branch name of HEAD's reference, the full reference
      name when it is not a branch, and "unknown" when HEAD cannot be
      resolved. */
  function CurrentBranch(repo: Repo): (b: string)
    ensures repo.head.None? ==> b == "unknown"
    ensures repo.head.Some? && HeadsPrefix <= repo.head.value ==> HeadsPrefix + b == repo.head.value
    ensures repo.head.Some? && !(HeadsPrefix <= repo.head.value) ==> b == repo.head.value
  {
    match repo.head
    case None => "unknown"
    case Some(name) => if HeadsPrefix <= name then TrimPrefix(name, HeadsPrefix) else name
  }

  /** splitMessage: the subject is the trimmed text before the first newline
      and the body the trimmed text after it ("" when there is no newline). */
  function SplitMessage(msg: string): (r: (string, string))
    ensures '\n' !in r.0
    ensures '\n' !in msg ==> r == (TrimSpace(msg), "")
  {
    var i := IndexByte(msg, '\n');
    if i < 0 then
      TrimSpaceKeepsBytes(msg);
      (TrimSpace(msg), "")
    else
      TrimSpaceKeepsBytes(msg[..i]);
      (TrimSpace(msg[..i]), TrimSpace(msg[i + 1..]))
  }

  /** The record the walk builds for one commit. */
  function ToInfo(c: RawCommit, branch: string): CommitInfo
  {
    var (subject, body) := SplitMessage(TrimSpace(c.message));
    CommitInfo(c.hash, c.authorName, subject, body, branch, c.when, c.parents)
  }

  lemma ToInfoKeepsHashAndBranch(c: RawCommit, branch: string)
    ensures ToInfo(c, branch).hash == c.hash && ToInfo(c, branch).branch == branch
  {
  }

  function Converted(h: seq<RawCommit>, branch: string): (r: seq<CommitInfo>)
    ensures |r| == |h| && forall k :: 0 <= k < |h| ==> r[k] == ToInfo(h[k], branch)
  {
    seq(|h|, k requires 0 <= k < |h| => ToInfo(h[k], branch))
  }

  /** `s` back to front. */
  function Reversed<T>(s: seq<T>): (r: seq<T>)
    ensures |r| == |s| && forall k :: 0 <= k < |s| ==> r[k] == s[|s| - 1 - k]
  {
    seq(|s|, k requires 0 <= k < |s| => s[|s| - 1 - k])
  }

  /** The callback lets the walk go on past index `k`: that commit is not
      the stop hash and fewer than `limit` commits are collected before it. */
  predicate Continues(h: seq<RawCommit>, since: string, limit: int, k: int)
  {
    0 <= k < |h| && h[k].hash != since && k < limit
  }

  /** Where the walk callback, started at index `i`, returns errStop: at the
      first commit that is `since`, or once `limit` commits are collected;
      |h| when neither happens. */
  function WalkEnd(h: seq<RawCommit>, since: string, limit: int, i: nat): (e: nat)
    requires i <= |h|
    ensures i <= e <= |h|
    ensures forall k :: i <= k < e ==> Continues(h, since, limit, k)
    ensures !Continues(h, since, limit, e)
    decreases |h| - i
  {
    if i == |h| || h[i].hash == since || i >= limit then i
    else
      var e := WalkEnd(h, since, limit, i + 1);
      e
  }

  /** What ReadNewCommits returns: an error when HEAD, the log or the walk
      fails before the callback stops it; otherwise the collected commits,
      oldest first. */
  function Read(repo: Repo, since: string, limit: int): Result<seq<CommitInfo>>
  {
    if repo.head.None? then Err("head: reference not found")
    else if repo.logFails then Err("log: cannot walk history")
    else
      var e := WalkEnd(repo.history, since, limit, 0);
      if repo.walkFailsAt.Some? && repo.walkFailsAt.value <= e then Err("object not found")
      else Ok(Reversed(Converted(repo.history[..e], CurrentBranch(repo))))
  }

  /** ReadNewCommits(sinceHash, limit): walk from HEAD collecting commits
      until `sinceHash` or `limit`, then reverse the collection in place. */
  method ReadNewCommits(repo: Repo, sinceHash: string, limit: int) returns (r: Result<seq<CommitInfo>>)
    ensures r == Read(repo, sinceHash, limit)
  {
    if repo.head.None? {
      return Err("head: reference not found");
    }
    var branch := CurrentBranch(repo);
    if repo.logFails {
      return Err("log: cannot walk history");
    }
    var commits, ok := Walk(repo.history, repo.walkFailsAt, sinceHash, limit, c => ToInfo(c, branch));
    if !ok {
      return Err("object not found");
    }
    assert commits == Converted(repo.history[..|commits|], branch);
    var a := new CommitInfo[|commits|](k requires 0 <= k < |commits| => commits[k]);
    assert a[..] == commits;
    Reverse(a);
    r := Ok(a[..]);
  }

  /** The `iter.ForEach` callback loop: stop at `sinceHash` or after `limit`
      commits, else append the record `record` builds for the commit; `ok`
      is false when the iterator fails before the callback stops it. */
  method Walk(h: seq<RawCommit>, walkFailsAt: Option<nat>, sinceHash: string, limit: int,
              record: RawCommit -> CommitInfo)
    returns (commits: seq<CommitInfo>, ok: bool)
    ensures var e := WalkEnd(h, sinceHash, limit, 0);
            && ok == !(walkFailsAt.Some? && walkFailsAt.value <= e)
            && (ok ==> |commits| == e && forall k :: 0 <= k < e ==> commits[k] == record(h[k]))
  {
    commits := [];
    var i := 0;
    var stopped := false;
    while i < |h| && !stopped
      invariant 0 <= i <= |h|
      invariant forall k :: 0 <= k < i ==> Continues(h, sinceHash, limit, k)
      invariant stopped ==> !Continues(h, sinceHash, limit, i)
      invariant walkFailsAt.Some? ==> i <= walkFailsAt.value
      invariant stopped ==> walkFailsAt != Some(i)
      invariant |commits| == i && forall k :: 0 <= k < i ==> commits[k] == record(h[k])
      decreases |h| - i, if stopped then 0 else 1
    {
      if walkFailsAt == Some(i) {
        assert !Continues(h, sinceHash, limit, WalkEnd(h, sinceHash, limit, 0));
        return commits, false;
      }
      var c := h[i];
      if c.hash == sinceHash || |commits| >= limit {
        stopped := true;
      } else {
        commits := commits + [record(c)];
        i := i + 1;
      }
    }
    WalkEndFrom(h, sinceHash, limit, 0, i);
    ok := !(walkFailsAt == Some(|h|) && !stopped);
  }

  /** From `i`, the walk runs to the first index where the callback says stop. */
  lemma {:induction false} WalkEndFrom(h: seq<RawCommit>, since: string, limit: int, i: nat, e: nat)
    requires i <= e <= |h|
    requires forall k :: i <= k < e ==> Continues(h, since, limit, k)
    requires !Continues(h, since, limit, e)
    ensures WalkEnd(h, since, limit, i) == e
    decreases e - i
  {
    if i < e {
      assert Continues(h, since, limit, i);
      WalkEndFrom(h, since, limit, i + 1, e);
    }
  }

  /** SeedCommits(n): ReadNewCommits with an empty stop hash. */
  method SeedCommits(repo: Repo, n: int) returns (r: Result<seq<CommitInfo>>)
    ensures r == Read(repo, "", n)
  {
    r := ReadNewCommits(repo, "", n);
  }

  /** reverse: swap from both ends towards the middle. */
  method Reverse(a: array<CommitInfo>)
    modifies a
    ensures a[..] == Reversed(old(a[..]))
  {
    var i, j := 0, a.Length - 1;
    while i < j
      invariant 0 <= i <= a.Length && j == a.Length - 1 - i
      invariant forall k :: 0 <= k < i ==> a[k] == old(a[a.Length - 1 - k]) && a[a.Length - 1 - k] == old(a[k])
      invariant forall k :: i <= k <= j ==> a[k] == old(a[k])
    {
      a[i], a[j] := a[j], a[i];
      i, j := i + 1, j - 1;
    }
  }

  // ---------------------------------------------------------------------
  // Properties

  /** Reversing twice gives back the sequence. */
  lemma ReversedTwice<T>(s: seq<T>)
    ensures Reversed(Reversed(s)) == s
  {
  }

  /** The branch of a `refs/heads/` reference is the rest of its name, and
      any other reference name is returned unchanged. */
  lemma BranchOfReference(name: string, history: seq<RawCommit>, logFails: bool, walkFailsAt: Option<nat>)
    ensures CurrentBranch(Repo(Some(HeadsPrefix + name), history, logFails, walkFailsAt)) == name
    ensures !(HeadsPrefix <= name) ==> CurrentBranch(Repo(Some(name), history, logFails, walkFailsAt)) == name
  {
    var b := CurrentBranch(Repo(Some(HeadsPrefix + name), history, logFails, walkFailsAt));
    assert HeadsPrefix + b == HeadsPrefix + name;
    assert b == (HeadsPrefix + b)[|HeadsPrefix|..];
  }

  /** A message split at its first newline gives back both trimmed parts. */
  lemma SplitAtFirstNewline(subject: string, body: string)
    requires '\n' !in subject
    ensures SplitMessage(subject + "\n" + body) == (TrimSpace(subject), TrimSpace(body))
  {
    var msg := subject + "\n" + body;
    assert msg[|subject|] == '\n';
    assert msg[..|subject|] == subject;
    assert msg[|subject| + 1..] == body;
    assert forall k :: 0 <= k < |subject| ==> msg[k] == subject[k] && msg[k] != '\n';
    assert IndexByte(msg, '\n') == |subject|;
  }

  /** At most `max(limit, 0)` commits come back; a limit of zero or less
      gives none. */
  lemma ReadBounded(repo: Repo, since: string, limit: int)
    ensures Read(repo, since, limit).Ok? ==> |Read(repo, since, limit).value| <= Max(limit, 0)
    ensures limit <= 0 && Read(repo, since, limit).Ok? ==> Read(repo, since, limit).value == []
  {
    var e := WalkEnd(repo.history, since, limit, 0);
    if e > 0 {
      assert Continues(repo.history, since, limit, e - 1);
    }
  }

  /** The result is the collected walk prefix back to front: oldest first,
      the commit HEAD points at last, each carrying the branch computed once
      beforehand. */
  lemma ReadIsReversedPrefix(repo: Repo, since: string, limit: int)
    requires Read(repo, since, limit).Ok?
    ensures var rs := Read(repo, since, limit).value;
            && |rs| <= |repo.history|
            && (forall k :: 0 <= k < |rs| ==> rs[k] == ToInfo(repo.history[|rs| - 1 - k], CurrentBranch(repo)))
            && (rs != [] ==> rs[|rs| - 1] == ToInfo(repo.history[0], CurrentBranch(repo)))
            && (forall k :: 0 <= k < |rs| ==> rs[k].branch == CurrentBranch(repo))
  {
  }

  /** The stop hash and everything the walk reaches after it are left out. */
  lemma ReadStopsBeforeSince(repo: Repo, since: string, limit: int, j: nat)
    requires Read(repo, since, limit).Ok?
    requires j < |repo.history| && repo.history[j].hash == since
    ensures var rs := Read(repo, since, limit).value;
            |rs| <= j && forall k :: 0 <= k < |rs| ==> rs[k].hash != since
  {
    var h := repo.history;
    var e := WalkEnd(h, since, limit, 0);
    assert !Continues(h, since, limit, j);
    var rs := Read(repo, since, limit).value;
    forall k | 0 <= k < |rs| ensures rs[k].hash != since {
      assert Continues(h, since, limit, e - 1 - k);
      ToInfoKeepsHashAndBranch(h[e - 1 - k], CurrentBranch(repo));
    }
  }

  /** An unresolvable HEAD is an error. */
  lemma ReadWithoutHead(repo: Repo, since: string, limit: int)
    requires repo.head.None?
    ensures Read(repo, since, limit).Err? && CurrentBranch(repo) == "unknown"
  {
  }

  /** With no hash empty, seeding never stops at a hash: it returns the
      newest `n` commits (all of them when fewer), oldest first. */
  lemma {:induction false} SeedTakesNewest(repo: Repo, n: int)
    requires repo.head.Some? && !repo.logFails && repo.walkFailsAt.None?
    requires forall k :: 0 <= k < |repo.history| ==> repo.history[k].hash != ""
    ensures Read(repo, "", n) == Ok(Reversed(Converted(repo.history[..Min(Max(n, 0), |repo.history|)], CurrentBranch(repo))))
  {
    SeedEnd(repo.history, n, 0);
  }

  lemma {:induction false} SeedEnd(h: seq<RawCommit>, n: int, i: nat)
    requires i <= Min(Max(n, 0), |h|)
    requires forall k :: 0 <= k < |h| ==> h[k].hash != ""
    ensures WalkEnd(h, "", n, i) == Min(Max(n, 0), |h|)
    decreases |h| - i
  {
    if i < Min(Max(n, 0), |h|) {
      SeedEnd(h, n, i + 1);
    }
  }

  /** Reading since HEAD's own commit returns nothing. */
  lemma ReadSinceTip(repo: Repo, limit: int)
    requires repo.head.Some? && !repo.logFails && repo.walkFailsAt.None? && |repo.history| > 0
    ensures Read(repo, repo.history[0].hash, limit) == Ok([])
  {
  }

  /** Five commits A..E, newest E first in the walk: seeding three gives
      C, D, E. */
  lemma SeedThreeOfFive(repo: Repo)
    requires repo.head.Some? && !repo.logFails && repo.walkFailsAt.None? && |repo.history| == 5
    requires forall k :: 0 <= k < 5 ==> repo.history[k].hash != ""
    ensures var rs, branch := Read(repo, "", 3), CurrentBranch(repo);
            && rs.Ok? && |rs.value| == 3
            && rs.value[0] == ToInfo(repo.history[2], branch)
            && rs.value[1] == ToInfo(repo.history[1], branch)
            && rs.value[2] == ToInfo(repo.history[0], branch)
  {
    assert Read(repo, "", 3).Ok? && |Read(repo, "", 3).value| == 3 by {
      SeedTakesNewest(repo, 3);
      assert Min(Max(3, 0), 5) == 3;
    }
    ReadIsReversedPrefix(repo, "", 3);
  }

  /** Of five commits with distinct hashes, reading since the third oldest
      (the one seeding places at index 2) gives the two newer ones. */
  lemma ReadSinceThirdOfFive(repo: Repo)
    requires repo.head.Some? && !repo.logFails && repo.walkFailsAt.None? && |repo.history| == 5
    requires forall k :: 0 <= k < 5 ==> repo.history[k].hash != ""
    requires forall a, b :: 0 <= a < b < 5 ==> repo.history[a].hash != repo.history[b].hash
    ensures Read(repo, "", 50).Ok? && Read(repo, "", 50).value[2].hash == repo.history[2].hash
    ensures var rs := Read(repo, repo.history[2].hash, 50);
            rs.Ok? && |rs.value| == 2 && rs.value[0].hash == repo.history[1].hash && rs.value[1].hash == repo.history[0].hash
  {
    SeedTakesNewest(repo, 50);
    var h := repo.history;
    assert WalkEnd(h, h[2].hash, 50, 2) == 2;
    assert WalkEnd(h, h[2].hash, 50, 0) == 2;
  }
}
