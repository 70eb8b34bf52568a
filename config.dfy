/** Repository path resolution of internal/config/config.go.

    The home directory and `filepath.Join` are not modelled: they are the
    environment's `home` (None when `os.UserHomeDir` fails) and its `join`. */
module Config {
  import opened Common
  import opened GoStrings

  /** Go's `config.Config`. */
  datatype Config = Config(
    repoPath: string,
    repoPaths: seq<string>,
    seedDepth: int,
    debounceMs: int)

  /** What ExpandHome asks of the process: the home directory and how
      paths are joined. */
  datatype Env = Env(home: Option<string>, join: (string, string) -> string)

  /** Defaults: seed 50 commits, debounce 300 ms, no repository paths. */
  function Defaults(): (c: Config)
    ensures c.seedDepth == 50 && c.debounceMs == 300
    ensures c.repoPath == "" && c.repoPaths == []
  {
    Config("", [], 50, 300)
  }

  /** ExpandHome: a leading `~` is replaced by the home directory; any other
      path, the empty one, and every path when the home directory is
      unknown, stay as they are. */
  function ExpandHome(path: string, env: Env): (r: string)
    ensures (|path| == 0 || path[0] != '~') ==> r == path
    ensures env.home.None? ==> r == path
    ensures |path| > 0 && path[0] == '~' && env.home.Some? ==> r == env.join(env.home.value, path[1..])
  {
    if |path| == 0 || path[0] != '~' then path
    else match env.home
      case None => path
      case Some(home) => env.join(home, path[1..])
  }

  /** The form `add` gives a configured path before looking at it. */
  function Normalize(p: string, env: Env): string
  {
    ExpandHome(TrimSpace(p), env)
  }

  /** The paths ResolvedPaths hands to `add`, in order. */
  function Candidates(c: Config): seq<string>
  {
    (if c.repoPath != "" then [c.repoPath] else []) + c.repoPaths
  }

  /** What a run of `add` over `ps` appends when the paths in `seen` are
      already taken: each normalized path that is neither empty nor taken,
      taking it. */
  function Kept(ps: seq<string>, env: Env, seen: set<string>): seq<string>
    decreases |ps|
  {
    if ps == [] then []
    else
      var q := Normalize(ps[0], env);
      if q == "" || q in seen then Kept(ps[1..], env, seen)
      else [q] + Kept(ps[1..], env, seen + {q})
  }

  /** ResolvedPaths as a value: every candidate's first occurrence. */
  function Resolved(c: Config, env: Env): seq<string>
  {
    Kept(Candidates(c), env, {})
  }

  /** The `add` closure: normalize, then append unless empty or seen. */
  method Add(p: string, env: Env, seen: set<string>, result: seq<string>)
    returns (seen': set<string>, result': seq<string>)
    ensures var q := Normalize(p, env);
            if q == "" || q in seen then seen' == seen && result' == result
            else seen' == seen + {q} && result' == result + [q]
  {
    var q := ExpandHome(TrimSpace(p), env);
    if q == "" {
      return seen, result;
    }
    if q in seen {
      return seen, result;
    }
    seen' := seen + {q};
    result' := result + [q];
  }

  /** ResolvedPaths: RepoPath (when set), then each of RepoPaths, through
      `add` with one `seen` set. */
  method ResolvedPaths(c: Config, env: Env) returns (result: seq<string>)
    ensures result == Resolved(c, env)
  {
    var seen: set<string> := {};
    result := [];
    if c.repoPath != "" {
      assert Candidates(c)[1..] == c.repoPaths;
      seen, result := Add(c.repoPath, env, seen, result);
    } else {
      assert Candidates(c) == c.repoPaths;
    }
    assert result + Kept(c.repoPaths, env, seen) == Resolved(c, env);
    for i := 0 to |c.repoPaths|
      invariant result + Kept(c.repoPaths[i..], env, seen) == Resolved(c, env)
    {
      assert c.repoPaths[i..][1..] == c.repoPaths[i + 1..];
      seen, result := Add(c.repoPaths[i], env, seen, result);
    }
    assert c.repoPaths[|c.repoPaths|..] == [];
  }

  // ---------------------------------------------------------------------
  // Properties

  /** The kept paths are distinct, non-empty and none of them was taken
      before. */
  lemma {:induction false} KeptDistinct(ps: seq<string>, env: Env, seen: set<string>)
    ensures forall i, j :: 0 <= i < j < |Kept(ps, env, seen)| ==> Kept(ps, env, seen)[i] != Kept(ps, env, seen)[j]
    ensures forall i :: 0 <= i < |Kept(ps, env, seen)| ==> Kept(ps, env, seen)[i] != "" && Kept(ps, env, seen)[i] !in seen
    decreases |ps|
  {
    if ps != [] {
      var q := Normalize(ps[0], env);
      if q == "" || q in seen {
        KeptDistinct(ps[1..], env, seen);
        assert Kept(ps, env, seen) == Kept(ps[1..], env, seen);
      } else {
        KeptDistinct(ps[1..], env, seen + {q});
        var rest := Kept(ps[1..], env, seen + {q});
        assert Kept(ps, env, seen) == [q] + rest;
        assert forall i :: 0 <= i < |rest| ==> rest[i] != q;
      }
    }
  }

  /** A path is kept exactly when some candidate normalizes to it and it is
      neither empty nor taken before. */
  lemma {:induction false} KeptMembers(ps: seq<string>, env: Env, seen: set<string>, x: string)
    ensures x in Kept(ps, env, seen) <==>
            x != "" && x !in seen && exists k :: 0 <= k < |ps| && Normalize(ps[k], env) == x
    decreases |ps|
  {
    if ps != [] {
      var q := Normalize(ps[0], env);
      var seen' := if q == "" || q in seen then seen else seen + {q};
      KeptMembers(ps[1..], env, seen', x);
      if exists k :: 0 <= k < |ps| && Normalize(ps[k], env) == x {
        var k :| 0 <= k < |ps| && Normalize(ps[k], env) == x;
        if k > 0 {
          assert Normalize(ps[1..][k - 1], env) == x;
        }
      }
      if exists k :: 0 <= k < |ps[1..]| && Normalize(ps[1..][k], env) == x {
        var k :| 0 <= k < |ps[1..]| && Normalize(ps[1..][k], env) == x;
        assert Normalize(ps[k + 1], env) == x;
      }
    }
  }

  /** At most one path per candidate. */
  lemma {:induction false} KeptLength(ps: seq<string>, env: Env, seen: set<string>)
    ensures |Kept(ps, env, seen)| <= |ps|
    decreases |ps|
  {
    if ps != [] {
      var q := Normalize(ps[0], env);
      KeptLength(ps[1..], env, if q == "" || q in seen then seen else seen + {q});
    }
  }

  /** The index of the first candidate that normalizes to `x` (|ps| when
      none does). */
  function FirstAt(ps: seq<string>, env: Env, x: string): (k: nat)
    ensures k <= |ps|
    ensures forall j :: 0 <= j < k ==> Normalize(ps[j], env) != x
    ensures k < |ps| ==> Normalize(ps[k], env) == x
    decreases |ps|
  {
    if ps == [] then 0
    else if Normalize(ps[0], env) == x then 0
    else
      var k := FirstAt(ps[1..], env, x);
      assert forall j :: 1 <= j < k + 1 ==> ps[j] == ps[1..][j - 1];
      k + 1
  }

  /** The kept paths come in the order of their first occurrences. */
  lemma {:induction false} KeptInFirstOccurrenceOrder(ps: seq<string>, env: Env, seen: set<string>)
    ensures forall i, j :: 0 <= i < j < |Kept(ps, env, seen)| ==>
              FirstAt(ps, env, Kept(ps, env, seen)[i]) < FirstAt(ps, env, Kept(ps, env, seen)[j])
    decreases |ps|
  {
    if ps != [] {
      var q := Normalize(ps[0], env);
      var seen' := if q == "" || q in seen then seen else seen + {q};
      var rest := Kept(ps[1..], env, seen');
      KeptInFirstOccurrenceOrder(ps[1..], env, seen');
      KeptDistinct(ps[1..], env, seen');
      assert Kept(ps, env, seen) == if seen' == seen then rest else [q] + rest;
      assert forall i :: 0 <= i < |rest| ==> rest[i] != q && rest[i] !in seen';
      assert forall i :: 0 <= i < |rest| ==> FirstAt(ps, env, rest[i]) == FirstAt(ps[1..], env, rest[i]) + 1;
    }
  }

  /** ResolvedPaths holds no path twice and no empty path. */
  lemma ResolvedDistinctNonEmpty(c: Config, env: Env)
    ensures forall i, j :: 0 <= i < j < |Resolved(c, env)| ==> Resolved(c, env)[i] != Resolved(c, env)[j]
    ensures forall i :: 0 <= i < |Resolved(c, env)| ==> Resolved(c, env)[i] != ""
  {
    KeptDistinct(Candidates(c), env, {});
  }

  /** Each resolved path is a configured path, trimmed and home-expanded,
      and there is at most one per configured path. */
  lemma ResolvedComeFromConfig(c: Config, env: Env, x: string)
    ensures x in Resolved(c, env) <==>
            x != "" && exists k :: 0 <= k < |Candidates(c)| && Normalize(Candidates(c)[k], env) == x
    ensures |Resolved(c, env)| <= 1 + |c.repoPaths|
  {
    KeptMembers(Candidates(c), env, {}, x);
    KeptLength(Candidates(c), env, {});
  }

  /** A set RepoPath that does not normalize to "" comes first. */
  lemma RepoPathFirst(c: Config, env: Env)
    requires c.repoPath != "" && Normalize(c.repoPath, env) != ""
    ensures |Resolved(c, env)| > 0 && Resolved(c, env)[0] == Normalize(c.repoPath, env)
  {
    assert Candidates(c)[0] == c.repoPath;
  }

  /** The defaults configure no repository. */
  lemma DefaultsResolveNothing(env: Env)
    ensures Resolved(Defaults(), env) == []
  {
  }
}
