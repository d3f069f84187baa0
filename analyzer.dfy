/**
 * `RepoAnalyzer.Analyze`: validate the path, open the repository, resolve the
 * branch, walk its history oldest first applying the date window and the commit
 * limit, and aggregate what was kept.
 *
 * The Git library is not modelled: the repositories that exist are a map from
 * path to `Repository`, and a branch carries its tip id and the commits
 * reachable from it in the order the history walk yields them (oldest first).
 * Thrown exceptions are `Failure` results.
 */
module Analyzer {
  import opened Wrappers
  import opened Text
  import opened Models
  import opened Aggregation

  /** A branch: its tip commit id (absent on an unborn branch) and its history, oldest first. */
  datatype Branch = Branch(tip: Option<string>, log: seq<CommitInfo>)

  /** An opened repository: `HEAD` and the branches that can be looked up by name. */
  datatype Repository = Repository(head: Branch, branches: map<string, Branch>)

  /** The exceptions `Analyze` throws. */
  datatype AnalyzeError =
    | EmptyPath                        // repository path null, empty or blank
    | InvalidRepository(path: string)  // no Git repository at the path
    | BranchNotFound(branchName: string)
    | HeadUnborn                       // `repo.Head.Tip` is null when the head id is read

  /**
   * `GetBranch`: the name "HEAD" is the repository's head and is never looked
   * up; any other name is the branch of that name, an error when none exists.
   */
  function GetBranch(repo: Repository, name: string): (r: Result<Branch, AnalyzeError>)
    ensures r.Failure? <==> name != "HEAD" && name !in repo.branches
    ensures r.Failure? ==> r.error == BranchNotFound(name)
    ensures name == "HEAD" ==> r == Success(repo.head)
    ensures r.Success? && name != "HEAD" ==> name in repo.branches && r.value == repo.branches[name]
  {
    if name == "HEAD" then Success(repo.head)
    else if name in repo.branches then Success(repo.branches[name])
    else Failure(BranchNotFound(name))
  }

  /** Whether the author timestamp of `c` lies in the inclusive window of the options. */
  predicate InDateRange(c: CommitInfo, o: RepoAnalysisOptions)
  {
    && (o.since.None? || o.since.value <= c.when)
    && (o.until.None? || c.when <= o.until.value)
  }

  /** The commits of `history` inside the date window, in history order. */
  function FilterByDate(history: seq<CommitInfo>, o: RepoAnalysisOptions): (r: seq<CommitInfo>)
    ensures |r| <= |history|
    ensures forall c :: c in r <==> c in history && InDateRange(c, o)
  {
    if history == [] then []
    else
      var p, c := history[..|history| - 1], history[|history| - 1];
      assert history == p + [c];
      if InDateRange(c, o) then FilterByDate(p, o) + [c] else FilterByDate(p, o)
  }

  /** Filtering distributes over concatenation, so the window keeps history order. */
  lemma {:induction false} FilterByDateAppend(a: seq<CommitInfo>, b: seq<CommitInfo>, o: RepoAnalysisOptions)
    ensures FilterByDate(a + b, o) == FilterByDate(a, o) + FilterByDate(b, o)
  {
    if b == [] {
      assert a + b == a;
    } else {
      var p, c := b[..|b| - 1], b[|b| - 1];
      FilterByDateAppend(a, p, o);
      assert (a + b)[..|a + b| - 1] == a + p;
      assert (a + b)[|a + b| - 1] == c;
    }
  }

  /** Walking one commit further extends the filtered prefix by that commit when it is in the window. */
  lemma FilterByDateStep(history: seq<CommitInfo>, i: int, o: RepoAnalysisOptions)
    requires 0 <= i < |history|
    ensures FilterByDate(history[..i + 1], o)
      == FilterByDate(history[..i], o) + (if InDateRange(history[i], o) then [history[i]] else [])
  {
    assert history[..i + 1][..i] == history[..i];
  }

  /** The number of commits `maxCommits` lets through: all of them when absent, none when not positive. */
  function Limit(n: nat, maxCommits: Option<int>): (k: nat)
    ensures k <= n
    ensures maxCommits.None? ==> k == n
    ensures maxCommits.Some? ==> k == if maxCommits.value <= 0 then 0 else if maxCommits.value < n then maxCommits.value else n
  {
    match maxCommits
    case None => n
    case Some(m) => if m <= 0 then 0 else if m < n then m else n
  }

  /** The commits `ExtractCommits` keeps: the first ones of the date window, up to the limit. */
  function SelectCommits(history: seq<CommitInfo>, o: RepoAnalysisOptions): seq<CommitInfo>
  {
    var w := FilterByDate(history, o);
    w[..Limit(|w|, o.maxCommits)]
  }

  /**
   * `ExtractCommits`: walk the history; a commit outside the date window is
   * skipped, and the walk stops at the first commit inside the window once the
   * limit is reached; every other commit is kept.
   */
  method ExtractCommits(history: seq<CommitInfo>, o: RepoAnalysisOptions) returns (commits: seq<CommitInfo>)
    ensures commits == SelectCommits(history, o)
  {
    commits := [];
    var i := 0;
    while i < |history|
      invariant 0 <= i <= |history|
      invariant commits == FilterByDate(history[..i], o)
      invariant o.maxCommits.Some? && commits != [] ==> |commits| <= o.maxCommits.value
    {
      var c := history[i];
      FilterByDateStep(history, i, o);
      if o.since.Some? && c.when < o.since.value {
        i := i + 1;
        continue;
      }
      if o.until.Some? && c.when > o.until.value {
        i := i + 1;
        continue;
      }
      if o.maxCommits.Some? && |commits| >= o.maxCommits.value {
        break;
      }
      commits := commits + [c];
      i := i + 1;
    }
    SelectStopped(history, i, o);
  }

  /**
   * Where the walk ends: at the end of the history, or where the commits kept so
   * far fill the limit. Either way they are the selection.
   */
  lemma SelectStopped(history: seq<CommitInfo>, i: int, o: RepoAnalysisOptions)
    requires 0 <= i <= |history|
    requires var w := FilterByDate(history[..i], o);
      && (o.maxCommits.Some? && w != [] ==> |w| <= o.maxCommits.value)
      && (i == |history| || (o.maxCommits.Some? && |w| >= o.maxCommits.value))
    ensures SelectCommits(history, o) == FilterByDate(history[..i], o)
  {
    FilterByDateAppend(history[..i], history[i..], o);
    assert history == history[..i] + history[i..];
  }

  // ---------------------------------------------------------------------------
  // What the selection promises.

  /** Every kept commit is a commit of the history inside the date window. */
  lemma SelectInWindow(history: seq<CommitInfo>, o: RepoAnalysisOptions)
    ensures forall c :: c in SelectCommits(history, o) ==> c in history && InDateRange(c, o)
  {
  }

  /**
   * The kept commits are the oldest ones of the window, in history order: as
   * many as the limit allows, and every commit of the window when it does not bind.
   */
  lemma SelectIsOldestPrefix(history: seq<CommitInfo>, o: RepoAnalysisOptions)
    ensures var s := SelectCommits(history, o);
      && s == FilterByDate(history, o)[..|s|]
      && |s| == Limit(|FilterByDate(history, o)|, o.maxCommits)
  {
  }

  /** Without a date window or a limit, the whole history is analyzed, as by the default options. */
  lemma {:induction false} SelectAllByDefault(history: seq<CommitInfo>, o: RepoAnalysisOptions)
    requires o.since.None? && o.until.None? && o.maxCommits.None?
    ensures SelectCommits(history, o) == history
  {
    FilterAll(history, o);
  }

  lemma {:induction false} FilterAll(history: seq<CommitInfo>, o: RepoAnalysisOptions)
    requires o.since.None? && o.until.None?
    ensures FilterByDate(history, o) == history
  {
    if history != [] {
      FilterAll(history[..|history| - 1], o);
    }
  }

  /** A limit that is not positive keeps nothing; a positive one keeps at most that many. */
  lemma SelectBounded(history: seq<CommitInfo>, o: RepoAnalysisOptions, n: int)
    requires o.maxCommits == Some(n)
    ensures n <= 0 ==> SelectCommits(history, o) == []
    ensures |SelectCommits(history, o)| <= |history|
    ensures 0 < n ==> |SelectCommits(history, o)| <= n
  {
  }

  /**
   * A window that is one moment wide keeps exactly the commits authored at that
   * moment: `since` and `until` are both inclusive.
   */
  lemma {:induction false} SelectInclusiveBounds(history: seq<CommitInfo>, o: RepoAnalysisOptions, t: int)
    requires o.since == Some(t) && o.until == Some(t) && o.maxCommits.None?
    ensures forall c :: c in SelectCommits(history, o) <==> c in history && c.when == t
  {
    assert SelectCommits(history, o) == FilterByDate(history, o);
  }

  /**
   * `Analyze`: with the default options when none are given, reject a blank path
   * and a path without a repository, resolve the branch, extract the commits
   * from it and aggregate them under the options' branch name and the id of the
   * head commit, which must exist.
   */
  method Analyze(repos: map<string, Repository>, repoPath: Option<string>, options: Option<RepoAnalysisOptions>)
    returns (r: Result<RepoMetrics, AnalyzeError>)
    ensures IsNullOrWhiteSpace(repoPath) ==> r == Failure(EmptyPath)
    ensures !IsNullOrWhiteSpace(repoPath) && repoPath.value !in repos ==>
      r == Failure(InvalidRepository(repoPath.value))
    ensures !IsNullOrWhiteSpace(repoPath) && repoPath.value in repos ==>
      var repo, o := repos[repoPath.value], options.GetOr(DefaultOptions());
      var b := GetBranch(repo, o.branch);
      && (b.Failure? ==> r == Failure(b.error))
      && (b.Success? && repo.head.tip.None? ==> r == Failure(HeadUnborn))
      && (b.Success? && repo.head.tip.Some? ==>
            r == Success(AggregateMetrics(repoPath.value, o.branch, repo.head.tip.value, SelectCommits(b.value.log, o))))
  {
    var o := options.GetOr(DefaultOptions());
    if IsNullOrWhiteSpace(repoPath) {
      return Failure(EmptyPath);
    }
    var path := repoPath.value;
    if path !in repos {
      return Failure(InvalidRepository(path));
    }
    var repo := repos[path];
    var branch := GetBranch(repo, o.branch);
    if branch.Failure? {
      return Failure(branch.error);
    }
    var commits := ExtractCommits(branch.value.log, o);
    if repo.head.tip.None? {
      return Failure(HeadUnborn);
    }
    r := Success(AggregateMetrics(path, o.branch, repo.head.tip.value, commits));
  }
}
