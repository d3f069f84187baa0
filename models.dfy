/**
 * The records the analyzer reads and produces. Every property of these
 * records is init-only in the source, so each becomes an immutable datatype;
 * an object initializer that leaves a property unset is a function that fills
 * it with the property's declared default.
 *
 * `DateTimeOffset` instants are integer timestamps, ordered as the instants
 * they stand for; `DateOnly` calendar days are integer day numbers.
 */
module Models {
  import opened Wrappers

  /** One file touched by a commit, with its line counts from the diff. */
  datatype FileChangeInfo = FileChangeInfo(path: string, linesAdded: int, linesDeleted: int)

  /**
   * A commit: its id (SHA), author identity, author timestamp `when`, the
   * calendar day of that timestamp in the author's offset, message and files.
   */
  datatype CommitInfo = CommitInfo(
    id: string,
    authorName: string,
    authorEmail: string,
    when: int,
    day: int,
    message: string,
    fileChanges: seq<FileChangeInfo>)

  datatype CommitsByDay = CommitsByDay(day: int, commitCount: int)

  datatype CommitsByAuthor = CommitsByAuthor(authorName: string, authorEmail: string, commitCount: int)

  datatype CommitsByDirectory = CommitsByDirectory(directoryPath: string, commitCount: int)

  /** Filters of one analysis; `since` and `until` are inclusive bounds on the author timestamp. */
  datatype RepoAnalysisOptions = RepoAnalysisOptions(
    branch: string,
    since: Option<int>,
    until: Option<int>,
    maxCommits: Option<int>)

  /** The branch analyzed when none is named. */
  const DefaultBranch: string := "HEAD"

  /**
   * `new RepoAnalysisOptions { ... }`: a property given in the initializer
   * reads back as given; one left out keeps its default.
   */
  function NewOptions(branch: Option<string>, since: Option<int>, until: Option<int>, maxCommits: Option<int>)
    : (o: RepoAnalysisOptions)
    ensures branch.Some? ==> o.branch == branch.value
    ensures branch.None? ==> o.branch == "HEAD"
    ensures o.since == since && o.until == until && o.maxCommits == maxCommits
  {
    RepoAnalysisOptions(branch.GetOr(DefaultBranch), since, until, maxCommits)
  }

  /** `RepoAnalysisOptions.Default`: the options of `new()`, analyzing HEAD without filters. */
  function DefaultOptions(): (o: RepoAnalysisOptions)
    ensures o == NewOptions(None, None, None, None)
    ensures o.branch == "HEAD" && o.since == None && o.until == None && o.maxCommits == None
  {
    NewOptions(None, None, None, None)
  }

  /** The result of one analysis. */
  datatype RepoMetrics = RepoMetrics(
    repoPath: string,
    branch: Option<string>,
    headCommitId: string,
    totalCommits: int,
    earliestCommitDate: Option<int>,
    latestCommitDate: Option<int>,
    uniqueAuthors: int,
    commitsOverTime: seq<CommitsByDay>,
    commitsByAuthor: seq<CommitsByAuthor>,
    commitsByDirectory: seq<CommitsByDirectory>)

  /**
   * `new RepoMetrics { RepoPath, Branch, HeadCommitId, TotalCommits, UniqueAuthors }`:
   * the dates left out stay absent and the three lists stay empty.
   */
  function NewMetrics(repoPath: string, branch: Option<string>, headCommitId: string, totalCommits: int, uniqueAuthors: int)
    : (m: RepoMetrics)
    ensures m.repoPath == repoPath && m.branch == branch && m.headCommitId == headCommitId
    ensures m.totalCommits == totalCommits && m.uniqueAuthors == uniqueAuthors
    ensures m.earliestCommitDate == None && m.latestCommitDate == None
    ensures m.commitsOverTime == [] && m.commitsByAuthor == [] && m.commitsByDirectory == []
  {
    RepoMetrics(repoPath, branch, headCommitId, totalCommits, None, None, uniqueAuthors, [], [], [])
  }
}
