/**
 * The aggregation step of `RepoAnalyzer`: bucketing a path under its top-level
 * directory, and folding the accepted commits into `RepoMetrics` (commits per
 * day, per author, per top-level directory, and the date range).
 */
module Aggregation {
  import opened Wrappers
  import opened Text
  import opened Models
  import opened Linq

  /** The bucket of files that sit at the repository root. */
  const RootBucket: string := "(root)"

  /**
   * `GetTopLevelDirectory`: a blank path, or one without a separator, belongs to
   * the root bucket; any other path belongs to the text before its first
   * separator, which may be empty when the path starts with a separator.
   */
  function TopLevelDirectory(path: string): (r: string)
    ensures IsBlank(path) ==> r == RootBucket
    ensures FirstSeparator(path) == |path| ==> r == RootBucket
    ensures !IsBlank(path) && FirstSeparator(path) < |path| ==>
      && r == path[..FirstSeparator(path)]
      && |r| < |path| && IsSeparator(path[|r|])
      && (forall j :: 0 <= j < |r| ==> !IsSeparator(r[j]))
  {
    if IsNullOrWhiteSpace(Some(path)) then RootBucket
    else
      var segments := Split(path);
      SeparatorCountPositive(path);
      if |segments| > 1 then segments[0] else RootBucket
  }

  /** A trailing separator still makes a directory: "src/" is bucketed under "src". */
  lemma TopLevelDirectoryTrailingSeparator()
    ensures TopLevelDirectory("src/") == "src"
  {
    var path := "src/";
    assert !IsWhiteSpace(path[0]);
    assert !IsSeparator(path[0]) && !IsSeparator(path[1]) && !IsSeparator(path[2]) && IsSeparator(path[3]);
    assert path[..3] == "src";
  }

  /** A backslash separates like a slash. */
  lemma TopLevelDirectoryBackslash()
    ensures TopLevelDirectory("docs\\a.md") == "docs"
  {
    var path := "docs\\a.md";
    assert !IsWhiteSpace(path[0]);
    assert forall j :: 0 <= j < 4 ==> !IsSeparator(path[j]);
    assert IsSeparator(path[4]);
    assert path[..4] == "docs";
  }

  /** A leading separator gives the empty bucket, not the root bucket. */
  lemma TopLevelDirectoryLeadingSeparator()
    ensures TopLevelDirectory("/etc") == ""
  {
    var path := "/etc";
    assert !IsWhiteSpace(path[0]);
    assert IsSeparator(path[0]);
  }

  /**
   * The root bucket is also the name a real directory can have: the files of a
   * directory called "(root)" land in the same bucket as the files at the root.
   */
  lemma TopLevelDirectoryRootNamedDirectory()
    ensures TopLevelDirectory("(root)/a.txt") == RootBucket
    ensures TopLevelDirectory("a.txt") == RootBucket
  {
    var nested, top := "(root)/a.txt", "a.txt";
    assert !IsWhiteSpace(nested[0]) && !IsWhiteSpace(top[0]);
    assert forall j :: 0 <= j < 6 ==> !IsSeparator(nested[j]);
    assert IsSeparator(nested[6]);
    assert nested[..6] == RootBucket;
    assert forall j :: 0 <= j < |top| ==> !IsSeparator(top[j]);
  }

  // Grouping keys and sort keys of the three aggregates.

  function DayOf(c: CommitInfo): int { c.day }

  function AuthorOf(c: CommitInfo): (string, string) { (c.authorName, c.authorEmail) }

  function DayKey(e: CommitsByDay): int { e.day }

  function DayCount(e: CommitsByDay): int { e.commitCount }

  function AuthorCount(e: CommitsByAuthor): int { e.commitCount }

  function DirectoryCount(e: CommitsByDirectory): int { e.commitCount }

  /** One element of `commits.SelectMany(c => c.FileChanges.Select(fc => new { Commit = c, FileChange = fc }))`. */
  datatype FileTouch = FileTouch(commit: CommitInfo, file: FileChangeInfo)

  function DirectoryOf(t: FileTouch): string { TopLevelDirectory(t.file.path) }

  /** The (commit, file) pairs of one commit, files in order. */
  function TouchesOf(c: CommitInfo): (ts: seq<FileTouch>)
    ensures forall t :: t in ts <==> t.commit == c && t.file in c.fileChanges
  {
    var ts := seq(|c.fileChanges|, i requires 0 <= i < |c.fileChanges| => FileTouch(c, c.fileChanges[i]));
    assert forall i :: 0 <= i < |c.fileChanges| ==> ts[i] == FileTouch(c, c.fileChanges[i]);
    ts
  }

  /** The (commit, file) pairs of all commits, commit by commit, files in order. */
  function FileTouches(commits: seq<CommitInfo>): (ts: seq<FileTouch>)
    ensures forall t :: t in ts <==> t.commit in commits && t.file in t.commit.fileChanges
  {
    if commits == [] then []
    else
      var c := commits[|commits| - 1];
      assert commits == commits[..|commits| - 1] + [c];
      FileTouches(commits[..|commits| - 1]) + TouchesOf(c)
  }

  /** `g.Select(x => x.Commit.Id).Distinct()`, as a set. */
  function DistinctIds(ts: seq<FileTouch>): set<string>
  {
    set t | t in ts :: t.commit.id
  }

  function DayCounts(gs: seq<Grouping<int, CommitInfo>>): seq<CommitsByDay>
  {
    seq(|gs|, i requires 0 <= i < |gs| => CommitsByDay(gs[i].key, |gs[i].elements|))
  }

  function AuthorCounts(gs: seq<Grouping<(string, string), CommitInfo>>): seq<CommitsByAuthor>
  {
    seq(|gs|, i requires 0 <= i < |gs| => CommitsByAuthor(gs[i].key.0, gs[i].key.1, |gs[i].elements|))
  }

  function DirectoryCounts(gs: seq<Grouping<string, FileTouch>>): seq<CommitsByDirectory>
  {
    seq(|gs|, i requires 0 <= i < |gs| => CommitsByDirectory(gs[i].key, |DistinctIds(gs[i].elements)|))
  }

  /** Commits grouped by day, ascending by day. */
  function CommitsOverTime(commits: seq<CommitInfo>): seq<CommitsByDay>
  {
    OrderBy(DayCounts(GroupBy(commits, DayOf)), DayKey)
  }

  /** Commits grouped by (name, email), descending by count. */
  function CommitsByAuthorOf(commits: seq<CommitInfo>): seq<CommitsByAuthor>
  {
    OrderByDescending(AuthorCounts(GroupBy(commits, AuthorOf)), AuthorCount)
  }

  /** Commits grouped by the top-level directory of their files, descending by count. */
  function CommitsByDirectoryOf(commits: seq<CommitInfo>): seq<CommitsByDirectory>
  {
    OrderByDescending(DirectoryCounts(GroupBy(FileTouches(commits), DirectoryOf)), DirectoryCount)
  }

  /** `commits.Min(c => c.AuthorDate)`. */
  function EarliestWhen(commits: seq<CommitInfo>): (w: int)
    requires commits != []
    ensures exists c :: c in commits && c.when == w
    ensures forall c :: c in commits ==> w <= c.when
  {
    if |commits| == 1 then commits[0].when
    else
      var rest := EarliestWhen(commits[1..]);
      assert commits == [commits[0]] + commits[1..];
      if commits[0].when <= rest then commits[0].when else rest
  }

  /** `commits.Max(c => c.AuthorDate)`. */
  function LatestWhen(commits: seq<CommitInfo>): (w: int)
    requires commits != []
    ensures exists c :: c in commits && c.when == w
    ensures forall c :: c in commits ==> c.when <= w
  {
    if |commits| == 1 then commits[0].when
    else
      var rest := LatestWhen(commits[1..]);
      assert commits == [commits[0]] + commits[1..];
      if commits[0].when >= rest then commits[0].when else rest
  }

  // ---------------------------------------------------------------------------
  // What each aggregate is, stated without the grouping and sorting that build it.

  /** The distinct (name, email) pairs among the commits. */
  ghost function Authors(commits: seq<CommitInfo>): set<(string, string)>
  {
    KeySet(commits, AuthorOf)
  }

  /** Some file of `c` lies under the top-level directory `dir`. */
  ghost predicate Touches(c: CommitInfo, dir: string)
  {
    exists f :: f in c.fileChanges && TopLevelDirectory(f.path) == dir
  }

  /** The ids of the commits with a file under `dir`. */
  ghost function IdsTouching(commits: seq<CommitInfo>, dir: string): set<string>
  {
    set c | c in commits && Touches(c, dir) :: c.id
  }

  /**
   * Commits per day: one entry per day that has a commit, days strictly
   * ascending, each count the number of that day's commits, counts summing
   * to the number of commits.
   */
  ghost predicate IsCommitsOverTime(commits: seq<CommitInfo>, r: seq<CommitsByDay>)
  {
    && (forall i, j :: 0 <= i < j < |r| ==> r[i].day < r[j].day)
    && (forall i :: 0 <= i < |r| ==>
          0 < r[i].commitCount == |Where(commits, DayOf, r[i].day)|)
    && (forall c :: c in commits ==> CommitsByDay(c.day, |Where(commits, DayOf, c.day)|) in r)
    && SumOf(r, DayCount) == |commits|
  }

  /**
   * Commits per author: one entry per distinct (name, email) pair, each count
   * that author's number of commits, counts non-increasing and, among equal
   * counts, authors in the order of their first commit; counts sum to the
   * number of commits.
   */
  ghost predicate IsCommitsByAuthor(commits: seq<CommitInfo>, r: seq<CommitsByAuthor>)
  {
    && (forall i, j :: 0 <= i < j < |r| ==>
          || r[i].commitCount > r[j].commitCount
          || (&& r[i].commitCount == r[j].commitCount
              && FirstIndex(commits, AuthorOf, (r[i].authorName, r[i].authorEmail))
                 < FirstIndex(commits, AuthorOf, (r[j].authorName, r[j].authorEmail))))
    && (forall i :: 0 <= i < |r| ==>
          0 < r[i].commitCount == |Where(commits, AuthorOf, (r[i].authorName, r[i].authorEmail))|)
    && (forall c :: c in commits ==>
          CommitsByAuthor(c.authorName, c.authorEmail, |Where(commits, AuthorOf, AuthorOf(c))|) in r)
    && SumOf(r, AuthorCount) == |commits|
    && |r| == |Authors(commits)|
  }

  /**
   * Commits per top-level directory: one entry per directory holding a touched
   * file, each count the number of distinct ids of commits touching it (between
   * one and the number of commits), counts non-increasing and, among equal
   * counts, directories in the order they are first touched.
   */
  ghost predicate IsCommitsByDirectory(commits: seq<CommitInfo>, r: seq<CommitsByDirectory>)
  {
    && (forall i, j :: 0 <= i < j < |r| ==>
          || r[i].commitCount > r[j].commitCount
          || (&& r[i].commitCount == r[j].commitCount
              && FirstIndex(FileTouches(commits), DirectoryOf, r[i].directoryPath)
                 < FirstIndex(FileTouches(commits), DirectoryOf, r[j].directoryPath)))
    && (forall i :: 0 <= i < |r| ==>
          && r[i].commitCount == |IdsTouching(commits, r[i].directoryPath)|
          && 1 <= r[i].commitCount <= |commits|)
    && (forall c, f :: c in commits && f in c.fileChanges ==>
          var dir := TopLevelDirectory(f.path);
          CommitsByDirectory(dir, |IdsTouching(commits, dir)|) in r)
  }

  /** Whether `earliest` and `latest` are the smallest and largest author timestamps, absent when there are no commits. */
  ghost predicate IsDateRange(commits: seq<CommitInfo>, earliest: Option<int>, latest: Option<int>)
  {
    if commits == [] then earliest == None && latest == None
    else
      && earliest.Some? && latest.Some?
      && (exists c :: c in commits && c.when == earliest.value)
      && (exists c :: c in commits && c.when == latest.value)
      && (forall c :: c in commits ==> earliest.value <= c.when <= latest.value)
  }

  // ---------------------------------------------------------------------------
  // The grouping and sorting pipelines meet those descriptions.

  /** One entry of the per-day aggregate: a day with commits, and how many. */
  ghost predicate DayEntry(commits: seq<CommitInfo>, e: CommitsByDay)
  {
    0 < e.commitCount == |Where(commits, DayOf, e.day)|
  }

  lemma DayCountsEntries(commits: seq<CommitInfo>)
    ensures forall e :: e in DayCounts(GroupBy(commits, DayOf)) ==> DayEntry(commits, e)
  {
    var gs := GroupBy(commits, DayOf);
    var es := DayCounts(gs);
    GroupByFacts(commits, DayOf);
    forall e | e in es ensures DayEntry(commits, e) {
      var m :| 0 <= m < |es| && es[m] == e;
      assert gs[m].elements == Where(commits, DayOf, gs[m].key);
    }
  }

  lemma DaysAscending(commits: seq<CommitInfo>, r: seq<CommitsByDay>)
    requires r == CommitsOverTime(commits)
    ensures forall i, j :: 0 <= i < j < |r| ==> r[i].day < r[j].day
  {
    var gs := GroupBy(commits, DayOf);
    GroupByOrder(commits, DayOf);
    var es := DayCounts(gs);
    var rank := (e: CommitsByDay) => FirstIndex(commits, DayOf, e.day);
    forall i, j | 0 <= i < j < |es| ensures rank(es[i]) < rank(es[j]) {
      assert es[i].day == gs[i].key && es[j].day == gs[j].key;
    }
    OrderByStable(es, DayKey, rank);
    forall i, j | 0 <= i < j < |r| ensures r[i].day < r[j].day {
      assert Precedes(r[i], r[j], DayKey, rank);
    }
  }

  lemma DaysCounted(commits: seq<CommitInfo>, r: seq<CommitsByDay>)
    requires r == CommitsOverTime(commits)
    ensures forall i :: 0 <= i < |r| ==> 0 < r[i].commitCount == |Where(commits, DayOf, r[i].day)|
  {
    var es := DayCounts(GroupBy(commits, DayOf));
    DayCountsEntries(commits);
    forall i | 0 <= i < |r| ensures DayEntry(commits, r[i]) {
      assert r[i] in multiset(es);
    }
  }

  lemma DaysCovered(commits: seq<CommitInfo>, r: seq<CommitsByDay>)
    requires r == CommitsOverTime(commits)
    ensures forall c :: c in commits ==> CommitsByDay(c.day, |Where(commits, DayOf, c.day)|) in r
  {
    var gs := GroupBy(commits, DayOf);
    var es := DayCounts(gs);
    GroupByElements(commits, DayOf);
    GroupByCovers(commits, DayOf);
    forall c | c in commits ensures CommitsByDay(c.day, |Where(commits, DayOf, c.day)|) in r {
      assert DayOf(c) in Keys(gs);
      var m :| 0 <= m < |gs| && Keys(gs)[m] == c.day;
      assert gs[m].elements == Where(commits, DayOf, gs[m].key);
      assert es[m] in multiset(r);
    }
  }

  lemma DaysSum(commits: seq<CommitInfo>, r: seq<CommitsByDay>)
    requires r == CommitsOverTime(commits)
    ensures SumOf(r, DayCount) == |commits|
  {
    var gs := GroupBy(commits, DayOf);
    var es := DayCounts(gs);
    GroupBySize(commits, DayOf);
    OrderBySum(es, DayKey, DayCount);
    SumOfPointwise(es, DayCount, gs, Size);
  }

  lemma CommitsOverTimeCorrect(commits: seq<CommitInfo>)
    ensures IsCommitsOverTime(commits, CommitsOverTime(commits))
  {
    var r := CommitsOverTime(commits);
    DaysAscending(commits, r);
    DaysCounted(commits, r);
    DaysCovered(commits, r);
    DaysSum(commits, r);
  }

  /** One entry of the per-author aggregate: an author with commits, and how many. */
  ghost predicate AuthorEntry(commits: seq<CommitInfo>, e: CommitsByAuthor)
  {
    0 < e.commitCount == |Where(commits, AuthorOf, (e.authorName, e.authorEmail))|
  }

  lemma AuthorCountsEntries(commits: seq<CommitInfo>)
    ensures forall e :: e in AuthorCounts(GroupBy(commits, AuthorOf)) ==> AuthorEntry(commits, e)
  {
    var gs := GroupBy(commits, AuthorOf);
    var es := AuthorCounts(gs);
    GroupByFacts(commits, AuthorOf);
    forall e | e in es ensures AuthorEntry(commits, e) {
      var m :| 0 <= m < |es| && es[m] == e;
      assert (e.authorName, e.authorEmail) == gs[m].key;
      assert gs[m].elements == Where(commits, AuthorOf, gs[m].key);
    }
  }

  lemma AuthorsOrdered(commits: seq<CommitInfo>, r: seq<CommitsByAuthor>)
    requires r == CommitsByAuthorOf(commits)
    ensures forall i, j :: 0 <= i < j < |r| ==>
      || r[i].commitCount > r[j].commitCount
      || (&& r[i].commitCount == r[j].commitCount
          && FirstIndex(commits, AuthorOf, (r[i].authorName, r[i].authorEmail))
             < FirstIndex(commits, AuthorOf, (r[j].authorName, r[j].authorEmail)))
  {
    var gs := GroupBy(commits, AuthorOf);
    GroupByOrder(commits, AuthorOf);
    var es := AuthorCounts(gs);
    var rank := (e: CommitsByAuthor) => FirstIndex(commits, AuthorOf, (e.authorName, e.authorEmail));
    forall i, j | 0 <= i < j < |es| ensures rank(es[i]) < rank(es[j]) {
      assert (es[i].authorName, es[i].authorEmail) == gs[i].key;
      assert (es[j].authorName, es[j].authorEmail) == gs[j].key;
    }
    OrderByDescendingStable(es, AuthorCount, rank);
  }

  lemma AuthorsCounted(commits: seq<CommitInfo>, r: seq<CommitsByAuthor>)
    requires r == CommitsByAuthorOf(commits)
    ensures forall i :: 0 <= i < |r| ==>
      0 < r[i].commitCount == |Where(commits, AuthorOf, (r[i].authorName, r[i].authorEmail))|
  {
    var es := AuthorCounts(GroupBy(commits, AuthorOf));
    AuthorCountsEntries(commits);
    forall i | 0 <= i < |r| ensures AuthorEntry(commits, r[i]) {
      assert r[i] in multiset(es);
    }
  }

  lemma AuthorsCovered(commits: seq<CommitInfo>, r: seq<CommitsByAuthor>)
    requires r == CommitsByAuthorOf(commits)
    ensures forall c :: c in commits ==>
      CommitsByAuthor(c.authorName, c.authorEmail, |Where(commits, AuthorOf, AuthorOf(c))|) in r
  {
    var gs := GroupBy(commits, AuthorOf);
    var es := AuthorCounts(gs);
    GroupByElements(commits, AuthorOf);
    GroupByCovers(commits, AuthorOf);
    forall c | c in commits
      ensures CommitsByAuthor(c.authorName, c.authorEmail, |Where(commits, AuthorOf, AuthorOf(c))|) in r
    {
      assert AuthorOf(c) in Keys(gs);
      var m :| 0 <= m < |gs| && Keys(gs)[m] == AuthorOf(c);
      assert gs[m].elements == Where(commits, AuthorOf, gs[m].key);
      assert es[m] in multiset(r);
    }
  }

  lemma AuthorsSum(commits: seq<CommitInfo>, r: seq<CommitsByAuthor>)
    requires r == CommitsByAuthorOf(commits)
    ensures SumOf(r, AuthorCount) == |commits|
  {
    var gs := GroupBy(commits, AuthorOf);
    var es := AuthorCounts(gs);
    GroupBySize(commits, AuthorOf);
    OrderByDescendingSum(es, AuthorCount, AuthorCount);
    SumOfPointwise(es, AuthorCount, gs, Size);
  }

  lemma AuthorsDistinct(commits: seq<CommitInfo>, r: seq<CommitsByAuthor>)
    requires r == CommitsByAuthorOf(commits)
    ensures |r| == |Authors(commits)|
  {
    GroupByCount(commits, AuthorOf);
  }

  lemma CommitsByAuthorCorrect(commits: seq<CommitInfo>)
    ensures IsCommitsByAuthor(commits, CommitsByAuthorOf(commits))
  {
    var r := CommitsByAuthorOf(commits);
    AuthorsOrdered(commits, r);
    AuthorsCounted(commits, r);
    AuthorsCovered(commits, r);
    AuthorsSum(commits, r);
    AuthorsDistinct(commits, r);
  }

  /** The commits touching `dir` are exactly those with a file in the group of `dir`. */
  lemma DirectoryGroupIds(commits: seq<CommitInfo>, dir: string)
    ensures DistinctIds(Where(FileTouches(commits), DirectoryOf, dir)) == IdsTouching(commits, dir)
  {
    var ts := FileTouches(commits);
    var w := Where(ts, DirectoryOf, dir);
    forall id | id in IdsTouching(commits, dir) ensures id in DistinctIds(w) {
      var c :| c in commits && Touches(c, dir) && c.id == id;
      var f :| f in c.fileChanges && TopLevelDirectory(f.path) == dir;
      var t := FileTouch(c, f);
      assert t in ts;
      var k :| 0 <= k < |ts| && ts[k] == t;
      assert DirectoryOf(ts[k]) == dir;
      assert t in w;
    }
    forall id | id in DistinctIds(w) ensures id in IdsTouching(commits, dir) {
      var t :| t in w && t.commit.id == id;
      var k :| 0 <= k < |w| && w[k] == t;
      assert t in ts && DirectoryOf(t) == dir;
      assert Touches(t.commit, dir);
    }
  }

  /** Distinct ids are no more than commits. */
  lemma {:induction false} IdsCard(commits: seq<CommitInfo>)
    ensures |set c | c in commits :: c.id| <= |commits|
  {
    if commits != [] {
      var p := commits[..|commits| - 1];
      IdsCard(p);
      assert commits == p + [commits[|commits| - 1]];
      assert (set c | c in commits :: c.id) == (set c | c in p :: c.id) + {commits[|commits| - 1].id};
    }
  }

  /** No more commits touch a directory than there are distinct commit ids. */
  lemma IdsTouchingSubset(commits: seq<CommitInfo>, dir: string)
    ensures |IdsTouching(commits, dir)| <= |set c | c in commits :: c.id|
  {
    var all := set c | c in commits :: c.id;
    forall id | id in IdsTouching(commits, dir) ensures id in all {
      var c :| c in commits && Touches(c, dir) && c.id == id;
    }
    SubsetCard(IdsTouching(commits, dir), all);
  }

  lemma {:induction false} SubsetCard<T>(a: set<T>, b: set<T>)
    requires a <= b
    ensures |a| <= |b|
  {
    if a != {} {
      var x :| x in a;
      SubsetCard(a - {x}, b - {x});
    }
  }

  /** One entry of the per-directory aggregate: a touched directory and its number of distinct commits. */
  ghost predicate DirectoryEntry(commits: seq<CommitInfo>, e: CommitsByDirectory)
  {
    && e.commitCount == |IdsTouching(commits, e.directoryPath)|
    && 1 <= e.commitCount <= |commits|
  }

  /** A non-empty group of the touches of `dir` makes a valid entry for `dir`. */
  lemma DirectoryGroupEntry(commits: seq<CommitInfo>, dir: string, elements: seq<FileTouch>)
    requires elements == Where(FileTouches(commits), DirectoryOf, dir)
    requires elements != []
    ensures DirectoryEntry(commits, CommitsByDirectory(dir, |DistinctIds(elements)|))
  {
    DirectoryGroupIds(commits, dir);
    IdsCard(commits);
    assert elements[0].commit.id in DistinctIds(elements);
    IdsTouchingSubset(commits, dir);
  }

  lemma DirectoryCountsEntries(commits: seq<CommitInfo>)
    ensures forall e :: e in DirectoryCounts(GroupBy(FileTouches(commits), DirectoryOf)) ==> DirectoryEntry(commits, e)
  {
    var ts := FileTouches(commits);
    var gs := GroupBy(ts, DirectoryOf);
    var es := DirectoryCounts(gs);
    GroupByFacts(ts, DirectoryOf);
    forall e | e in es ensures DirectoryEntry(commits, e) {
      var m :| 0 <= m < |es| && es[m] == e;
      DirectoryGroupEntry(commits, gs[m].key, gs[m].elements);
    }
  }

  lemma DirectoriesOrdered(commits: seq<CommitInfo>, r: seq<CommitsByDirectory>)
    requires r == CommitsByDirectoryOf(commits)
    ensures forall i, j :: 0 <= i < j < |r| ==>
      || r[i].commitCount > r[j].commitCount
      || (&& r[i].commitCount == r[j].commitCount
          && FirstIndex(FileTouches(commits), DirectoryOf, r[i].directoryPath)
             < FirstIndex(FileTouches(commits), DirectoryOf, r[j].directoryPath))
  {
    var ts := FileTouches(commits);
    var gs := GroupBy(ts, DirectoryOf);
    GroupByOrder(ts, DirectoryOf);
    var es := DirectoryCounts(gs);
    var rank := (e: CommitsByDirectory) => FirstIndex(ts, DirectoryOf, e.directoryPath);
    forall i, j | 0 <= i < j < |es| ensures rank(es[i]) < rank(es[j]) {
      assert es[i].directoryPath == gs[i].key && es[j].directoryPath == gs[j].key;
    }
    OrderByDescendingStable(es, DirectoryCount, rank);
  }

  lemma DirectoriesCounted(commits: seq<CommitInfo>, r: seq<CommitsByDirectory>)
    requires r == CommitsByDirectoryOf(commits)
    ensures forall i :: 0 <= i < |r| ==>
      && r[i].commitCount == |IdsTouching(commits, r[i].directoryPath)|
      && 1 <= r[i].commitCount <= |commits|
  {
    var es := DirectoryCounts(GroupBy(FileTouches(commits), DirectoryOf));
    DirectoryCountsEntries(commits);
    forall i | 0 <= i < |r| ensures DirectoryEntry(commits, r[i]) {
      assert r[i] in multiset(es);
    }
  }

  lemma DirectoriesCovered(commits: seq<CommitInfo>, r: seq<CommitsByDirectory>)
    requires r == CommitsByDirectoryOf(commits)
    ensures forall c, f :: c in commits && f in c.fileChanges ==>
      var dir := TopLevelDirectory(f.path);
      CommitsByDirectory(dir, |IdsTouching(commits, dir)|) in r
  {
    var ts := FileTouches(commits);
    var gs := GroupBy(ts, DirectoryOf);
    var es := DirectoryCounts(gs);
    GroupByElements(ts, DirectoryOf);
    GroupByCovers(ts, DirectoryOf);
    forall c, f | c in commits && f in c.fileChanges
      ensures CommitsByDirectory(TopLevelDirectory(f.path), |IdsTouching(commits, TopLevelDirectory(f.path))|) in r
    {
      var dir := TopLevelDirectory(f.path);
      assert FileTouch(c, f) in ts;
      assert DirectoryOf(FileTouch(c, f)) in Keys(gs);
      var m :| 0 <= m < |gs| && Keys(gs)[m] == dir;
      assert gs[m].elements == Where(ts, DirectoryOf, dir);
      DirectoryGroupIds(commits, dir);
      assert es[m] in multiset(r);
    }
  }

  lemma CommitsByDirectoryCorrect(commits: seq<CommitInfo>)
    ensures IsCommitsByDirectory(commits, CommitsByDirectoryOf(commits))
  {
    var r := CommitsByDirectoryOf(commits);
    DirectoriesOrdered(commits, r);
    DirectoriesCounted(commits, r);
    DirectoriesCovered(commits, r);
  }

  /** Each author appears once in the per-author aggregate. */
  lemma AuthorKeysDistinct(commits: seq<CommitInfo>, r: seq<CommitsByAuthor>)
    requires IsCommitsByAuthor(commits, r)
    ensures forall i, j :: 0 <= i < j < |r| ==>
      (r[i].authorName, r[i].authorEmail) != (r[j].authorName, r[j].authorEmail)
  {
  }

  /** Each directory appears once in the per-directory aggregate. */
  lemma DirectoryKeysDistinct(commits: seq<CommitInfo>, r: seq<CommitsByDirectory>)
    requires IsCommitsByDirectory(commits, r)
    ensures forall i, j :: 0 <= i < j < |r| ==> r[i].directoryPath != r[j].directoryPath
  {
  }

  /**
   * `AggregateMetrics`: the metrics of the accepted commits. With no commits
   * they are the initializer's defaults (no dates, empty lists, zero counts)
   * around the repository path, branch and head id; otherwise every aggregate
   * is the one described above and the dates span the author timestamps.
   */
  function AggregateMetrics(repoPath: string, branch: string, headCommitId: string, commits: seq<CommitInfo>)
    : (m: RepoMetrics)
    ensures m.repoPath == repoPath && m.branch == Some(branch) && m.headCommitId == headCommitId
    ensures commits == [] ==> m == NewMetrics(repoPath, Some(branch), headCommitId, 0, 0)
    ensures m.totalCommits == |commits|
    ensures m.uniqueAuthors == |m.commitsByAuthor| == |Authors(commits)|
    ensures IsDateRange(commits, m.earliestCommitDate, m.latestCommitDate)
    ensures commits != [] ==>
      && m.earliestCommitDate.Some? && m.latestCommitDate.Some?
      && m.earliestCommitDate.value <= m.latestCommitDate.value
    ensures IsCommitsOverTime(commits, m.commitsOverTime)
    ensures IsCommitsByAuthor(commits, m.commitsByAuthor)
    ensures IsCommitsByDirectory(commits, m.commitsByDirectory)
  {
    if |commits| == 0 then
      assert Authors(commits) == {};
      NewMetrics(repoPath, Some(branch), headCommitId, 0, 0)
    else
      var byDay := CommitsOverTime(commits);
      var byAuthor := CommitsByAuthorOf(commits);
      var byDirectory := CommitsByDirectoryOf(commits);
      CommitsOverTimeCorrect(commits);
      CommitsByAuthorCorrect(commits);
      CommitsByDirectoryCorrect(commits);
      RepoMetrics(
        repoPath, Some(branch), headCommitId,
        |commits|,
        Some(EarliestWhen(commits)), Some(LatestWhen(commits)),
        |byAuthor|,
        byDay, byAuthor, byDirectory)
  }
}
