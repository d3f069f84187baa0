# RepoScope analyzer core in Dafny

This project models the commit-analysis pipeline of RepoScope's `RepoAnalyzer`
and the records it reads and writes. `RepoAnalyzer.Analyze` does four things:

- validates the repository path;
- resolves the branch to analyze (`GetBranch`);
- walks the branch history oldest first, keeping the commits inside the inclusive
  `Since`/`Until` window up to `MaxCommits` (`ExtractCommits`);
- folds the kept commits into `RepoMetrics`: commits per day, per author and per
  top-level directory, plus the earliest and latest author dates (`AggregateMetrics`,
  `GetTopLevelDirectory`).

The files:

- `wrappers.dfy`: `Option` (a C# `null`) and `Result` (an exception becomes `Failure`).
- `models.dfy`: the init-only records as datatypes. An object initializer that leaves
  properties out is a function that fills in their declared defaults.
- `churn.dfy`: the derived `NetChange`/`TotalChurn` of `FileHotspot` and `CodeChurnByDay`.
  They are evaluated as C# unchecked 32-bit `int` arithmetic.
- `text.dfy`: `string.IsNullOrWhiteSpace` (the .NET white-space set) and `Split('/', '\\')`.
- `linq.dfy`: the LINQ operators of the aggregation that need a definition of their own:
  - `GroupBy`: groups in order of first occurrence, elements in input order;
  - `OrderBy`/`OrderByDescending`: stable sorts.

  Stability is proved as order by (key, position of first occurrence). `Select`,
  `SelectMany`, `Distinct().Count()`, `Count()`, `Min` and `Max` are written out in
  `aggregation.dfy`. `Where`, `FirstIndex` and `SumOf` are not operators the analyzer
  calls: they are the vocabulary of the specifications, naming a group's contents, the
  position of a key's first occurrence and the total of the counts.
- `aggregation.dfy`:
  - `GetTopLevelDirectory` and the three aggregate pipelines;
  - an independent description of each aggregate (`IsCommitsOverTime`,
    `IsCommitsByAuthor`, `IsCommitsByDirectory`, `IsDateRange`) and the lemmas
    proving that the pipelines meet them;
  - `AggregateMetrics`.
- `analyzer.dfy`:
  - `GetBranch`;
  - `ExtractCommits`, a loop method proved against the specification function
    `SelectCommits` (date filter, then limit);
  - `Analyze`.

The Git library is replaced by values:

- the repositories that exist are a map from path to `Repository`;
- a `Repository` has its head branch and a table of named branches;
- a `Branch` has its tip commit id and its history, oldest first;
- each commit carries its file changes as the diff reported them;
- each commit carries its author timestamp `when` as an integer instant and the
  calendar `day` of that instant in the author's offset.

An empty repository (unborn `HEAD`) makes `Analyze` fail with `HeadUnborn`: the
analyzer reads the id of the head's tip commit (`RepoAnalyzer.cs` line 32), and there is
no tip to read. The zero-commit metrics of `AggregateMetrics` come out when the date
window or the limit keeps no commit of a non-empty history.

The root bucket "(root)" is not kept apart from the directories: `GetTopLevelDirectory`
returns the first segment of a path as it is (`RepoAnalyzer.cs` line 195), so the files of
a directory named "(root)" are counted in the same bucket as the files at the repository
root (`Aggregation.TopLevelDirectoryRootNamedDirectory`).

## Model

| member | source | states |
|---|---|---|
| Models.NewOptions | backend/src/RepoScope.Core/Models/RepoAnalysisOptions.cs:11-26 | a property given at construction reads back unchanged; a branch left out is "HEAD" and the filters left out are absent |
| Models.DefaultOptions | backend/src/RepoScope.Core/Models/RepoAnalysisOptions.cs:31 | `Default` is the options of `new()`: branch "HEAD", no `Since`, `Until` or `MaxCommits` |
| Models.NewMetrics | backend/src/RepoScope.Core/Models/RepoMetrics.cs:11-56 | the given path, branch, head id and counts read back; dates left out are absent and the three lists are empty |
| Churn.Wrap32 | backend/src/RepoScope.Core/Models/FileHotspot.cs:31-36 | the result is a 32-bit value congruent to the exact one modulo 2^32, and equal to it when the exact one fits |
| Churn.FileHotspot.NetChange | backend/src/RepoScope.Core/Models/FileHotspot.cs:31 | added minus deleted in unchecked 32-bit arithmetic (definition; its properties are `HotspotChurn`, `HotspotNetChangeExact`) |
| Churn.FileHotspot.TotalChurn | backend/src/RepoScope.Core/Models/FileHotspot.cs:36 | added plus deleted in unchecked 32-bit arithmetic (definition; its properties are `HotspotChurn`, `HotspotChurnWraps`) |
| Churn.CodeChurnByDay.NetChange | backend/src/RepoScope.Core/Models/CodeChurnByDay.cs:26 | added minus deleted in unchecked 32-bit arithmetic (definition; its properties are `DayChurn`) |
| Churn.CodeChurnByDay.TotalChurn | backend/src/RepoScope.Core/Models/CodeChurnByDay.cs:31 | added plus deleted in unchecked 32-bit arithmetic (definition; its properties are `DayChurn`) |
| Churn.HotspotChurn | backend/src/RepoScope.Core/Models/FileHotspot.cs:21-36 | for non-negative counts whose sum fits in 32 bits: `NetChange` is added minus deleted and `TotalChurn` is added plus deleted; churn minus net change is twice the deletions and their sum is twice the additions; churn is at least 0 and at least the size of the net change |
| Churn.HotspotNetChangeExact | backend/src/RepoScope.Core/Models/FileHotspot.cs:31 | for non-negative 32-bit counts the net change never wraps |
| Churn.HotspotChurnWraps | backend/src/RepoScope.Core/Models/FileHotspot.cs:36 | `TotalChurn` of `int.MaxValue` added lines and one deleted line wraps to `int.MinValue` |
| Churn.HotspotChurnOfLinesOnly | backend/src/RepoScope.Core/Models/FileHotspot.cs:11-36 | the derived values depend on the two line counts only, not on the file path or the commit count |
| Churn.DayChurn | backend/src/RepoScope.Core/Models/CodeChurnByDay.cs:16-31 | the same identities and bounds as for `FileHotspot`, for the daily record |
| Churn.DayChurnOfLinesOnly | backend/src/RepoScope.Core/Models/CodeChurnByDay.cs:11-36 | the day and the commit count do not enter the derived values |
| Text.FirstSeparator | backend/src/RepoScope.Core/Services/RepoAnalyzer.cs:194 | the index of the first `/` or `\`, or the length when there is none |
| Text.Split | backend/src/RepoScope.Core/Services/RepoAnalyzer.cs:194 | one more piece than separators, no piece holds a separator, the first piece is the text before the first separator |
| Text.SeparatorCountPositive | backend/src/RepoScope.Core/Services/RepoAnalyzer.cs:194-195 | a path splits into more than one segment exactly when it holds a separator |
| Text.SplitAtFirstSeparator | backend/src/RepoScope.Core/Services/RepoAnalyzer.cs:194 | a path without separator splits into itself alone; otherwise into the text before the first separator followed by the pieces of the rest |
| Text.IsWhiteSpace | backend/src/RepoScope.Core/Services/RepoAnalyzer.cs:189 | the .NET white-space characters: the controls U+0009 to U+000D and U+0085, the Unicode space separators, and U+2028 and U+2029 (definition, no contract) |
| Text.IsNullOrWhiteSpace | backend/src/RepoScope.Core/Services/RepoAnalyzer.cs:15 | `null`, empty or white space only (definition, no contract; used by `Analyzer.Analyze` and, on a path that is present, by `Aggregation.TopLevelDirectory`) |
| Aggregation.TopLevelDirectory | backend/src/RepoScope.Core/Services/RepoAnalyzer.cs:187-196 | a blank path or one without separator is "(root)"; any other path gives the text before its first separator, which is shorter than the path and separator-free |
| Aggregation.TopLevelDirectoryTrailingSeparator | backend/src/RepoScope.Core/Services/RepoAnalyzer.cs:194-195 | "src/" is bucketed under "src" |
| Aggregation.TopLevelDirectoryBackslash | backend/src/RepoScope.Core/Services/RepoAnalyzer.cs:194-195 | a backslash separates like a slash: "docs\a.md" gives "docs" |
| Aggregation.TopLevelDirectoryLeadingSeparator | backend/src/RepoScope.Core/Services/RepoAnalyzer.cs:194-195 | "/etc" gives the empty bucket, not "(root)" |
| Aggregation.TopLevelDirectoryRootNamedDirectory | backend/src/RepoScope.Core/Services/RepoAnalyzer.cs:191-195 | "(root)/a.txt" and "a.txt" fall in the same bucket "(root)": a directory named "(root)" is not told apart from the root |
| Aggregation.TouchesOf | backend/src/RepoScope.Core/Services/RepoAnalyzer.cs:162 | the pairs of one commit are exactly that commit with each of its files |
| Aggregation.FileTouches | backend/src/RepoScope.Core/Services/RepoAnalyzer.cs:162 | `SelectMany` yields exactly the pairs of a commit of the list with one of its files |
| Aggregation.EarliestWhen | backend/src/RepoScope.Core/Services/RepoAnalyzer.cs:178 | the minimum author timestamp: attained by a commit and a lower bound of all |
| Aggregation.DistinctIds | backend/src/RepoScope.Core/Services/RepoAnalyzer.cs:167 | `g.Select(x => x.Commit.Id).Distinct()` as the set of the commit ids of the pairs (definition; related to the touching commits by `DirectoryGroupIds`) |
| Aggregation.DayCounts | backend/src/RepoScope.Core/Services/RepoAnalyzer.cs:140-144 | one `CommitsByDay` per group: its day and its size (definition; its entries are characterized by `DayCountsEntries`) |
| Aggregation.AuthorCounts | backend/src/RepoScope.Core/Services/RepoAnalyzer.cs:151-156 | one `CommitsByAuthor` per group: its name, email and size (definition; characterized by `AuthorCountsEntries`) |
| Aggregation.DirectoryCounts | backend/src/RepoScope.Core/Services/RepoAnalyzer.cs:164-168 | one `CommitsByDirectory` per group: its directory and its number of distinct ids (definition; characterized by `DirectoryCountsEntries`) |
| Aggregation.CommitsOverTime | backend/src/RepoScope.Core/Services/RepoAnalyzer.cs:138-146 | group by day, count, order by day (definition; meets `IsCommitsOverTime` by `CommitsOverTimeCorrect`) |
| Aggregation.CommitsByAuthorOf | backend/src/RepoScope.Core/Services/RepoAnalyzer.cs:149-158 | group by (name, email), count, order by count descending (definition; meets `IsCommitsByAuthor` by `CommitsByAuthorCorrect`) |
| Aggregation.CommitsByDirectoryOf | backend/src/RepoScope.Core/Services/RepoAnalyzer.cs:161-170 | pair commits with files, group by top-level directory, count distinct ids, order by count descending (definition; meets `IsCommitsByDirectory` by `CommitsByDirectoryCorrect`) |
| Aggregation.LatestWhen | backend/src/RepoScope.Core/Services/RepoAnalyzer.cs:179 | the maximum author timestamp: attained by a commit and an upper bound of all |
| Aggregation.DayCountsEntries | backend/src/RepoScope.Core/Services/RepoAnalyzer.cs:138-144 | every grouped day has a positive count equal to its number of commits |
| Aggregation.DaysAscending | backend/src/RepoScope.Core/Services/RepoAnalyzer.cs:138-146 | the days are strictly ascending, hence distinct |
| Aggregation.DaysCounted | backend/src/RepoScope.Core/Services/RepoAnalyzer.cs:138-146 | each entry's count is the positive number of commits on that day |
| Aggregation.DaysCovered | backend/src/RepoScope.Core/Services/RepoAnalyzer.cs:138-146 | every commit's day has its entry |
| Aggregation.DaysSum | backend/src/RepoScope.Core/Services/RepoAnalyzer.cs:138-146 | the day counts sum to the number of commits |
| Aggregation.CommitsOverTimeCorrect | backend/src/RepoScope.Core/Services/RepoAnalyzer.cs:138-146 | the per-day pipeline meets `IsCommitsOverTime` |
| Aggregation.AuthorCountsEntries | backend/src/RepoScope.Core/Services/RepoAnalyzer.cs:149-156 | every grouped (name, email) pair has a positive count equal to its number of commits |
| Aggregation.AuthorsOrdered | backend/src/RepoScope.Core/Services/RepoAnalyzer.cs:149-158 | counts do not increase, and authors with equal counts are in the order of their first commit |
| Aggregation.AuthorsCounted | backend/src/RepoScope.Core/Services/RepoAnalyzer.cs:149-158 | each entry's count is the positive number of that author's commits |
| Aggregation.AuthorsCovered | backend/src/RepoScope.Core/Services/RepoAnalyzer.cs:149-158 | every commit's author has an entry |
| Aggregation.AuthorsSum | backend/src/RepoScope.Core/Services/RepoAnalyzer.cs:149-158 | the author counts sum to the number of commits |
| Aggregation.AuthorsDistinct | backend/src/RepoScope.Core/Services/RepoAnalyzer.cs:149-158 | there are as many entries as distinct (name, email) pairs |
| Aggregation.CommitsByAuthorCorrect | backend/src/RepoScope.Core/Services/RepoAnalyzer.cs:149-158 | the per-author pipeline meets `IsCommitsByAuthor` |
| Aggregation.AuthorKeysDistinct | backend/src/RepoScope.Core/Services/RepoAnalyzer.cs:150 | no author appears twice in the per-author aggregate |
| Aggregation.DirectoryGroupIds | backend/src/RepoScope.Core/Services/RepoAnalyzer.cs:161-167 | the distinct ids in a directory's group are the ids of the commits with a file under that directory |
| Aggregation.IdsCard | backend/src/RepoScope.Core/Services/RepoAnalyzer.cs:167 | there are no more distinct commit ids than commits |
| Aggregation.IdsTouchingSubset | backend/src/RepoScope.Core/Services/RepoAnalyzer.cs:167 | no more commits touch a directory than there are distinct ids |
| Aggregation.DirectoryGroupEntry | backend/src/RepoScope.Core/Services/RepoAnalyzer.cs:164-168 | a non-empty directory group yields a count between 1 and the number of commits equal to the commits touching it |
| Aggregation.DirectoryCountsEntries | backend/src/RepoScope.Core/Services/RepoAnalyzer.cs:161-168 | every grouped directory gets that count |
| Aggregation.DirectoriesOrdered | backend/src/RepoScope.Core/Services/RepoAnalyzer.cs:161-170 | counts do not increase, and directories with equal counts are in the order they are first touched |
| Aggregation.DirectoriesCounted | backend/src/RepoScope.Core/Services/RepoAnalyzer.cs:161-170 | each count is the number of distinct commits touching the directory, between 1 and the number of commits |
| Aggregation.DirectoriesCovered | backend/src/RepoScope.Core/Services/RepoAnalyzer.cs:161-170 | every touched file's top-level directory has an entry |
| Aggregation.CommitsByDirectoryCorrect | backend/src/RepoScope.Core/Services/RepoAnalyzer.cs:161-170 | the per-directory pipeline meets `IsCommitsByDirectory` |
| Aggregation.DirectoryKeysDistinct | backend/src/RepoScope.Core/Services/RepoAnalyzer.cs:163 | no directory appears twice in the per-directory aggregate |
| Aggregation.AggregateMetrics | backend/src/RepoScope.Core/Services/RepoAnalyzer.cs:123-185 | path, branch and head id are carried; no commits give the initializer's defaults with zero counts; otherwise the total is the number of commits, unique authors is the number of author entries and of distinct authors, earliest ≤ latest are the minimum and maximum dates, and the three lists meet their descriptions |
| Linq.Where | backend/src/RepoScope.Core/Services/RepoAnalyzer.cs:139-143 | the specification of a group's contents: exactly the input elements with the key |
| Linq.FirstIndex | backend/src/RepoScope.Core/Services/RepoAnalyzer.cs:139 | the first position holding a key, or the length when none does |
| Linq.GroupByFacts | backend/src/RepoScope.Core/Services/RepoAnalyzer.cs:139 | groups have distinct keys in order of first occurrence; each holds exactly the elements with its key and is non-empty; every element's key has a group; sizes add up to the input length |
| Linq.GroupBy | backend/src/RepoScope.Core/Services/RepoAnalyzer.cs:139 | `GroupBy`, built element by element (definition; its properties are `GroupByFacts` and `GroupByCount`, and the same operator serves lines 150 and 163) |
| Linq.GroupByCount | backend/src/RepoScope.Core/Services/RepoAnalyzer.cs:150 | there is one group per distinct key |
| Linq.Insert | backend/src/RepoScope.Core/Services/RepoAnalyzer.cs:145 | inserting adds exactly the element |
| Linq.OrderBy | backend/src/RepoScope.Core/Services/RepoAnalyzer.cs:145 | the result is a permutation of the input |
| Linq.OrderByStable | backend/src/RepoScope.Core/Services/RepoAnalyzer.cs:145 | the result is sorted by key and equal keys keep their input order |
| Linq.OrderByDescending | backend/src/RepoScope.Core/Services/RepoAnalyzer.cs:157 | the result is a permutation of the input |
| Linq.OrderByDescendingStable | backend/src/RepoScope.Core/Services/RepoAnalyzer.cs:157 | keys do not increase and equal keys keep their input order |
| Linq.OrderBySum | backend/src/RepoScope.Core/Services/RepoAnalyzer.cs:145 | sorting does not change a sum over the elements |
| Linq.OrderByDescendingSum | backend/src/RepoScope.Core/Services/RepoAnalyzer.cs:157 | sorting descending does not change a sum over the elements |
| Analyzer.GetBranch | backend/src/RepoScope.Core/Services/RepoAnalyzer.cs:35-49 | "HEAD" is the head and never fails; another name is the branch of that name; it fails, with that name, exactly when the name is not "HEAD" and no such branch exists |
| Analyzer.FilterByDate | backend/src/RepoScope.Core/Services/RepoAnalyzer.cs:63-71 | a commit is kept exactly when it is in the history and in the inclusive window |
| Analyzer.InDateRange | backend/src/RepoScope.Core/Services/RepoAnalyzer.cs:63-71 | `Since` ≤ author date when `Since` is given and author date ≤ `Until` when `Until` is given (definition, no contract) |
| Analyzer.SelectCommits | backend/src/RepoScope.Core/Services/RepoAnalyzer.cs:63-77 | the first `Limit` commits of the date window (definition; equal to what `ExtractCommits` returns, properties in `SelectInWindow`, `SelectIsOldestPrefix`, `SelectBounded`) |
| Analyzer.FilterByDateAppend | backend/src/RepoScope.Core/Services/RepoAnalyzer.cs:60-71 | filtering a concatenation filters each part, so history order is kept |
| Analyzer.Limit | backend/src/RepoScope.Core/Services/RepoAnalyzer.cs:74-77 | all commits pass without a limit, none with a limit ≤ 0, otherwise at most the limit |
| Analyzer.ExtractCommits | backend/src/RepoScope.Core/Services/RepoAnalyzer.cs:51-93 | the loop with its `continue` and `break` returns the first commits of the date window, up to the limit |
| Analyzer.SelectStopped | backend/src/RepoScope.Core/Services/RepoAnalyzer.cs:74-77 | wherever the walk stops, at the end or at a full limit, what it kept is the selection |
| Analyzer.SelectInWindow | backend/src/RepoScope.Core/Services/RepoAnalyzer.cs:63-71 | every kept commit is a commit of the history inside the window |
| Analyzer.SelectIsOldestPrefix | backend/src/RepoScope.Core/Services/RepoAnalyzer.cs:57-89 | the kept commits are the first ones of the window in history order, as many as the limit allows |
| Analyzer.SelectAllByDefault | backend/src/RepoScope.Core/Services/RepoAnalyzer.cs:51-93 | without window and limit the whole history is kept |
| Analyzer.FilterAll | backend/src/RepoScope.Core/Services/RepoAnalyzer.cs:63-71 | without window bounds every commit passes |
| Analyzer.SelectBounded | backend/src/RepoScope.Core/Services/RepoAnalyzer.cs:74-77 | a limit ≤ 0 keeps nothing; a positive limit keeps at most that many |
| Analyzer.SelectInclusiveBounds | backend/src/RepoScope.Core/Services/RepoAnalyzer.cs:63-71 | with `Since` = `Until` = t, exactly the commits authored at t are kept |
| Analyzer.Analyze | backend/src/RepoScope.Core/Services/RepoAnalyzer.cs:11-33 | missing options become the default; a null or blank path, a path without repository, an unknown branch and an unborn head each fail with their error, in that order; otherwise the metrics are the aggregate of the selected commits under the options' branch name and the head id |

## Left out

- LibGit2Sharp: opening a repository, `Repository.IsValid`, the history walk, branch
  lookup and diffs are foreign calls. They are replaced by the repository map and the
  branch values above. The history order (`Time | Reverse`, oldest first) is taken as
  the order of `Branch.log`.
- Branch name resolution: LibGit2Sharp also accepts canonical and remote names. The
  branch table is whatever names the library would resolve.
- `ExtractFileChanges`: its output is entirely the library's diff. Each commit carries
  its file changes as input.
- Disposing the repository handle (`using var`) is resource management, not logic.
- Calendar and time zones: `AuthorDate.Date` is an abstract `day` per commit, and
  `DateTimeOffset` comparison is integer comparison of instants.
- Analyze: a `null` `Branch` in the options is not modelled; the model's branch name is
  always a string.
- Models.DefaultOptions: `Default` returns a fresh instance on each read; as a value
  the model cannot tell instances apart.
- 32-bit wrap-around of the commit counts (`TotalCommits`, `UniqueAuthors`, group
  counts) is not modelled: the counts are unbounded integers.
- Churn.HotspotChurn: requires the sum of the line counts to fit in 32 bits; beyond that
  `TotalChurn` wraps (see `Churn.HotspotChurnWraps`).
- Churn.DayChurn: requires the sum of the line counts to fit in 32 bits, like `HotspotChurn`.
- The command-line commands, the JSON and summary formatters and the web front end are
  outside the analyzer core.
