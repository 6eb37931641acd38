# Commit extraction pipeline, modelled in Dafny

This project models the batch tool in `Main.java`. The tool clones a remote repository into a temporary directory. It walks the repository's history in pages of 100 commits and keeps the commits authored after a cutoff date. It applies an ordered list of extractors to each kept commit and writes one CSV row per commit under a header of extractor names. At the end it deletes the temporary directory.

JGit and the CSV writer are treated as abstract collaborators:

- The repository's history is a sequence of commits in the order `git.log()` returns it.
- `log(skip, maxCount)` is the slice `h[skip .. min(skip + maxCount, |h|)]`.
- Each commit carries its authored local date, already converted in its own time zone, as a `java.time` epoch day.
- An extractor is a column name paired with a function from a commit to a value.
- Every outside action that can fail is a flag in `World`: creating the temporary directory, cloning, opening and closing the output, each page fetch (by skip), each `printRecord` (by row position), and deleting the directory.

Modules:

- `Commits`: the commit record, and the day values of `LocalDate`.
- `Walker`: `getCommitsSince`. This covers the seed fetch, the `Stream.iterate` over `(next skip, page)` pairs that stops at the first empty page, the `flatMap`, and the date filter.
- `Extraction`: the header and the rows (`getInterestingThings`).
- `Sink`: the `forEach` loop, where a failing `printRecord` is logged and skipped.
- `Logging`: the WARNING and SEVERE records the code emits.
- `Env`: `getFromEnv`.
- `Orchestrator`: `main` and `printRepoToCsv`.

The temporary directory is not removed on every path that created it:

- A clone failure is caught in `main`, so deletion is never reached.
- A failing page fetch throws an unchecked exception. It escapes past the `IOException` handlers, so deletion is skipped there too.

What the model proves instead:

- Deletion is attempted exactly when the CSV block finishes, either normally or through a caught `IOException`.
- A failed deletion only logs a warning.

The cutoff is always `LocalDate.MIN`; it is not read from configuration.

The paging proofs show how many fetches a history of n commits takes: ⌈n/100⌉ + 1. For 250 commits that is 4: pages of 100, 100 and 50, then an empty page at skip 300. A short page that is not empty does not stop the walk.

## Model

| member | source | states |
|---|---|---|
| Walker.Log | src/main/java/io/github/marcusdunn/csc480_group_project/Main.java:110-113 | a page holds at most maxCount commits: the history's commits from position skip on, in order, and none once skip reaches the end |
| Walker.IterateFrom | src/main/java/io/github/marcusdunn/csc480_group_project/Main.java:98-119 | the iteration (seed `Seed`, step `Advance`: fetch at the pair's next skip and add 100) sends one page downstream per fetch it attempts, and an aborted iteration ends on the fetch that threw |
| Walker.Paginate | src/main/java/io/github/marcusdunn/csc480_group_project/Main.java:96-106 | the first fetch is at skip 0, and there is exactly one more fetch than pages sent downstream |
| Walker.PaginateSkips | src/main/java/io/github/marcusdunn/csc480_group_project/Main.java:99-113 | fetch i uses skip i * 100, so the skips are 0, 100, 200, … |
| Walker.PaginatePages | src/main/java/io/github/marcusdunn/csc480_group_project/Main.java:107-125 | page i sent downstream is the result of fetch i, and it is not empty |
| Walker.PaginateEnd | src/main/java/io/github/marcusdunn/csc480_group_project/Main.java:107-117 | a walk ends normally only after an empty page with every fetch succeeding; an aborted walk ends on the first failing fetch |
| Walker.PaginateCoverage | src/main/java/io/github/marcusdunn/csc480_group_project/Main.java:120-125 | the pages joined in order by `Flatten` (the flatMap) are the history up to the skip of the last fetch |
| Walker.WalkCoversHistory | src/main/java/io/github/marcusdunn/csc480_group_project/Main.java:98-125 | a completed walk reproduces the whole history in log order, with no commit lost or repeated, after exactly ⌈n/100⌉ + 1 fetches |
| Walker.AllFetchesOkExhausts | src/main/java/io/github/marcusdunn/csc480_group_project/Main.java:107-117 | if no fetch fails, the walk ends at an empty page |
| Walker.AbortedWalkPrefix | src/main/java/io/github/marcusdunn/csc480_group_project/Main.java:108-118 | the failing skip is a multiple of 100 within the history's pages, and the commits sent downstream before it are exactly the history before that skip |
| Walker.TwoHundredFiftyCommits | src/main/java/io/github/marcusdunn/csc480_group_project/Main.java:96-119 | 250 commits are fetched at skips 0, 100, 200 and 300 |
| Walker.After | src/main/java/io/github/marcusdunn/csc480_group_project/Main.java:126-137 | every commit the filter keeps was authored strictly after the cutoff, and the filter never adds commits |
| Walker.AfterExact | src/main/java/io/github/marcusdunn/csc480_group_project/Main.java:126-137 | each commit authored after the cutoff is kept as many times as it occurs; every other commit is dropped |
| Walker.AfterSubsequence | src/main/java/io/github/marcusdunn/csc480_group_project/Main.java:126-137 | the filter only removes commits; the rest keep their relative order |
| Walker.AfterAppend | src/main/java/io/github/marcusdunn/csc480_group_project/Main.java:126-137 | filtering distributes over concatenation |
| Walker.AfterFlatten | src/main/java/io/github/marcusdunn/csc480_group_project/Main.java:120-137 | filtering the flattened pages equals flattening the pages filtered one by one |
| Walker.AfterKeepsAll | src/main/java/io/github/marcusdunn/csc480_group_project/Main.java:126-137 | when every commit passes the cutoff, the filter returns its input unchanged |
| Walker.CommitsSinceExact | src/main/java/io/github/marcusdunn/csc480_group_project/Main.java:95-141 | when no fetch fails, `CommitsSince` (getCommitsSince) yields exactly the filtered history |
| Walker.SinceMinKeepsAll | src/main/java/io/github/marcusdunn/csc480_group_project/Main.java:126-137 | with main's cutoff LocalDate.MIN (line 27), every commit a java.util.Date can date is kept, so the whole history comes out |
| Extraction.Header | src/main/java/io/github/marcusdunn/csc480_group_project/Main.java:55-58 | the header has one column per extractor, and column j is extractor j's name |
| Extraction.Row | src/main/java/io/github/marcusdunn/csc480_group_project/Main.java:86 | a row has one value per extractor, and position j holds extractor j's value for the commit |
| Extraction.Rows | src/main/java/io/github/marcusdunn/csc480_group_project/Main.java:86 | there is one row per commit, and row i belongs to commit i |
| Extraction.RowsMatchQualifyingCommits | src/main/java/io/github/marcusdunn/csc480_group_project/Main.java:85-87 | when no fetch fails, `InterestingThings` (getInterestingThings) has one row per commit authored after the cutoff, and row i holds the extractor values of the i-th commit authored after the cutoff, aligned with the header's columns |
| Sink.Kept | src/main/java/io/github/marcusdunn/csc480_group_project/Main.java:62-70 | the rows written number as many as the successful printRecord calls |
| Sink.Dropped | src/main/java/io/github/marcusdunn/csc480_group_project/Main.java:62-70 | the rows lost number the rows produced minus the successful writes |
| Sink.FailureLog | src/main/java/io/github/marcusdunn/csc480_group_project/Main.java:67-69 | each failed row gets one SEVERE record carrying its values, in order |
| Sink.PrintRecords | src/main/java/io/github/marcusdunn/csc480_group_project/Main.java:62-70 | the loop writes exactly the rows whose write succeeds, in order, and collects the rest, in order, for logging |
| Sink.KeptPosition | src/main/java/io/github/marcusdunn/csc480_group_project/Main.java:62-70 | a row whose write succeeds is written at the position given by the number of successes before it, whatever fails around it |
| Sink.KeptDroppedPartition | src/main/java/io/github/marcusdunn/csc480_group_project/Main.java:62-70 | every row is either written or logged as failed, and none is both |
| Sink.AllWritten | src/main/java/io/github/marcusdunn/csc480_group_project/Main.java:62-70 | when no write fails, every row is written in order and nothing is logged |
| Env.GetFromEnv | src/main/java/io/github/marcusdunn/csc480_group_project/Main.java:143-151 | a value is returned iff the variable is set, and it is that value; a warning is logged iff the variable is unset |
| Orchestrator.PrinterBlock | src/main/java/io/github/marcusdunn/csc480_group_project/Main.java:60-73 | the records are the rows whose write succeeded; only a failing page fetch escapes; the log is the failed rows' records, then a SEVERE record for a failed fetch after the first, or for a failed open or close of the printer |
| Orchestrator.CsvBlock | src/main/java/io/github/marcusdunn/csc480_group_project/Main.java:51-76 | the output exists iff the FileWriter opened; the header is written iff the CSVPrinter opened; the records are the rows whose write succeeded; only a failing page fetch escapes; the log on each path is exact, with a SEVERE record for each failed open or close |
| Orchestrator.PrintRepoToCsv | src/main/java/io/github/marcusdunn/csc480_group_project/Main.java:49-83 | deletion is attempted iff no page-fetch exception escaped the CSV block; the directory is removed iff deletion succeeds; when the walk completes and both closes succeed, the log is exactly the failed rows' SEVERE records followed by one warning if and only if deletion fails |
| Orchestrator.Run | src/main/java/io/github/marcusdunn/csc480_group_project/Main.java:25-47 | a missing REMOTE throws before any directory is created; a failure to create the temporary directory throws with exactly one SEVERE record and nothing created; a clone failure returns normally and leaves the directory; a failing page fetch throws `PageFetch` with its skip and leaves the directory; after a clone the output exists iff the FileWriter opened and holds the header and exactly the rows whose write succeeded, every failed row is logged, and a failed deletion ends the log with a warning; when the walk completes and both closes succeed, the log is exactly the failed rows' records plus that warning if deletion fails; when nothing fails, the output is the header plus one row per commit, with no log and no directory left |
| Orchestrator.CompletedWalkRows | src/main/java/io/github/marcusdunn/csc480_group_project/Main.java:61-62 | a walk that completes feeds the sink one row per commit authored after the cutoff, in history order |
| Orchestrator.AbortedWalkRows | src/main/java/io/github/marcusdunn/csc480_group_project/Main.java:108-118 | when the fetch at skip s throws, the rows already handed to printRecord are those of the qualifying commits before s |

## Left out

- Walker.Advance: skips are unbounded naturals. Java computes the next skip at line 111 in 32-bit `int`, and it wraps once a history has more than 2,147,483,600 commits. Walker.PaginateSkips, Walker.WalkCoversHistory, Walker.AllFetchesOkExhausts and the lemmas built on them describe Java only for histories up to that size.
- JGit itself is not modelled: cloning, `RevWalk` and how many times its `Iterable` can be consumed, and diff computation. `log` is a pure slice of the history.
- Unchecked exceptions JGit may raise other than the rethrown `GitAPIException` (for example, internal exceptions from `log().call()`) are not modelled.
- The extractor classes `FullCommitMessage`, `CommitDateTime` and `CommitDiff`, and the interface they implement, are not part of this model. Extractors are opaque pairs of a name and a total function, so an exception from an extractor is not modelled.
- The conversion from an author timestamp to a local date in the author's zone is not modelled. Each commit carries the resulting day. The bound on that day (what a `java.util.Date` can express, plus one day for the zone offset) is the only calendar fact used.
- CSV quoting and escaping, `FileWriter` buffering and the file's bytes are not modelled. The output is the header plus the records handed to `printRecord` successfully, whether or not a later close failure loses them.
- `CSVPrinter` is assumed to write the header in its constructor. One flag covers both opening it and writing the header.
- Exceptions from closing resources while a page-fetch exception propagates are suppressed in Java, and they are ignored here. The `Git` object's close is not modelled.
- `DeletingFileVisitor` and the file system are not modelled. A deletion either removes the directory or fails with a warning, with no partial deletion.
- Log records at FINE level, and the text of log messages, are left out. A record is its level and what it reports.
- Stream laziness is not modelled beyond its observable effect: a fetch that throws is attempted only after every row of the pages before it has gone through `printRecord`.
