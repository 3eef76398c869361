# gourceHelper `aggregate.py` in Dafny

`aggregate.py` merges the gource logs of many git repositories into one.
For each target directory, it first normalises the path so that it ends in exactly one `/`.
If the directory is itself a git repository with more than `-c` commits, gource's custom log for it is taken.
Otherwise the script looks at each immediate subdirectory.
For every eligible subdirectory it takes the log of the base directory.
That is what line 63 says, so the model reproduces it as written.
Every log line `timestamp|committer|modification|path` gets the repository's directory name in front of its path.
The lines are concatenated in discovery order.
At the end the script prints either the whole aggregate sorted, or, with `--users`, the sorted set of committers.

The model is pure functions over `string` (`seq<char>`) and `seq<string>`.
The external tools are the fields of an `Oracles.Env` value:
- `isGit` stands for `git status`.
- `commits` stands for `git rev-list --count HEAD` followed by `int`. It returns `None` when either of those raises.
- `gource` stands for `gource --output-custom-log -`. It returns `None` on a nonzero exit.
- `subDirs` stands for the `glob` of subdirectories.

Python exceptions that nothing catches end the run; the model returns them as `Err` values:
- `CountFailed`: a commit count that cannot be read.
- `NoRepoName`: `split("/")[-2]` out of range.
- `MalformedLine`: a line that does not unpack into four fields.
- `NoCommitter`: `split("|")[1]` out of range.

Modules:
- `Wrappers`: `Option` and `Result`.
- `Strings`: Python's `split`, `join` and `rstrip` for one separator character, with their round trips.
- `Lex`: Python's ordering of `str`, `sorted`, and de-duplication of a sorted list.
- `Oracles`: the environment and the error cases.
- `Classify`: `isValidDir`.
- `Extract`: `getGourceLog` and its line rewriting.
- `Aggregate`: the main loop.
- `Report`: the two output modes and the whole run.

A malformed gource line aborts the run. The unpacking at aggregate.py:29 raises `ValueError`, and the handler at line 32 catches only `CalledProcessError`.
A commit count that cannot be read also aborts the run (aggregate.py:19-20).

## Model

| member | source | states |
|---|---|---|
| Strings.Split | aggregate.py:29 | `str.split` on one character: there is one more field than there are separators, and no field contains the separator |
| Strings.JoinSplit | aggregate.py:29-31 | joining the fields of any string with the separator gives back the string |
| Strings.SplitJoin | aggregate.py:31 | splitting a join of one or more separator-free fields gives back exactly those fields |
| Strings.RStrip | aggregate.py:55 | `rstrip('/')` yields a prefix of the input, not ending in `/`, such that only `/` characters were removed |
| Strings.RStripTrailing | aggregate.py:55 | a string not ending in `/`, followed by any run of `/`, strips back to itself |
| Lex.LessEqTotal | aggregate.py:70 | any two strings are comparable under Python's string order |
| Lex.LessEqAntisymmetric | aggregate.py:70 | two strings that are each at most the other are equal |
| Lex.LessEqTransitive | aggregate.py:70 | Python's string order is transitive |
| Lex.SortLines | aggregate.py:70 | `sort()` returns a sorted list with exactly the same multiset of lines |
| Lex.SortedUnique | aggregate.py:70 | two sorted lists with the same multiset are equal, so the sorted log depends only on which lines were aggregated |
| Lex.Dedup | aggregate.py:66-67 | dropping repeats keeps exactly the same set of values, and turns a sorted list into a strictly sorted one |
| Lex.StrictlySortedUnique | aggregate.py:67 | two strictly sorted lists with the same elements are equal, so `sorted(set(...))` is determined by the set |
| Classify.IsValidDir | aggregate.py:38-39 | valid iff a git dir whose commit count is strictly above the threshold; for a non-repository the count is never read and the answer is false; an unreadable count in a repository raises |
| Extract.RepoName | aggregate.py:27 | `split("/")[-2]` succeeds iff the path contains a `/`, and the name it yields contains no `/` |
| Extract.RepoNameIsLastSegment | aggregate.py:27 | for `pre + name + "/"`, where `pre` is empty or ends in `/` and `name` has no `/`, the repository name is `name` |
| Extract.RewriteLine | aggregate.py:29-31 | a line is rewritten iff it has exactly three pipe characters, and a line without exactly three raises; the result's fields are the old first three followed by the fields of `repoName + filename`, which is the single field `repoName + filename` when the name has no pipe |
| Extract.RewriteJoined | aggregate.py:29-31 | a line of four pipe-free fields is rewritten into the same four fields, with the repository name put in front of the fourth |
| Extract.RewriteLineUndone | aggregate.py:29-31 | removing the repository name from the rewritten fourth field and re-joining gives back the original line |
| Extract.RewriteAll | aggregate.py:28-31 | one output line per input line, in order, each the rewrite of its input; otherwise the error names the first malformed line |
| Extract.GourceLog | aggregate.py:23-35 | a failing gource yields the empty list; otherwise the result is defined iff the path has a `/` and every line has four fields, and it is then the line-by-line rewrite in order |
| Aggregate.NormaliseDir | aggregate.py:55 | the result ends in exactly one `/` with no `/` before it; the rest is a prefix of the input, and the input continues only with `/` |
| Aggregate.NormaliseIdempotent | aggregate.py:55 | normalising twice equals normalising once |
| Aggregate.NormalisedRepoName | aggregate.py:55-58 | a target `pre + name` followed by any number of `/` is normalised to a path whose repository name is `name` |
| Aggregate.SubdirLogsRepeatBase | aggregate.py:59-63 | the subdirectory loop yields exactly one copy of the base directory's log per eligible subdirectory; it fails iff a count is unreadable, or the base log is needed and raises |
| Aggregate.TargetLogCopies | aggregate.py:54-63 | a target contributes only copies of its normalised directory's log: at most one for a git dir, one per eligible subdirectory otherwise, with the exact failure condition |
| Aggregate.ConcatLogsAppend | aggregate.py:53-63 | concatenating over `a + b` is concatenating over `a` and then `b`; an exception in `a` wins |
| Aggregate.AggregateAppend | aggregate.py:53-63 | the aggregate of `a + b` is the aggregate of `a` followed by that of `b` (discovery order) |
| Aggregate.AggregateWellFormed | aggregate.py:53-63 | every line of a completed aggregate has at least four pipe-separated fields |
| Aggregate.CollectLog | aggregate.py:53-63 | the script's loop over the targets computes exactly the aggregate, including which exception ends it |
| Aggregate.CollectTarget | aggregate.py:55-63 | one iteration of the script's loop, including the inner loop over subdirectories, computes exactly that target's contribution |
| Report.SecondFields | aggregate.py:43 | the second field of every line, in order; it raises iff some line has no pipe |
| Report.GourceUsers | aggregate.py:42-44 | users mode output is strictly sorted, and a user is in it iff it is the second field of some line |
| Report.Run | aggregate.py:65-72 | an exception while aggregating is the run's outcome; otherwise the run succeeds; log mode prints a sorted permutation of the aggregate; users mode prints the strictly sorted set of its committers |
| Report.LogOutputIgnoresTargetOrder | aggregate.py:69-72 | when both halves succeed, swapping two groups of targets does not change the printed log |
| Report.UsersOutputIgnoresTargetOrder | aggregate.py:65-68 | when both halves succeed, swapping two groups of targets does not change the printed users |

## Left out

- The calls to `git status`, `git rev-list --count HEAD` and `gource` (aggregate.py:14, 19, 26) are external processes. They are the oracle fields of `Oracles.Env`.
- `int(commitString)` (aggregate.py:20) is not modelled as parsing. A count that cannot be obtained or parsed is `None` from the `commits` oracle.
- `glob(baseDir + '/*/')` (aggregate.py:60) is filesystem enumeration. The subdirectory list and its order come from the `subDirs` oracle.
- The argument parser, with the default threshold of 20 and at least one target (aggregate.py:47-51), is CLI plumbing. The targets, threshold and mode are parameters of `Report.Run`.
- The `DEVNULL` fallback (aggregate.py:6-10) is I/O plumbing.
- The `print` calls (aggregate.py:67-72) are I/O; `Report.Run` returns the printed lines.
- The diagnostic `Got gource error in …` (aggregate.py:33) is printed to standard output before the result. It is not part of `Report.Run`'s output.
- `splitlines` and the bytes-versus-str distinction (aggregate.py:28) are not modelled. Gource output is given directly as a sequence of lines of characters, with Python 2 `str` semantics. Under Python 3, `check_output` returns bytes and `line.split("|")` would raise on them.
- Strings are sequences of Unicode characters compared by code point. Python 2 compares the bytes; the two orders agree on ASCII text.
- The oracles model exit statuses and outputs only. A process that cannot be launched raises `OSError`, and that aborts the run. This happens when the directory is missing at aggregate.py:14 or 19, or when the `git` or `gource` binary is missing at aggregate.py:14, 19 or 26. For `gource` it is not `CalledProcessError`, so the handler at line 32 does not catch it. The model does not include this failure: there, `isGit` gives false and `gource` gives a log or `None`.
