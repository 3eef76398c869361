/** The external tools the script shells out to, as oracles, and the
    exceptions that escape the script and abort a run. */
module Oracles {
  import opened Wrappers

  /** What the filesystem, `git` and `gource` answer for a directory path.
      - `isGit(d)`: `git status` in `d` exits with status 0 (aggregate.py:13-15).
      - `commits(d)`: the integer printed by `git rev-list --count HEAD` in
        `d`, or `None` when that command fails or prints something `int()`
        rejects (aggregate.py:18-20).
      - `gource(d)`: the lines `gource --output-custom-log -` prints in `d`,
        or `None` when it exits with a nonzero status (aggregate.py:26, 28).
      - `subDirs(d)`: the immediate subdirectories the `glob` call lists,
        in the order it lists them (aggregate.py:60). */
  datatype Env = Env(
    isGit: string -> bool,
    commits: string -> Option<int>,
    gource: string -> Option<seq<string>>,
    subDirs: string -> seq<string>)

  /** Exceptions the script does not catch; each one ends the run. */
  datatype Error =
    | CountFailed(dir: string)       // `git rev-list` failed or printed a non-integer
    | NoRepoName(dir: string)        // `directory.split("/")[-2]` out of range
    | MalformedLine(line: string)    // a gource line without exactly four `|`-fields
    | NoCommitter(line: string)      // `x.split("|")[1]` out of range

  /** The directory is a repository whose commit count exceeds `minCommits`. */
  predicate Eligible(env: Env, d: string, minCommits: int)
  {
    env.isGit(d) && env.commits(d).Some? && env.commits(d).value > minCommits
  }

  /** Asking whether `d` is eligible does not raise: either it is no
      repository, or its commit count can be read. */
  predicate CountKnown(env: Env, d: string)
  {
    !env.isGit(d) || env.commits(d).Some?
  }
}
