/** Deciding whether a directory takes part in the aggregate. */
module Classify {
  import opened Wrappers
  import opened Oracles

  /** `isValidDir(directory, minCommits)`: the directory is a repository and
      has strictly more commits than `minCommits`. The `and` short-circuits,
      so the commit count is read only for a repository, and a failure to
      read it is an error that ends the run. */
  function IsValidDir(env: Env, d: string, minCommits: int): (r: Result<bool, Error>)
    ensures r.Ok? <==> CountKnown(env, d)
    ensures r.Ok? ==> (r.value <==> Eligible(env, d, minCommits))
    ensures !env.isGit(d) ==> r == Ok(false)
    ensures r.Err? ==> r.error == CountFailed(d)
  {
    if !env.isGit(d) then Ok(false)
    else
      match env.commits(d)
      case None => Err(CountFailed(d))
      case Some(n) => Ok(n > minCommits)
  }
}
