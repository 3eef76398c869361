/** What the script prints once the aggregate is complete: the sorted log,
    or the sorted set of committers. */
module Report {
  import opened Wrappers
  import opened Lex
  import opened Oracles
  import opened Extract
  import opened Aggregate

  /** `u` is the second `|`-field of `line`. */
  ghost predicate IsCommitterOf(u: string, line: string)
  {
    |Fields(line)| >= 2 && Fields(line)[1] == u
  }

  /** `map(lambda x: x.split("|")[1], log)`, consumed in order by `set`; a
      line without `|` raises. */
  function SecondFields(log: seq<string>): (r: Result<seq<string>, Error>)
    ensures r.Ok? <==> forall i :: 0 <= i < |log| ==> |Fields(log[i])| >= 2
    ensures r.Ok? ==> |r.value| == |log| && forall i :: 0 <= i < |log| ==> r.value[i] == Fields(log[i])[1]
    ensures r.Err? ==>
      exists k :: 0 <= k < |log| && r.error == NoCommitter(log[k]) && |Fields(log[k])| < 2
    decreases |log|
  {
    if |log| == 0 then Ok([])
    else
      var fields := Fields(log[0]);
      if |fields| < 2 then Err(NoCommitter(log[0]))
      else
        var rest :- SecondFields(log[1..]);
        Ok([fields[1]] + rest)
  }

  /** `sorted(getGourceUsers(log))`: each committer of the log once, in
      ascending order. */
  function GourceUsers(log: seq<string>): (r: Result<seq<string>, Error>)
    ensures r.Ok? <==> forall i :: 0 <= i < |log| ==> |Fields(log[i])| >= 2
    ensures r.Ok? ==> StrictlySorted(r.value)
    ensures r.Ok? ==>
      forall u :: u in r.value <==> exists i :: 0 <= i < |log| && IsCommitterOf(u, log[i])
  {
    var names :- SecondFields(log);
    var users := Dedup(SortLines(names));
    assert forall u :: u in users <==> u in multiset(SortLines(names));
    assert forall u :: u in names ==> exists i :: 0 <= i < |log| && IsCommitterOf(u, log[i]);
    assert forall i :: 0 <= i < |log| ==> names[i] in names;
    Ok(users)
  }

  /** One run of the script: aggregate, then print either the committers
      (`--users`) or the whole log, sorted. */
  function Run(env: Env, targetDirs: seq<string>, minCommits: int, outputUsers: bool): (r: Result<seq<string>, Error>)
    ensures var agg := AggregateLog(env, targetDirs, minCommits);
      && (agg.Err? ==> r == Err(agg.error))
      && (agg.Ok? ==> r.Ok?)
    ensures var agg := AggregateLog(env, targetDirs, minCommits);
      r.Ok? && !outputUsers ==>
        Sorted(r.value) && multiset(r.value) == multiset(agg.value)
    ensures var agg := AggregateLog(env, targetDirs, minCommits);
      r.Ok? && outputUsers ==>
        && StrictlySorted(r.value)
        && forall u :: u in r.value <==> exists i :: 0 <= i < |agg.value| && IsCommitterOf(u, agg.value[i])
  {
    var agg :- AggregateLog(env, targetDirs, minCommits);
    if outputUsers then
      AggregateWellFormed(env, targetDirs, minCommits);
      GourceUsers(agg)
    else Ok(SortLines(agg))
  }

  /** The printed log depends only on which lines were aggregated, not on
      the order the targets were given in. */
  lemma LogOutputIgnoresTargetOrder(env: Env, a: seq<string>, b: seq<string>, minCommits: int)
    requires AggregateLog(env, a, minCommits).Ok? && AggregateLog(env, b, minCommits).Ok?
    ensures Run(env, a + b, minCommits, false) == Run(env, b + a, minCommits, false)
  {
    AggregateAppend(env, a, b, minCommits);
    AggregateAppend(env, b, a, minCommits);
    var x := AggregateLog(env, a, minCommits).value;
    var y := AggregateLog(env, b, minCommits).value;
    assert multiset(x + y) == multiset(y + x);
    SortedUnique(SortLines(x + y), SortLines(y + x));
  }

  /** The printed committers depend only on which lines were aggregated,
      not on the order the targets were given in. */
  lemma UsersOutputIgnoresTargetOrder(env: Env, a: seq<string>, b: seq<string>, minCommits: int)
    requires AggregateLog(env, a, minCommits).Ok? && AggregateLog(env, b, minCommits).Ok?
    ensures Run(env, a + b, minCommits, true) == Run(env, b + a, minCommits, true)
  {
    AggregateAppend(env, a, b, minCommits);
    AggregateAppend(env, b, a, minCommits);
    var x := AggregateLog(env, a, minCommits).value;
    var y := AggregateLog(env, b, minCommits).value;
    var r1 := Run(env, a + b, minCommits, true).value;
    var r2 := Run(env, b + a, minCommits, true).value;
    forall u
      ensures u in r1 <==> u in r2
    {
      assert (exists i :: 0 <= i < |x + y| && IsCommitterOf(u, (x + y)[i]))
        <==> (exists i :: 0 <= i < |y + x| && IsCommitterOf(u, (y + x)[i])) by {
        assert forall v :: v in x + y <==> v in y + x;
        assert forall i :: 0 <= i < |x + y| ==> (x + y)[i] in y + x;
        assert forall i :: 0 <= i < |y + x| ==> (y + x)[i] in x + y;
      }
    }
    StrictlySortedUnique(r1, r2);
  }
}
