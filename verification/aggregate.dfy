/** The main loop: normalise each target directory, decide which logs it
    contributes, and concatenate them in discovery order. */
module Aggregate {
  import opened Wrappers
  import opened Strings
  import opened Oracles
  import opened Classify
  import opened Extract

  /** `baseDir.rstrip('/') + '/'`: the path with its trailing run of `/`
      replaced by exactly one `/`. */
  function NormaliseDir(dir: string): (r: string)
    ensures |r| >= 1 && r[|r| - 1] == '/'
    ensures |r| == 1 || r[|r| - 2] != '/'
    ensures |r| - 1 <= |dir| && r[..|r| - 1] == dir[..|r| - 1]
    ensures forall i :: |r| - 1 <= i < |dir| ==> dir[i] == '/'
  {
    RStrip(dir, '/') + "/"
  }

  /** Normalising twice is normalising once. */
  lemma NormaliseIdempotent(dir: string)
    ensures NormaliseDir(NormaliseDir(dir)) == NormaliseDir(dir)
  {
  }

  /** The repository name of a normalised directory is the directory's own
      name, however many `/` the target carried. */
  lemma NormalisedRepoName(pre: string, name: string, slashes: string)
    requires |name| > 0 && '/' !in name
    requires |pre| == 0 || pre[|pre| - 1] == '/'
    requires forall i :: 0 <= i < |slashes| ==> slashes[i] == '/'
    ensures RepoName(NormaliseDir(pre + name + slashes)) == Ok(name)
  {
    assert (pre + name)[|pre + name| - 1] == name[|name| - 1];
    assert name[|name| - 1] in name;
    RStripTrailing(pre + name, slashes, '/');
    RepoNameIsLastSegment(pre, name);
  }

  /** `k` copies of `xs`, one after the other. */
  function Repeat(xs: seq<string>, k: nat): seq<string>
  {
    if k == 0 then [] else Repeat(xs, k - 1) + xs
  }

  /** How many of `dirs` are eligible. */
  function EligibleCount(env: Env, dirs: seq<string>, minCommits: int): nat
    decreases |dirs|
  {
    if |dirs| == 0 then 0
    else
      var last := if Eligible(env, dirs[|dirs| - 1], minCommits) then 1 else 0;
      EligibleCount(env, dirs[..|dirs| - 1], minCommits) + last
  }

  /** The inner loop over a non-repository's subdirectories
      (aggregate.py:60-63). For each eligible subdirectory it appends the log
      of the BASE directory, not of the subdirectory, as the script does. */
  function SubdirLogs(env: Env, base: string, subs: seq<string>, minCommits: int): Result<seq<string>, Error>
    decreases |subs|
  {
    if |subs| == 0 then Ok([])
    else
      var acc :- SubdirLogs(env, base, subs[..|subs| - 1], minCommits);
      var valid :- IsValidDir(env, subs[|subs| - 1], minCommits);
      if valid then
        var log :- GourceLog(env, base);
        Ok(acc + log)
      else Ok(acc)
  }

  /** The subdirectory loop yields one copy of the base directory's log per
      eligible subdirectory, and fails exactly when a commit count cannot be
      read or the base log is needed and raises. */
  lemma {:induction false} SubdirLogsRepeatBase(env: Env, base: string, subs: seq<string>, minCommits: int)
    ensures var r := SubdirLogs(env, base, subs, minCommits);
      var g := GourceLog(env, base);
      var k := EligibleCount(env, subs, minCommits);
      && (r.Ok? <==> (forall i :: 0 <= i < |subs| ==> CountKnown(env, subs[i])) && (k == 0 || g.Ok?))
      && (r.Ok? ==> (k == 0 && r.value == []) || (g.Ok? && r.value == Repeat(g.value, k)))
    decreases |subs|
  {
    if |subs| > 0 {
      var init := subs[..|subs| - 1];
      var last := subs[|subs| - 1];
      SubdirLogsRepeatBase(env, base, init, minCommits);
      assert (forall i :: 0 <= i < |subs| ==> CountKnown(env, subs[i]))
        <==> (forall i :: 0 <= i < |init| ==> CountKnown(env, init[i])) && CountKnown(env, last) by {
        assert forall i :: 0 <= i < |init| ==> init[i] == subs[i];
      }
    }
  }

  /** How many copies of its base directory's log a target contributes. */
  function CopiesOf(env: Env, base: string, minCommits: int): nat
  {
    if env.isGit(base) then (if Eligible(env, base, minCommits) then 1 else 0)
    else EligibleCount(env, env.subDirs(base), minCommits)
  }

  /** Reading the commit counts a target needs does not raise. */
  predicate TargetCountsKnown(env: Env, base: string)
  {
    if env.isGit(base) then CountKnown(env, base)
    else forall i :: 0 <= i < |env.subDirs(base)| ==> CountKnown(env, env.subDirs(base)[i])
  }

  /** One iteration of the outer loop (aggregate.py:55-63). */
  function TargetLog(env: Env, target: string, minCommits: int): Result<seq<string>, Error>
  {
    var base := NormaliseDir(target);
    if env.isGit(base) then
      var valid :- IsValidDir(env, base, minCommits);
      if valid then GourceLog(env, base) else Ok([])
    else SubdirLogs(env, base, env.subDirs(base), minCommits)
  }

  /** A target contributes only copies of its normalised directory's log: at
      most one for a repository, one per eligible subdirectory otherwise. */
  lemma TargetLogCopies(env: Env, target: string, minCommits: int)
    ensures var base := NormaliseDir(target);
      var r := TargetLog(env, target, minCommits);
      var g := GourceLog(env, base);
      var k := CopiesOf(env, base, minCommits);
      && (env.isGit(base) ==> k <= 1)
      && (r.Ok? <==> TargetCountsKnown(env, base) && (k == 0 || g.Ok?))
      && (r.Ok? ==> (k == 0 && r.value == []) || (g.Ok? && r.value == Repeat(g.value, k)))
  {
    var base := NormaliseDir(target);
    if env.isGit(base) {
      if GourceLog(env, base).Ok? {
        assert Repeat(GourceLog(env, base).value, 1) == GourceLog(env, base).value;
      }
    } else {
      SubdirLogsRepeatBase(env, base, env.subDirs(base), minCommits);
    }
  }

  /** `aggregateLog + log` where either side may have raised: the earlier
      exception wins. */
  function Then(first: Result<seq<string>, Error>, second: Result<seq<string>, Error>): Result<seq<string>, Error>
  {
    var acc :- first;
    var log :- second;
    Ok(acc + log)
  }

  /** The logs `step` yields for `dirs`, concatenated in order; the first
      exception ends the loop. */
  function ConcatLogs(step: string -> Result<seq<string>, Error>, dirs: seq<string>): Result<seq<string>, Error>
    decreases |dirs|
  {
    if |dirs| == 0 then Ok([])
    else Then(ConcatLogs(step, dirs[..|dirs| - 1]), step(dirs[|dirs| - 1]))
  }

  /** Concatenating over `a + b` is concatenating over `a`, then over `b`;
      an exception in `a` ends the loop before `b` is looked at. */
  lemma {:induction false} ConcatLogsAppend(step: string -> Result<seq<string>, Error>, a: seq<string>, b: seq<string>)
    ensures ConcatLogs(step, a + b) == Then(ConcatLogs(step, a), ConcatLogs(step, b))
    decreases |b|
  {
    var ra := ConcatLogs(step, a);
    if |b| == 0 {
      assert a + b == a;
      if ra.Ok? {
        assert ra.value + [] == ra.value;
      }
    } else {
      var b' := b[..|b| - 1];
      var last := b[|b| - 1];
      assert (a + b)[..|a + b| - 1] == a + b';
      assert (a + b)[|a + b| - 1] == last;
      ConcatLogsAppend(step, a, b');
      var rb' := ConcatLogs(step, b');
      var t := step(last);
      if ra.Ok? && rb'.Ok? && t.Ok? {
        assert ra.value + rb'.value + t.value == ra.value + (rb'.value + t.value);
      }
    }
  }

  /** One iteration of the outer loop, as a function of the target. */
  function TargetStep(env: Env, minCommits: int): string -> Result<seq<string>, Error>
  {
    target => TargetLog(env, target, minCommits)
  }

  /** The whole loop over the target directories (aggregate.py:53-63). */
  function AggregateLog(env: Env, targetDirs: seq<string>, minCommits: int): Result<seq<string>, Error>
  {
    ConcatLogs(TargetStep(env, minCommits), targetDirs)
  }

  /** Aggregating `a + b` is aggregating `a`, then `b`, and concatenating:
      logs appear in discovery order. */
  lemma AggregateAppend(env: Env, a: seq<string>, b: seq<string>, minCommits: int)
    ensures AggregateLog(env, a + b, minCommits)
      == Then(AggregateLog(env, a, minCommits), AggregateLog(env, b, minCommits))
  {
    ConcatLogsAppend(TargetStep(env, minCommits), a, b);
  }

  /** Every line has at least four `|`-fields. */
  ghost predicate WellFormedLog(log: seq<string>)
  {
    forall i :: 0 <= i < |log| ==> |Fields(log[i])| >= 4
  }

  /** Every line `getGourceLog` returns has at least four `|`-fields. */
  lemma GourceLogWellFormed(env: Env, dir: string)
    requires GourceLog(env, dir).Ok?
    ensures WellFormedLog(GourceLog(env, dir).value)
  {
  }

  /** Copies of well-formed lines are well formed. */
  lemma {:induction false} RepeatWellFormed(xs: seq<string>, k: nat)
    requires WellFormedLog(xs)
    ensures WellFormedLog(Repeat(xs, k))
  {
    if k > 0 {
      RepeatWellFormed(xs, k - 1);
      var r := Repeat(xs, k - 1) + xs;
      forall i | 0 <= i < |r|
        ensures |Fields(r[i])| >= 4
      {
        if i >= |Repeat(xs, k - 1)| {
          assert r[i] == xs[i - |Repeat(xs, k - 1)|];
        }
      }
    }
  }

  /** Every line of a completed aggregate has at least four `|`-fields. */
  lemma {:induction false} AggregateWellFormed(env: Env, targetDirs: seq<string>, minCommits: int)
    requires AggregateLog(env, targetDirs, minCommits).Ok?
    ensures WellFormedLog(AggregateLog(env, targetDirs, minCommits).value)
    decreases |targetDirs|
  {
    if |targetDirs| > 0 {
      var init := targetDirs[..|targetDirs| - 1];
      var target := targetDirs[|targetDirs| - 1];
      AggregateWellFormed(env, init, minCommits);
      var base := NormaliseDir(target);
      TargetLogCopies(env, target, minCommits);
      var k := CopiesOf(env, base, minCommits);
      if k > 0 {
        GourceLogWellFormed(env, base);
        RepeatWellFormed(GourceLog(env, base).value, k);
      }
      var acc := AggregateLog(env, init, minCommits).value;
      var log := TargetLog(env, target, minCommits).value;
      var r := acc + log;
      forall i | 0 <= i < |r|
        ensures |Fields(r[i])| >= 4
      {
        if i >= |acc| {
          assert r[i] == log[i - |acc|];
        } else {
          assert r[i] == acc[i];
        }
      }
    }
  }

  /** An exception in a prefix of the targets ends the run with it. */
  lemma AggregatePrefixErr(env: Env, targetDirs: seq<string>, n: nat, minCommits: int)
    requires n <= |targetDirs|
    requires AggregateLog(env, targetDirs[..n], minCommits).Err?
    ensures AggregateLog(env, targetDirs, minCommits) == AggregateLog(env, targetDirs[..n], minCommits)
  {
    var a := targetDirs[..n];
    var b := targetDirs[n..];
    assert a + b == targetDirs;
    AggregateAppend(env, a, b, minCommits);
  }

  /** The script's outer loop, appending each target's contribution to one
      list as it goes. */
  method CollectLog(env: Env, targetDirs: seq<string>, minCommits: int) returns (r: Result<seq<string>, Error>)
    ensures r == AggregateLog(env, targetDirs, minCommits)
  {
    var aggregate: seq<string> := [];
    var i := 0;
    while i < |targetDirs|
      invariant 0 <= i <= |targetDirs|
      invariant AggregateLog(env, targetDirs[..i], minCommits) == Ok(aggregate)
    {
      assert targetDirs[..i + 1][..i] == targetDirs[..i];
      var log := CollectTarget(env, targetDirs[i], minCommits);
      if log.Err? {
        AggregatePrefixErr(env, targetDirs, i + 1, minCommits);
        return Err(log.error);
      }
      aggregate := aggregate + log.value;
      i := i + 1;
    }
    assert targetDirs[..i] == targetDirs;
    return Ok(aggregate);
  }

  /** The body of the script's outer loop for one target, with its inner
      loop over subdirectories. */
  method CollectTarget(env: Env, target: string, minCommits: int) returns (r: Result<seq<string>, Error>)
    ensures r == TargetLog(env, target, minCommits)
  {
    var baseDir := NormaliseDir(target);
    if env.isGit(baseDir) {
      var valid := IsValidDir(env, baseDir, minCommits);
      if valid.Err? {
        return Err(valid.error);
      }
      if !valid.value {
        return Ok([]);
      }
      return GourceLog(env, baseDir);
    }
    var subDirs := env.subDirs(baseDir);
    var collected: seq<string> := [];
    var j := 0;
    while j < |subDirs|
      invariant 0 <= j <= |subDirs|
      invariant SubdirLogs(env, baseDir, subDirs[..j], minCommits) == Ok(collected)
    {
      assert subDirs[..j + 1][..j] == subDirs[..j];
      var valid := IsValidDir(env, subDirs[j], minCommits);
      if valid.Err? {
        SubdirPrefixErr(env, baseDir, subDirs, j + 1, minCommits);
        return Err(valid.error);
      }
      if valid.value {
        var log := GourceLog(env, baseDir);
        if log.Err? {
          SubdirPrefixErr(env, baseDir, subDirs, j + 1, minCommits);
          return Err(log.error);
        }
        collected := collected + log.value;
      }
      j := j + 1;
    }
    assert subDirs[..j] == subDirs;
    return Ok(collected);
  }

  /** An exception for one subdirectory ends the subdirectory loop with it. */
  lemma {:induction false} SubdirPrefixErr(env: Env, base: string, subs: seq<string>, n: nat, minCommits: int)
    requires n <= |subs|
    requires SubdirLogs(env, base, subs[..n], minCommits).Err?
    ensures SubdirLogs(env, base, subs, minCommits) == SubdirLogs(env, base, subs[..n], minCommits)
    decreases |subs|
  {
    if n < |subs| {
      var init := subs[..|subs| - 1];
      assert init[..n] == subs[..n];
      SubdirPrefixErr(env, base, init, n, minCommits);
    } else {
      assert subs[..n] == subs;
    }
  }
}
