/** `getGourceLog`: run gource in a repository and namespace every file path
    of its log by the repository's directory name. */
module Extract {
  import opened Wrappers
  import opened Strings
  import opened Oracles

  /** The `|`-separated fields of a gource log line. */
  function Fields(line: string): seq<string>
  {
    Split(line, '|')
  }

  /** `directory.split("/")[-2]`: the second-to-last `/`-segment, which for a
      path ending in `/` is the directory's own name. Python raises when the
      path has no `/` at all. */
  function RepoName(dir: string): (r: Result<string, Error>)
    ensures r.Ok? <==> '/' in dir
    ensures r.Ok? ==> '/' !in r.value
    ensures r.Err? ==> r.error == NoRepoName(dir)
  {
    var parts := Split(dir, '/');
    CountOfPositive(dir, '/');
    if |parts| < 2 then Err(NoRepoName(dir)) else Ok(parts[|parts| - 2])
  }

  /** For a path `pre + name + "/"` whose last segment is `name`, the
      repository name is exactly `name`. */
  lemma RepoNameIsLastSegment(pre: string, name: string)
    requires '/' !in name
    requires |pre| == 0 || pre[|pre| - 1] == '/'
    ensures RepoName(pre + name + "/") == Ok(name)
  {
    assert name + "/" == name + ['/'] + "";
    SplitCons(name, "", '/');
    assert Split(name + "/", '/') == [name, ""];
    if |pre| > 0 {
      var q := pre[..|pre| - 1];
      assert pre + name + "/" == q + ['/'] + (name + "/");
      SplitAround(q, name + "/", '/');
      var parts := Split(pre + name + "/", '/');
      assert parts == Split(q, '/') + [name, ""];
      assert parts[|parts| - 2] == name;
    } else {
      assert pre + name + "/" == name + "/";
    }
  }

  /** The line with its fourth field prefixed by `repoName`. A line that does
      not unpack into exactly four fields raises, which nothing catches. */
  function RewriteLine(repoName: string, line: string): (r: Result<string, Error>)
    ensures r.Ok? <==> CountOf(line, '|') == 3
    ensures r.Err? ==> r.error == MalformedLine(line)
    ensures r.Ok? ==> |Fields(r.value)| >= 4 && Fields(r.value)[..3] == Fields(line)[..3]
    ensures r.Ok? ==>
      Fields(r.value) == Fields(line)[..3] + Split(repoName + Fields(line)[3], '|')
    ensures r.Ok? && '|' !in repoName ==>
      Fields(r.value) == Fields(line)[..3] + [repoName + Fields(line)[3]]
  {
    var f := Fields(line);
    if |f| != 4 then Err(MalformedLine(line))
    else
      var out := Join([f[0], f[1], f[2], repoName + f[3]], '|');
      JoinFourFields(f[0], f[1], f[2], repoName + f[3]);
      if '|' !in repoName then
        SplitNoSep(repoName + f[3], '|');
        Ok(out)
      else
        Ok(out)
  }

  /** Joining four fields, the first three free of `|`, and splitting again
      gives back the three and the fields of the fourth. */
  lemma JoinFourFields(t: string, u: string, m: string, p: string)
    requires '|' !in t && '|' !in u && '|' !in m
    ensures Split(Join([t, u, m, p], '|'), '|') == [t, u, m] + Split(p, '|')
  {
    var tail := m + ['|'] + p;
    var mid := u + ['|'] + tail;
    assert Join([t, u, m, p], '|') == t + ['|'] + mid by {
      assert [t, u, m, p][1..] == [u, m, p];
      assert [u, m, p][1..] == [m, p];
      assert [m, p][1..] == [p];
      assert Join([m, p], '|') == tail;
      assert Join([u, m, p], '|') == mid;
    }
    SplitCons(m, p, '|');
    SplitCons(u, tail, '|');
    SplitCons(t, mid, '|');
  }

  /** Rewriting can be undone: dropping the repository name from the fourth
      field and joining again gives back the original line. */
  lemma RewriteLineUndone(repoName: string, line: string)
    requires '|' !in repoName
    requires RewriteLine(repoName, line).Ok?
    ensures var g := Fields(RewriteLine(repoName, line).value);
      && |g| == 4
      && g[3][..|repoName|] == repoName
      && Join(g[..3] + [g[3][|repoName|..]], '|') == line
  {
    var f := Fields(line);
    var g := Fields(RewriteLine(repoName, line).value);
    assert g[3] == repoName + f[3];
    assert g[3][|repoName|..] == f[3];
    assert g[..3] + [g[3][|repoName|..]] == f;
    JoinSplit(line, '|');
  }

  /** The loop over `log.splitlines()`: every line rewritten, in order; the
      first malformed line raises. */
  function RewriteAll(repoName: string, lines: seq<string>): (r: Result<seq<string>, Error>)
    ensures r.Ok? <==> forall i :: 0 <= i < |lines| ==> RewriteLine(repoName, lines[i]).Ok?
    ensures r.Ok? ==> |r.value| == |lines|
    ensures r.Ok? ==> forall i :: 0 <= i < |lines| ==> RewriteLine(repoName, lines[i]) == Ok(r.value[i])
    ensures r.Err? ==>
      exists k :: 0 <= k < |lines| && r.error == MalformedLine(lines[k])
        && RewriteLine(repoName, lines[k]).Err?
        && forall i :: 0 <= i < k ==> RewriteLine(repoName, lines[i]).Ok?
    decreases |lines|
  {
    if |lines| == 0 then Ok([])
    else
      var head :- RewriteLine(repoName, lines[0]);
      var rest :- RewriteAll(repoName, lines[1..]);
      Ok([head] + rest)
  }

  /** `getGourceLog(directory)`. A failing gource is caught: the directory
      contributes nothing. Otherwise each gource line yields one rewritten
      line, in order; a malformed line or a path without `/` escapes the
      handler. */
  function GourceLog(env: Env, dir: string): (r: Result<seq<string>, Error>)
    ensures env.gource(dir).None? ==> r == Ok([])
    ensures env.gource(dir).Some? ==>
      var lines := env.gource(dir).value;
      && (r.Ok? <==> '/' in dir && forall i :: 0 <= i < |lines| ==> CountOf(lines[i], '|') == 3)
      && (r.Ok? ==>
            && |r.value| == |lines|
            && forall i :: 0 <= i < |lines| ==> RewriteLine(RepoName(dir).value, lines[i]) == Ok(r.value[i]))
  {
    match env.gource(dir)
    case None => Ok([])
    case Some(lines) =>
      var name :- RepoName(dir);
      RewriteAll(name, lines)
  }

  /** A line built from four `|`-free fields is rewritten field by field:
      only the fourth changes, by gaining the repository name in front. */
  lemma RewriteJoined(repoName: string, t: string, u: string, m: string, f: string)
    requires '|' !in t && '|' !in u && '|' !in m && '|' !in f
    ensures RewriteLine(repoName, Join([t, u, m, f], '|')) == Ok(Join([t, u, m, repoName + f], '|'))
  {
    JoinFourFields(t, u, m, f);
    SplitNoSep(f, '|');
  }
}
