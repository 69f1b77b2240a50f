/**
 * The input-directory resolver of the openapi-gen command
 * (cmd/libs/go2idl/openapi-gen/main.go). It turns a list of
 * "dir/.../group/version" tokens into the directories handed to the code
 * generator, the versions of each group in group-name order, and a table
 * from each (group, version) pair to its directory.
 *
 * The package globals `inputVersions` and `basePath` are parameters here,
 * and so is `types.ToGroupVersion`, whose source is not part of this model:
 * it either parses a "group/version" string or reports an error.
 */
module OpenApiGen {
  import opened Wrappers
  import Strings
  import FilePath
  import opened Sorting

  /** `types.GroupVersion`: a group name and a version name. */
  datatype GroupVersion = GroupVersion(group: string, version: string)

  /** `types.GroupVersions`: a group with its versions in encounter order. */
  datatype GroupVersions = GroupVersions(group: string, versions: seq<string>)

  /** The core group, whose packages live in a sibling directory of `basePath`. */
  const CoreGroup: string := "api"

  /** Where the core group's packages are, relative to `basePath`. */
  const CoreGroupDir: string := "../api"

  /**
   * `parsePathGroupVersion`: a token of at most two '/'-separated segments is
   * all group/version; otherwise the last two segments are the group/version
   * and the segments before them the directory prefix.
   */
  function ParsePathGroupVersion(pgvString: string): (string, string)
  {
    var subs := Strings.Split(pgvString, '/');
    var length := |subs|;
    if length <= 2 then ("", pgvString)
    else (Strings.Join(subs[..length - 2], '/'), Strings.Join(subs[length - 2..], '/'))
  }

  /**
   * `versionToPath`: the directory of one group version. The core group is
   * found beside `basePath` and ignores the token's prefix.
   */
  function VersionToPath(basePath: string, gvPath: string, group: string, version: string): string
  {
    if group == CoreGroup then FilePath.Join([basePath, CoreGroupDir, version])
    else FilePath.Join([basePath, gvPath, group, version])
  }

  /** What one input token resolves to: its directory prefix and its group version. */
  datatype Target = Target(gvPath: string, gv: GroupVersion)

  /** One iteration's parsing: split the token, then parse its group/version part. */
  function ParseInput<E>(input: string, toGroupVersion: string -> Result<GroupVersion, E>): Result<Target, E>
  {
    var (gvPath, gvString) := ParsePathGroupVersion(input);
    match toGroupVersion(gvString)
    case Failure(e) => Failure(e)
    case Success(gv) => Success(Target(gvPath, gv))
  }

  /** `ParseInput` as a function value, the per-token parser of `ParseAll`. */
  function Parser<E>(toGroupVersion: string -> Result<GroupVersion, E>): string -> Result<Target, E>
  {
    input => ParseInput(input, toGroupVersion)
  }

  /** All tokens parsed in order, or the error of the first token that does not parse. */
  function ParseAll<E>(inputs: seq<string>, parse: string -> Result<Target, E>): Result<seq<Target>, E>
  {
    if inputs == [] then Success([])
    else
      var front := inputs[..|inputs| - 1];
      match ParseAll(front, parse)
      case Failure(e) => Failure(e)
      case Success(ts) =>
        match parse(inputs[|inputs| - 1])
        case Failure(e) => Failure(e)
        case Success(t) => Success(ts + [t])
  }

  /** The directory of one parsed token. */
  function TargetPath(basePath: string, t: Target): string
  {
    VersionToPath(basePath, t.gvPath, t.gv.group, t.gv.version)
  }

  /** The groups the targets mention. */
  ghost function GroupsOf(ts: seq<Target>): set<string>
  {
    set i | 0 <= i < |ts| :: ts[i].gv.group
  }

  /** The versions of `group` among the targets, in order, repetitions kept. */
  function VersionsOf(ts: seq<Target>, group: string): seq<string>
  {
    if ts == [] then []
    else
      var last := ts[|ts| - 1];
      VersionsOf(ts[..|ts| - 1], group) + (if last.gv.group == group then [last.gv.version] else [])
  }

  /** The table `gvToPath` after writing every target's path in order. */
  function PathTable(basePath: string, ts: seq<Target>): map<GroupVersion, string>
  {
    if ts == [] then map[]
    else
      var last := ts[|ts| - 1];
      PathTable(basePath, ts[..|ts| - 1])[last.gv := TargetPath(basePath, last)]
  }

  /** The group names of a list of `GroupVersions`, in order. */
  function Names(groups: seq<GroupVersions>): seq<string>
  {
    seq(|groups|, k requires 0 <= k < |groups| => groups[k].group)
  }

  /**
   * The grouped output for the targets: one entry per group mentioned, in
   * strictly ascending name order, each with that group's versions.
   */
  ghost predicate Grouped(groups: seq<GroupVersions>, ts: seq<Target>)
  {
    && Ascending(Names(groups))
    && (forall g :: g in Names(groups) <==> g in GroupsOf(ts))
    && forall k :: 0 <= k < |groups| ==> groups[k].versions == VersionsOf(ts, groups[k].group)
  }

  /**
   * What the first loop of `parseInputVersions` has built after the targets
   * `ts`: their paths in order, each group's versions in order, and the path
   * table.
   */
  ghost predicate Resolved(basePath: string, ts: seq<Target>, paths: seq<string>,
                           seenGroups: map<string, seq<string>>, gvToPath: map<GroupVersion, string>)
  {
    && |paths| == |ts|
    && (forall j :: 0 <= j < |ts| ==> paths[j] == TargetPath(basePath, ts[j]))
    && seenGroups.Keys == GroupsOf(ts)
    && (forall g :: g in seenGroups ==> seenGroups[g] == VersionsOf(ts, g))
    && gvToPath == PathTable(basePath, ts)
  }

  /**
   * What `parseInputVersions` returns for the targets `ts`: one path per
   * target, each that target's directory; the groups in name order with
   * their versions; and the table left by writing every path in order.
   */
  ghost predicate Resolution(basePath: string, ts: seq<Target>, paths: seq<string>,
                             groups: seq<GroupVersions>, gvToPath: map<GroupVersion, string>)
  {
    && |paths| == |ts|
    && (forall i :: 0 <= i < |ts| ==> paths[i] == TargetPath(basePath, ts[i]))
    && Grouped(groups, ts)
    && gvToPath == PathTable(basePath, ts)
  }

  /**
   * `parseInputVersions`: resolves every token in order. On the first token
   * whose group/version does not parse it returns that error and nothing
   * else; otherwise one path per token, the groups in name order and the
   * path table with the last write for each pair.
   */
  method ParseInputVersions<E>(inputVersions: seq<string>, basePath: string,
                               toGroupVersion: string -> Result<GroupVersion, E>)
    returns (paths: seq<string>, groups: seq<GroupVersions>,
             gvToPath: map<GroupVersion, string>, err: Option<E>)
    ensures match ParseAll(inputVersions, Parser(toGroupVersion))
      case Failure(e) =>
        err == Some(e) && |paths| == 0 && |groups| == 0 && |gvToPath| == 0
      case Success(ts) =>
        err == None && |ts| == |inputVersions| && Resolution(basePath, ts, paths, groups, gvToPath)
  {
    var seenGroups: map<string, seq<string>>;
    paths, seenGroups, gvToPath, err := ResolveInputs(inputVersions, basePath, toGroupVersion);
    if err.Some? {
      return [], [], map[], err;
    }
    var groupNames := SortedKeys(seenGroups);
    groups := GroupsInOrder(groupNames, seenGroups);
    assert Names(groups) == groupNames;
  }

  /**
   * The first loop of `parseInputVersions`: parses the tokens in order,
   * collecting each group's versions, the paths and the path table, and
   * stops at the first token that does not parse.
   */
  method ResolveInputs<E>(inputVersions: seq<string>, basePath: string,
                          toGroupVersion: string -> Result<GroupVersion, E>)
    returns (paths: seq<string>, seenGroups: map<string, seq<string>>,
             gvToPath: map<GroupVersion, string>, err: Option<E>)
    ensures match ParseAll(inputVersions, Parser(toGroupVersion))
      case Failure(e) => err == Some(e)
      case Success(ts) =>
        err == None && |ts| == |inputVersions| && Resolved(basePath, ts, paths, seenGroups, gvToPath)
  {
    seenGroups := map[];
    gvToPath := map[];
    paths := [];
    ghost var ts: seq<Target> := [];
    var i := 0;
    while i < |inputVersions|
      invariant 0 <= i <= |inputVersions| && |ts| == i
      invariant ParseAll(inputVersions[..i], Parser(toGroupVersion)) == Success(ts)
      invariant Resolved(basePath, ts, paths, seenGroups, gvToPath)
    {
      var input := inputVersions[i];
      var (gvPath, gvString) := ParsePathGroupVersion(input);
      var parsed := toGroupVersion(gvString);
      if parsed.Failure? {
        assert Parser(toGroupVersion)(input) == Failure(parsed.error);
        FirstFailure(inputVersions, i, Parser(toGroupVersion));
        return [], map[], map[], Some(parsed.error);
      }
      var t := Target(gvPath, parsed.value);
      assert Parser(toGroupVersion)(input) == Success(t);
      ParseAllSnoc(inputVersions, i, Parser(toGroupVersion), ts, t);
      paths, seenGroups, gvToPath := RecordTarget(basePath, ts, paths, seenGroups, gvToPath, t);
      ts := ts + [t];
      i := i + 1;
    }
    assert inputVersions[..i] == inputVersions;
    err := None;
  }

  /**
   * One successful iteration of the first loop of `parseInputVersions`:
   * append the version to its group (creating the group when it is new),
   * append the path, and record it in the table.
   */
  method RecordTarget(basePath: string, ghost ts: seq<Target>, paths: seq<string>,
                      seenGroups: map<string, seq<string>>, gvToPath: map<GroupVersion, string>, t: Target)
    returns (newPaths: seq<string>, newGroups: map<string, seq<string>>, newTable: map<GroupVersion, string>)
    requires Resolved(basePath, ts, paths, seenGroups, gvToPath)
    ensures Resolved(basePath, ts + [t], newPaths, newGroups, newTable)
  {
    var gv := t.gv;
    GroupsOfSnoc(ts, t);
    VersionsOfGroups(ts, gv.group);
    if gv.group in seenGroups {
      newGroups := seenGroups[gv.group := seenGroups[gv.group] + [gv.version]];
    } else {
      newGroups := seenGroups[gv.group := [gv.version]];
    }
    forall g | g in newGroups ensures newGroups[g] == VersionsOf(ts + [t], g) {
      VersionsOfSnoc(ts, t, g);
    }
    var path := VersionToPath(basePath, t.gvPath, gv.group, gv.version);
    newPaths := paths + [path];
    newTable := gvToPath[gv := path];
    PathTableSnoc(basePath, ts, t);
  }

  /** The last loop of `parseInputVersions`: each named group's entry, in the given order. */
  method GroupsInOrder(groupNames: seq<string>, seenGroups: map<string, seq<string>>)
    returns (groups: seq<GroupVersions>)
    requires forall k :: 0 <= k < |groupNames| ==> groupNames[k] in seenGroups
    ensures Names(groups) == groupNames
    ensures forall k :: 0 <= k < |groups| ==> groups[k].versions == seenGroups[groupNames[k]]
  {
    groups := [];
    var k := 0;
    while k < |groupNames|
      invariant 0 <= k <= |groupNames| && |groups| == k
      invariant forall m :: 0 <= m < k ==> groups[m] == GroupVersions(groupNames[m], seenGroups[groupNames[m]])
    {
      var name := groupNames[k];
      groups := groups + [GroupVersions(name, seenGroups[name])];
      k := k + 1;
    }
  }

  /**
   * The second loop of `parseInputVersions` and its `sort.Strings`: the keys
   * of the map, visited in the map's unspecified order, then sorted. As the
   * keys are distinct the result is strictly ascending.
   */
  method SortedKeys<V>(m: map<string, V>) returns (names: seq<string>)
    ensures Ascending(names)
    ensures forall g :: g in names <==> g in m
  {
    var remaining := m.Keys;
    var groupNames: seq<string> := [];
    while remaining != {}
      invariant remaining <= m.Keys
      invariant forall g :: g in groupNames <==> g in m && g !in remaining
      invariant NoDuplicates(groupNames)
      decreases |remaining|
    {
      var g :| g in remaining;
      groupNames := groupNames + [g];
      remaining := remaining - {g};
    }
    var sorted := new string[|groupNames|](k requires 0 <= k < |groupNames| => groupNames[k]);
    assert sorted[..] == groupNames;
    SortStrings(sorted);
    names := sorted[..];
    NoDuplicatesPermutation(names, groupNames);
    SortedDistinctAscending(names);
    forall g ensures g in names <==> g in groupNames {
      assert g in names <==> g in multiset(names);
      assert g in groupNames <==> g in multiset(groupNames);
    }
  }

  lemma ParseAllSnoc<E>(inputs: seq<string>, i: nat, parse: string -> Result<Target, E>, ts: seq<Target>, t: Target)
    requires i < |inputs| && ParseAll(inputs[..i], parse) == Success(ts) && parse(inputs[i]) == Success(t)
    ensures ParseAll(inputs[..i + 1], parse) == Success(ts + [t])
  {
    assert inputs[..i + 1][..i] == inputs[..i];
  }

  lemma GroupsOfSnoc(ts: seq<Target>, t: Target)
    ensures GroupsOf(ts + [t]) == GroupsOf(ts) + {t.gv.group}
  {
    assert (ts + [t])[|ts|] == t;
    assert forall i :: 0 <= i < |ts| ==> (ts + [t])[i] == ts[i];
  }

  lemma VersionsOfSnoc(ts: seq<Target>, t: Target, group: string)
    ensures VersionsOf(ts + [t], group)
      == VersionsOf(ts, group) + (if t.gv.group == group then [t.gv.version] else [])
  {
    assert (ts + [t])[..|ts|] == ts;
  }

  /** A group has versions exactly when some target mentions it. */
  lemma {:induction false} VersionsOfGroups(ts: seq<Target>, group: string)
    ensures |VersionsOf(ts, group)| > 0 <==> group in GroupsOf(ts)
    decreases |ts|
  {
    if ts != [] {
      var front, last := ts[..|ts| - 1], ts[|ts| - 1];
      assert ts == front + [last];
      VersionsOfGroups(front, group);
      GroupsOfSnoc(front, last);
    }
  }

  lemma PathTableSnoc(basePath: string, ts: seq<Target>, t: Target)
    ensures PathTable(basePath, ts + [t]) == PathTable(basePath, ts)[t.gv := TargetPath(basePath, t)]
  {
    assert (ts + [t])[..|ts|] == ts;
  }

  /**
   * The meaning of `ParseAll`: on success one target per token, each the
   * token's own parse; on failure the error of a token all of whose
   * predecessors parsed, so that no later token matters.
   */
  lemma {:induction false} ParseAllMeaning<E>(inputs: seq<string>, parse: string -> Result<Target, E>)
    ensures var r := ParseAll(inputs, parse);
      && (r.Success? ==>
        && |r.value| == |inputs|
        && forall i :: 0 <= i < |inputs| ==> parse(inputs[i]) == Success(r.value[i]))
      && (r.Failure? ==>
        exists i :: 0 <= i < |inputs| && parse(inputs[i]) == Failure(r.error)
          && forall j :: 0 <= j < i ==> parse(inputs[j]).Success?)
    decreases |inputs|
  {
    if inputs != [] {
      var n := |inputs| - 1;
      var front := inputs[..n];
      ParseAllMeaning(front, parse);
      assert forall j :: 0 <= j < n ==> front[j] == inputs[j];
      match ParseAll(front, parse)
      case Failure(e) =>
        var f :| 0 <= f < n && parse(front[f]) == Failure(e)
          && forall j :: 0 <= j < f ==> parse(front[j]).Success?;
        assert parse(inputs[f]) == Failure(e);
      case Success(ts) =>
        match parse(inputs[n])
        case Failure(e) =>
          assert forall j :: 0 <= j < n ==> parse(inputs[j]).Success?;
        case Success(t) =>
          assert forall i :: 0 <= i < n ==> (ts + [t])[i] == ts[i];
    }
  }

  /** A failing token after a run of parsed ones is the error of the whole list. */
  lemma FirstFailure<E>(inputs: seq<string>, i: nat, parse: string -> Result<Target, E>)
    requires i < |inputs|
    requires ParseAll(inputs[..i], parse).Success?
    requires parse(inputs[i]).Failure?
    ensures ParseAll(inputs, parse) == Failure(parse(inputs[i]).error)
  {
    ParseAllMeaning(inputs[..i], parse);
    ParseAllMeaning(inputs, parse);
    assert forall j :: 0 <= j < i ==> inputs[..i][j] == inputs[j];
  }
}
