/**
 * What the resolver of cmd/libs/go2idl/openapi-gen/main.go promises: how a
 * token splits, where each group version's directory is, how the path table
 * keeps the last write, and that the grouped output is unique and accounts
 * for every token.
 */
module ResolverProperties {
  import Strings
  import FilePath
  import opened Sorting
  import opened OpenApiGen

  /**
   * A token with at most one '/' is all group/version. A longer one is cut
   * before its last two segments: prefix, '/', group/version give back the
   * token, the group/version holds exactly one '/' between its two segments,
   * and the prefix holds the other separators.
   */
  lemma ParsePathGroupVersionSplits(pgvString: string)
    ensures var (gvPath, gvString) := ParsePathGroupVersion(pgvString);
      var subs := Strings.Split(pgvString, '/');
      && (Strings.Count(pgvString, '/') <= 1 ==> gvPath == "" && gvString == pgvString)
      && (Strings.Count(pgvString, '/') >= 2 ==>
        && gvPath + "/" + gvString == pgvString
        && Strings.Split(gvString, '/') == subs[|subs| - 2..]
        && Strings.Count(gvString, '/') == 1
        && Strings.Count(gvPath, '/') == Strings.Count(pgvString, '/') - 2)
  {
    var subs := Strings.Split(pgvString, '/');
    var n := |subs|;
    if n > 2 {
      var (gvPath, gvString) := ParsePathGroupVersion(pgvString);
      var a, b := subs[n - 2], subs[n - 1];
      assert subs[n - 2..] == [a, b];
      assert gvPath == Strings.Join(subs[..n - 2], '/');
      assert Strings.Join([a, b], '/') == a + "/" + b;
      assert gvString == a + "/" + b;
      Strings.JoinSplit(pgvString, '/');
      Strings.JoinAt(subs, n - 2, '/');
      assert gvPath + "/" + gvString == pgvString;
      Strings.SplitNoSeparator(a, '/');
      Strings.SplitLast(a, b, '/');
      Strings.CountAppend(a, "/", '/');
      Strings.CountAppend(a + "/", b, '/');
      Strings.CountAppend(gvPath, "/", '/');
      Strings.CountAppend(gvPath + "/", gvString, '/');
    }
  }

  /** A directory, a group and a version joined by '/' parse back into exactly those parts. */
  lemma ParseSuffix(dir: string, group: string, version: string)
    requires '/' !in group && '/' !in version
    ensures ParsePathGroupVersion(dir + "/" + group + "/" + version) == (dir, group + "/" + version)
  {
    var s := dir + "/" + group + "/" + version;
    Strings.SplitLast(dir + "/" + group, version, '/');
    Strings.SplitLast(dir, group, '/');
    var subs := Strings.Split(s, '/');
    var n := |subs|;
    assert subs == Strings.Split(dir, '/') + [group, version];
    assert subs[..n - 2] == Strings.Split(dir, '/');
    assert subs[n - 2..] == [group, version];
    assert Strings.Join([group, version], '/') == group + "/" + version;
    Strings.JoinSplit(dir, '/');
  }

  /** The parent directory of a group's packages: beside `basePath` for the core group. */
  function GroupParent(basePath: string, gvPath: string, group: string): string
  {
    if group == CoreGroup then FilePath.Join([basePath, ".."]) else FilePath.Join([basePath, gvPath])
  }

  /**
   * The directory of a group version is the group's parent directory, then
   * the group, then the version, each empty one left out: for the core group
   * the parent of `basePath` (the token's prefix is ignored), for any other
   * group `basePath` joined with the token's prefix.
   */
  lemma VersionToPathShape(basePath: string, gvPath: string, group: string, version: string)
    ensures VersionToPath(basePath, gvPath, group, version)
      == FilePath.Extend(FilePath.Extend(GroupParent(basePath, gvPath, group), group), version)
  {
    if group == CoreGroup {
      assert [basePath, CoreGroupDir, version] == [basePath, CoreGroupDir] + [version];
      assert [basePath, CoreGroupDir] == [basePath] + [CoreGroupDir];
      assert [basePath, ".."] == [basePath] + [".."];
      assert [basePath] == [] + [basePath];
      FilePath.JoinSnoc([basePath, CoreGroupDir], version);
      FilePath.JoinSnoc([basePath], CoreGroupDir);
      FilePath.JoinSnoc([basePath], "..");
      FilePath.JoinSnoc([], basePath);
      assert CoreGroupDir == ".." + "/" + "api";
    } else {
      assert [basePath, gvPath, group, version] == [basePath, gvPath, group] + [version];
      assert [basePath, gvPath, group] == [basePath, gvPath] + [group];
      FilePath.JoinSnoc([basePath, gvPath, group], version);
      FilePath.JoinSnoc([basePath, gvPath], group);
    }
  }

  /**
   * Round trip between `versionToPath` and `parsePathGroupVersion`: the last
   * two segments of a group version's directory are the group and the version.
   */
  lemma VersionToPathParses(basePath: string, gvPath: string, group: string, version: string)
    requires group != "" && version != "" && '/' !in group && '/' !in version
    ensures ParsePathGroupVersion(VersionToPath(basePath, gvPath, group, version))
      == (GroupParent(basePath, gvPath, group), group + "/" + version)
  {
    VersionToPathShape(basePath, gvPath, group, version);
    var dir := GroupParent(basePath, gvPath, group);
    if dir == "" {
      var s := group + "/" + version;
      Strings.CountAppend(group, "/", '/');
      Strings.CountAppend(group + "/", version, '/');
      ParsePathGroupVersionSplits(s);
    } else {
      ParseSuffix(dir, group, version);
    }
  }

  /**
   * A token "group/" has an empty version: its directory is the group's own
   * directory, whose last segment is the group and whose other segments are
   * those of the parent directory.
   */
  lemma VersionToPathGroupDir(basePath: string, gvPath: string, group: string)
    requires group != "" && '/' !in group
    ensures var dir := GroupParent(basePath, gvPath, group);
      Strings.Split(VersionToPath(basePath, gvPath, group, ""), '/')
        == (if dir == "" then [] else Strings.Split(dir, '/')) + [group]
  {
    VersionToPathShape(basePath, gvPath, group, "");
    var dir := GroupParent(basePath, gvPath, group);
    if dir == "" {
      Strings.SplitNoSeparator(group, '/');
    } else {
      Strings.SplitLast(dir, group, '/');
    }
  }

  /** `i` is the last position at which its group version occurs. */
  ghost predicate LastOccurrence(ts: seq<Target>, i: int)
  {
    0 <= i < |ts| && forall j :: i < j < |ts| ==> ts[j].gv != ts[i].gv
  }

  /** `gvToPath` has one key per distinct group version seen. */
  lemma {:induction false} PathTableKeys(basePath: string, ts: seq<Target>)
    ensures PathTable(basePath, ts).Keys == set i | 0 <= i < |ts| :: ts[i].gv
    decreases |ts|
  {
    if ts != [] {
      var n := |ts| - 1;
      var front := ts[..n];
      PathTableKeys(basePath, front);
      assert (set i | 0 <= i < |ts| :: ts[i].gv)
        == (set i | 0 <= i < |front| :: front[i].gv) + {ts[n].gv};
    }
  }

  /** Each key of `gvToPath` maps to the path of the last target with that group version. */
  lemma {:induction false} PathTableLastWrite(basePath: string, ts: seq<Target>)
    ensures forall i :: LastOccurrence(ts, i) ==>
      ts[i].gv in PathTable(basePath, ts) && PathTable(basePath, ts)[ts[i].gv] == TargetPath(basePath, ts[i])
    decreases |ts|
  {
    if ts != [] {
      var n := |ts| - 1;
      var front := ts[..n];
      PathTableLastWrite(basePath, front);
      forall i | LastOccurrence(ts, i)
        ensures ts[i].gv in PathTable(basePath, ts) && PathTable(basePath, ts)[ts[i].gv] == TargetPath(basePath, ts[i])
      {
        if i < n {
          assert front[i] == ts[i];
          assert LastOccurrence(front, i);
        }
      }
    }
  }

  /**
   * The grouped output is determined by the targets: however the map of
   * groups is iterated, sorting leaves exactly one possible `groups`.
   */
  lemma GroupedUnique(groups1: seq<GroupVersions>, groups2: seq<GroupVersions>, ts: seq<Target>)
    requires Grouped(groups1, ts) && Grouped(groups2, ts)
    ensures groups1 == groups2
  {
    AscendingUnique(Names(groups1), Names(groups2));
    forall k | 0 <= k < |groups1| ensures groups1[k] == groups2[k] {
      assert Names(groups1)[k] == groups1[k].group;
      assert Names(groups2)[k] == groups2[k].group;
    }
  }

  /** The number of versions over all groups. */
  function TotalVersions(groups: seq<GroupVersions>): nat
  {
    if groups == [] then 0 else |groups[0].versions| + TotalVersions(groups[1..])
  }

  /** The number of versions of the named groups among the targets. */
  function SumVersions(ts: seq<Target>, names: seq<string>): nat
  {
    if names == [] then 0 else |VersionsOf(ts, names[0])| + SumVersions(ts, names[1..])
  }

  /** Every token's version lands in exactly one group: the versions add up to the tokens. */
  lemma GroupedCountsEveryToken(groups: seq<GroupVersions>, ts: seq<Target>)
    requires Grouped(groups, ts)
    ensures TotalVersions(groups) == |ts|
  {
    TotalIsSum(groups, ts);
    SortedDistinctAscending(Names(groups));
    forall i | 0 <= i < |ts| ensures ts[i].gv.group in Names(groups) {
      assert ts[i].gv.group in GroupsOf(ts);
    }
    SumVersionsCovers(ts, Names(groups));
  }

  lemma {:induction false} TotalIsSum(groups: seq<GroupVersions>, ts: seq<Target>)
    requires forall k :: 0 <= k < |groups| ==> groups[k].versions == VersionsOf(ts, groups[k].group)
    ensures TotalVersions(groups) == SumVersions(ts, Names(groups))
    decreases |groups|
  {
    if groups != [] {
      assert Names(groups)[1..] == Names(groups[1..]);
      TotalIsSum(groups[1..], ts);
    }
  }

  lemma {:induction false} SumVersionsNone(names: seq<string>)
    ensures SumVersions([], names) == 0
    decreases |names|
  {
    if names != [] {
      SumVersionsNone(names[1..]);
    }
  }

  lemma {:induction false} SumVersionsSnoc(ts: seq<Target>, t: Target, names: seq<string>)
    ensures SumVersions(ts + [t], names) == SumVersions(ts, names) + multiset(names)[t.gv.group]
    decreases |names|
  {
    if names != [] {
      var g, rest := names[0], names[1..];
      VersionsOfSnoc(ts, t, g);
      SumVersionsSnoc(ts, t, rest);
      MultiplicityCons(names, t.gv.group);
    }
  }

  /** The occurrences of `x` in a non-empty sequence: its head, then its tail. */
  lemma MultiplicityCons(s: seq<string>, x: string)
    requires s != []
    ensures multiset(s)[x] == (if s[0] == x then 1 else 0) + multiset(s[1..])[x]
  {
    assert s == [s[0]] + s[1..];
  }

  /** Over distinct names covering every target's group, the versions add up to the targets. */
  lemma {:induction false} SumVersionsCovers(ts: seq<Target>, names: seq<string>)
    requires NoDuplicates(names)
    requires forall i :: 0 <= i < |ts| ==> ts[i].gv.group in names
    ensures SumVersions(ts, names) == |ts|
    decreases |ts|
  {
    if ts == [] {
      SumVersionsNone(names);
    } else {
      var n := |ts| - 1;
      var front, last := ts[..n], ts[n];
      assert forall i :: 0 <= i < n ==> front[i] == ts[i];
      SumVersionsCovers(front, names);
      assert ts == front + [last];
      SumVersionsSnoc(front, last, names);
      NoDuplicatesMultiplicity(names, last.gv.group);
      assert last.gv.group in multiset(names);
    }
  }
}
