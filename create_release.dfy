/**
 * `main` of the release script: refuse to run on a dirty tree, compute the
 * next version from the `latest` alias, name its branch, record the new
 * release and repoint `latest` at it.
 */
module CreateRelease {
  import opened Outcomes
  import opened Versions
  import opened VersionSort
  import opened Registry

  const Latest: string := "latest"

  /** How a run ends: a new release on its branch, or the error that stopped it. */
  datatype Outcome = Created(branch: string, version: string) | Failed(error: Error)

  /** The process exit status: 0 after a release; 1 for a dirty tree or an uncaught exception. */
  function ExitCode(o: Outcome): (code: int)
    ensures code == 0 <==> o.Created?
    ensures code == 1 <==> o.Failed?
  {
    if o.Created? then 0 else 1
  }

  /** `args[0] if args else <tip of tree>`. */
  function NewHash(args: seq<string>, tipOfTree: string): string {
    if |args| > 0 then args[0] else tipOfTree
  }

  /** Every alias names a release present in the table. */
  ghost predicate AliasesResolve(releases: OrderedDict, aliases: map<string, string>) {
    forall a :: a in aliases ==> aliases[a] in releases.entries
  }

  /** The registry the script loads, updates in memory and writes back. */
  class ReleaseInfo {
    var releases: OrderedDict
    var aliases: map<string, string>

    ghost predicate Valid()
      reads this
    {
      releases.Valid()
    }

    constructor (releases: OrderedDict, aliases: map<string, string>)
      requires releases.Valid()
      ensures Valid() && this.releases == releases && this.aliases == aliases
    {
      this.releases := releases;
      this.aliases := aliases;
    }

    /**
     * One run of the script. `treeDirty` is whether `git status --porcelain`
     * printed anything, `args` the command-line arguments and `tipOfTree`
     * the hash the tip-of-tree query would return.
     */
    method Promote(treeDirty: bool, args: seq<string>, tipOfTree: string) returns (outcome: Outcome)
      requires Valid()
      modifies this
      ensures Valid()
      // a dirty tree stops the run before anything is read or changed
      ensures treeDirty ==> outcome == Failed(DirtyTree) && releases == old(releases) && aliases == old(aliases)
      // `aliases['latest']` raises KeyError when absent
      ensures !treeDirty && Latest !in old(aliases) ==>
                outcome == Failed(MissingKey(Latest)) && releases == old(releases) && aliases == old(aliases)
      // the latest version does not parse
      ensures !treeDirty && Latest in old(aliases) && NextVersion(old(aliases)[Latest]).Err? ==>
                outcome == Failed(NextVersion(old(aliases)[Latest]).error)
                && releases == old(releases) && aliases == old(aliases)
      // from here on the next version is known
      ensures !treeDirty && Latest in old(aliases) && NextVersion(old(aliases)[Latest]).Ok? ==>
                var parts := NextVersion(old(aliases)[Latest]).value;
                var version := VersionString(parts);
                var promoted := PromoteReleases(old(releases), version, NewHash(args, tipOfTree));
                // a release key that does not parse makes the sort raise after the insertion
                && (promoted.Err? ==>
                      outcome == Failed(promoted.error)
                      && releases == old(releases).Put(version, NewHash(args, tipOfTree))
                      && aliases == old(aliases))
                && (promoted.Ok? ==>
                      outcome == Created(BranchName(parts), version)
                      && releases == promoted.value
                      && aliases == old(aliases)[Latest := version])
      ensures outcome.Created? ==> releases.entries[outcome.version] == NewHash(args, tipOfTree)
      ensures outcome.Created? ==> DescendingByVersion(releases.order)
      ensures outcome.Created? && AliasesResolve(old(releases), old(aliases)) ==> AliasesResolve(releases, aliases)
    {
      if treeDirty {
        return Failed(DirtyTree);
      }
      if Latest !in aliases {
        return Failed(MissingKey(Latest));
      }
      var parsed := VersionToList(aliases[Latest]);
      if parsed.Err? {
        return Failed(parsed.error);
      }
      var parts := parsed.value;
      parts := parts[|parts| - 1 := parts[|parts| - 1] + 1];
      assert NextVersion(aliases[Latest]) == Ok(parts);
      var branch := BranchName(parts);
      var version := VersionString(parts);
      var hash := NewHash(args, tipOfTree);
      var recorded := Record(version, hash);
      if recorded.Err? {
        return Failed(recorded.error);
      }
      outcome := Created(branch, version);
    }

    /**
     * Lines 37-42: `releases[version] = hash`, rewrite the table newest
     * first and point `latest` at the new version. A key that does not
     * parse makes the sort raise after the insertion, before `latest` moves.
     */
    method Record(version: string, hash: string) returns (result: Result<()>)
      requires Valid()
      modifies this
      ensures Valid()
      ensures result.Err? <==> PromoteReleases(old(releases), version, hash).Err?
      ensures result.Err? ==>
                result.error == PromoteReleases(old(releases), version, hash).error
                && releases == old(releases).Put(version, hash) && aliases == old(aliases)
      ensures result.Ok? ==>
                releases == PromoteReleases(old(releases), version, hash).value
                && aliases == old(aliases)[Latest := version]
    {
      ghost var promoted := PromoteReleases(releases, version, hash);
      releases := releases.Put(version, hash);
      var sorted := SortByVersionDescending(releases.order);
      if sorted.Err? {
        assert promoted == Err(sorted.error);
        return Err(sorted.error);
      }
      releases := OrderedDict(sorted.value, releases.entries);
      assert promoted == Ok(releases);
      aliases := aliases[Latest := version];
      result := Ok(());
    }
  }
}
