/** The second-generation package installer's project step: a package list
    `name:04t…,name:04t…` is parsed, and the project file's first package
    directory and its alias table are rewritten to depend on those
    packages. */
module ProjectCreator {
  import opened Js

  const ID_PREFIX := "04t"

  datatype Package = Package(name: string, id: string)

  datatype Result<T> = Ok(value: T) | Err(error: string)

  function FormatError(pkg: string): string
  {
    "Invalid package format: '" + pkg + "'. Expected format 'packageName:packageId'."
  }

  function IdError(id: string): string
  {
    "Invalid package ID: '" + id + "'. Package IDs should start with '04t'."
  }

  /** One comma-separated entry: split at `:`, the first two parts trimmed
      (any further parts ignored); both must be non-empty and the id must
      start with `04t`. */
  function ParseEntry(pkg: string): Result<Package>
  {
    var parts := Split(pkg, ':');
    var name := Trim(parts[0]);
    var id := if |parts| >= 2 then Some(Trim(parts[1])) else None;
    if name == "" || !TruthyString(id) then Err(FormatError(pkg))
    else if !StartsWith(id.value, ID_PREFIX) then Err(IdError(id.value))
    else Ok(Package(name, id.value))
  }

  /** An entry parses exactly when both trimmed parts are non-empty and the
      id has the prefix; a missing part is a format error, a bad prefix an
      id error. */
  lemma ParseEntryCases(pkg: string)
    ensures var parts := Split(pkg, ':');
            var r := ParseEntry(pkg);
            && (r.Ok? <==> Trim(parts[0]) != "" && |parts| >= 2 && Trim(parts[1]) != ""
                           && StartsWith(Trim(parts[1]), ID_PREFIX))
            && (r.Ok? ==> r.value == Package(Trim(parts[0]), Trim(parts[1])))
            && (r.Err? ==> r.error == if Trim(parts[0]) == "" || |parts| < 2 || Trim(parts[1]) == ""
                                      then FormatError(pkg) else IdError(Trim(parts[1])))
  {
  }

  /** The `map` over the per-entry results: the packages in order, or the
      error of the first entry that throws. */
  function FirstError(results: seq<Result<Package>>): (r: Result<seq<Package>>)
    ensures r.Ok? <==> forall i :: 0 <= i < |results| ==> results[i].Ok?
    ensures r.Ok? ==> |r.value| == |results|
                      && forall i :: 0 <= i < |results| ==> results[i] == Ok(r.value[i])
    ensures r.Err? ==> exists k :: 0 <= k < |results| && results[k] == Err(r.error)
                                   && forall j :: 0 <= j < k ==> results[j].Ok?
  {
    if results == [] then Ok([])
    else
      match results[0]
      case Err(e) => Err(e)
      case Ok(p) =>
        var rest := FirstError(results[1..]);
        assert forall i :: 1 <= i < |results| ==> results[1..][i - 1] == results[i];
        if rest.Err? then
          var k :| 0 <= k < |results[1..]| && results[1..][k] == Err(rest.error)
                   && forall j :: 0 <= j < k ==> results[1..][j].Ok?;
          assert results[k + 1] == Err(rest.error);
          Err(rest.error)
        else
          Ok([p] + rest.value)
  }

  /** The result of each comma-separated entry, in order. */
  function EntryResults(packageString: string): (rs: seq<Result<Package>>)
    ensures |rs| == |Split(packageString, ',')|
    ensures forall i :: 0 <= i < |rs| ==> rs[i] == ParseEntry(Split(packageString, ',')[i])
  {
    var entries := Split(packageString, ',');
    seq(|entries|, i requires 0 <= i < |entries| => ParseEntry(entries[i]))
  }

  /** `parsePackages`. */
  function ParsePackages(packageString: string): Result<seq<Package>>
  {
    FirstError(EntryResults(packageString))
  }

  /** A package that survives a round trip through the text form: its name
      and id hold no separator and no surrounding white space, the name is
      not empty and the id has the right prefix. */
  predicate WellFormed(p: Package)
  {
    p.name != "" && ',' !in p.name && ':' !in p.name
    && !IsWhitespace(p.name[0]) && !IsWhitespace(p.name[|p.name| - 1])
    && StartsWith(p.id, ID_PREFIX) && ',' !in p.id && ':' !in p.id
    && !IsWhitespace(p.id[0]) && !IsWhitespace(p.id[|p.id| - 1])
  }

  /** The text form `name:id,name:id,…` of a package list. */
  function Format(pkgs: seq<Package>): string
  {
    Join(seq(|pkgs|, i requires 0 <= i < |pkgs| => pkgs[i].name + ":" + pkgs[i].id), ',')
  }

  lemma EntryRoundTrip(p: Package)
    requires WellFormed(p)
    ensures ParseEntry(p.name + ":" + p.id) == Ok(p)
  {
    var s := p.name + ":" + p.id;
    assert s == p.name + [':'] + p.id;
    SplitPair(p.name, p.id, ':');
    TrimUnpadded(p.name);
    TrimUnpadded(p.id);
    var parts := Split(s, ':');
    assert parts[0] == p.name && parts[1] == p.id && |parts| == 2;
  }

  /** Each entry of the text form of well-formed packages parses back to
      its package. */
  lemma FormatEntries(pkgs: seq<Package>)
    requires |pkgs| >= 1 && forall i :: 0 <= i < |pkgs| ==> WellFormed(pkgs[i])
    ensures var rs := EntryResults(Format(pkgs));
            |rs| == |pkgs| && forall i :: 0 <= i < |rs| ==> rs[i] == Ok(pkgs[i])
  {
    var entries := seq(|pkgs|, i requires 0 <= i < |pkgs| => pkgs[i].name + ":" + pkgs[i].id);
    forall i | 0 <= i < |entries| ensures ',' !in entries[i] && ParseEntry(entries[i]) == Ok(pkgs[i]) {
      EntryRoundTrip(pkgs[i]);
    }
    SplitJoin(entries, ',');
  }

  /** Entries that all parse give the packages, in order. */
  lemma AllParsed(rs: seq<Result<Package>>, pkgs: seq<Package>)
    requires |rs| == |pkgs| && forall i :: 0 <= i < |rs| ==> rs[i] == Ok(pkgs[i])
    ensures FirstError(rs) == Ok(pkgs)
  {
    var r := FirstError(rs);
    assert r.Ok?;
    assert r.value == pkgs;
  }

  /** Parsing the text form of a non-empty list of well-formed packages
      gives the list back. */
  lemma ParseFormat(pkgs: seq<Package>)
    requires |pkgs| >= 1 && forall i :: 0 <= i < |pkgs| ==> WellFormed(pkgs[i])
    ensures ParsePackages(Format(pkgs)) == Ok(pkgs)
  {
    FormatEntries(pkgs);
    AllParsed(EntryResults(Format(pkgs)), pkgs);
  }

  /** The alias table after the `forEach`: each name mapped to its id, a
      later entry for the same name overwriting an earlier one. */
  function Aliased(aliases: map<string, string>, pkgs: seq<Package>): map<string, string>
  {
    if pkgs == [] then aliases
    else
      var last := pkgs[|pkgs| - 1];
      Aliased(aliases, pkgs[..|pkgs| - 1])[last.name := last.id]
  }

  /** The names in a package list. */
  function PackageNames(pkgs: seq<Package>): set<string>
  {
    set i | 0 <= i < |pkgs| :: pkgs[i].name
  }

  /** The alias table holds the old aliases and the new names. */
  lemma {:induction false} AliasedKeys(aliases: map<string, string>, pkgs: seq<Package>)
    ensures Aliased(aliases, pkgs).Keys == aliases.Keys + PackageNames(pkgs)
  {
    if pkgs != [] {
      var init := pkgs[..|pkgs| - 1];
      AliasedKeys(aliases, init);
      NamesSnoc(pkgs);
    }
  }

  lemma NamesSnoc(pkgs: seq<Package>)
    requires pkgs != []
    ensures PackageNames(pkgs) == PackageNames(pkgs[..|pkgs| - 1]) + {pkgs[|pkgs| - 1].name}
  {
    var init := pkgs[..|pkgs| - 1];
    forall n | n in PackageNames(pkgs) ensures n in PackageNames(init) + {pkgs[|pkgs| - 1].name} {
      var i :| 0 <= i < |pkgs| && pkgs[i].name == n;
      if i < |init| {
        assert init[i].name == n;
      }
    }
    forall n | n in PackageNames(init) ensures n in PackageNames(pkgs) {
      var i :| 0 <= i < |init| && init[i].name == n;
      assert pkgs[i].name == n;
    }
  }

  /** An old alias whose name is not among the packages keeps its id. */
  lemma {:induction false} AliasedKeeps(aliases: map<string, string>, pkgs: seq<Package>, n: string)
    requires n in aliases && n !in PackageNames(pkgs)
    ensures n in Aliased(aliases, pkgs) && Aliased(aliases, pkgs)[n] == aliases[n]
  {
    if pkgs != [] {
      NamesSnoc(pkgs);
      AliasedKeeps(aliases, pkgs[..|pkgs| - 1], n);
    }
  }

  /** A package name maps to the id of its last entry: a later duplicate
      overwrites an earlier one. */
  lemma {:induction false} AliasedLastWins(aliases: map<string, string>, pkgs: seq<Package>, i: nat)
    requires i < |pkgs| && forall j :: i < j < |pkgs| ==> pkgs[j].name != pkgs[i].name
    ensures pkgs[i].name in Aliased(aliases, pkgs) && Aliased(aliases, pkgs)[pkgs[i].name] == pkgs[i].id
  {
    if i < |pkgs| - 1 {
      var init := pkgs[..|pkgs| - 1];
      assert init[i] == pkgs[i];
      assert forall j :: i < j < |init| ==> init[j] == pkgs[j];
      AliasedLastWins(aliases, init, i);
    }
  }

  /** The parsed `sfdx-project.json`, as far as the installer touches it:
      the first package directory's `package`, `versionNumber` and
      `dependencies`, and the top-level `packageAliases`. */
  class ProjectFile {
    var package: Option<string>
    var versionNumber: Option<string>
    var dependencies: seq<string>
    var packageAliases: Option<map<string, string>>

    constructor(package: Option<string>, versionNumber: Option<string>, dependencies: seq<string>,
                packageAliases: Option<map<string, string>>)
      ensures this.package == package && this.versionNumber == versionNumber
      ensures this.dependencies == dependencies && this.packageAliases == packageAliases
    {
      this.package := package;
      this.versionNumber := versionNumber;
      this.dependencies := dependencies;
      this.packageAliases := packageAliases;
    }

    /** `addDependencies`: defaults for a missing package name and version,
        the dependency list replaced by the packages in order, and each
        package added to the alias table. */
    method AddDependencies(packages: seq<Package>)
      modifies this
      ensures package == if TruthyString(old(package)) then old(package) else Some("tempPackage")
      ensures versionNumber == if TruthyString(old(versionNumber)) then old(versionNumber) else Some("1.0.0.NEXT")
      ensures |dependencies| == |packages| && forall i :: 0 <= i < |packages| ==> dependencies[i] == packages[i].name
      ensures packageAliases == Some(Aliased(if old(packageAliases).Some? then old(packageAliases).value else map[], packages))
    {
      if !TruthyString(package) {
        package := Some("tempPackage");
      }
      if !TruthyString(versionNumber) {
        versionNumber := Some("1.0.0.NEXT");
      }
      dependencies := seq(|packages|, i requires 0 <= i < |packages| => packages[i].name);
      if packageAliases.None? {
        packageAliases := Some(map[]);
      }
      ghost var base := packageAliases.value;
      ghost var package1, version1, dependencies1 := package, versionNumber, dependencies;
      var i := 0;
      while i < |packages|
        invariant 0 <= i <= |packages|
        invariant package == package1 && versionNumber == version1 && dependencies == dependencies1
        invariant packageAliases == Some(Aliased(base, packages[..i]))
      {
        assert packages[..i + 1][..i] == packages[..i];
        packageAliases := Some(packageAliases.value[packages[i].name := packages[i].id]);
        i := i + 1;
      }
      assert packages[..i] == packages;
    }

    /** The `if (packages)` step of `main`: nothing to do without a package
        string; a string that does not parse leaves the file untouched and
        reports the error (which `main` prints before returning). */
    method AddPackages(packages: Option<string>) returns (error: Option<string>)
      modifies this
      ensures !TruthyString(packages) ==> error.None? && unchanged(this)
      ensures TruthyString(packages) && ParsePackages(packages.value).Err? ==>
                error == Some(ParsePackages(packages.value).error) && unchanged(this)
      ensures TruthyString(packages) && ParsePackages(packages.value).Ok? ==>
                error.None?
                && package == (if TruthyString(old(package)) then old(package) else Some("tempPackage"))
                && versionNumber == (if TruthyString(old(versionNumber)) then old(versionNumber) else Some("1.0.0.NEXT"))
                && |dependencies| == |ParsePackages(packages.value).value|
                && (forall i :: 0 <= i < |dependencies| ==> dependencies[i] == ParsePackages(packages.value).value[i].name)
                && packageAliases == Some(Aliased(if old(packageAliases).Some? then old(packageAliases).value else map[],
                                                  ParsePackages(packages.value).value))
    {
      if !TruthyString(packages) {
        return None;
      }
      var parsed := ParsePackages(packages.value);
      if parsed.Err? {
        return Some(parsed.error);
      }
      AddDependencies(parsed.value);
      return None;
    }
  }
}
