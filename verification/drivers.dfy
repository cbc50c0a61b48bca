/** Which drivers are looked at: the driver directories of the third-party
    repository, the packages `apt-cache search indi-` reports, the drivers
    found in both, and the names that are deliberately skipped. */
module DriverSets {
  import opened Seqs
  import opened Outcomes
  import opened Text

  /** Packages the dependency and merged scripts never process. */
  const IgnoredPackages: seq<string> := ["libapogee", "libindi-dev", "some_other_package"]

  /** An entry of the repository's top directory. */
  datatype Entry = Entry(name: string, isDir: bool)

  predicate IsIndiName(name: string) {
    StartsWith(name, "indi-")
  }

  predicate IsIndiOrLibName(name: string) {
    StartsWith(name, "indi-") || StartsWith(name, "lib")
  }

  /** The names of the directories in `entries` that `keep` accepts, in
      listing order. */
  function DirNames(entries: seq<Entry>, keep: string -> bool): (names: seq<string>)
    ensures |names| <= |entries|
    ensures forall n :: n in names <==> (exists e | e in entries :: e.isDir && e.name == n) && keep(n)
    decreases |entries|
  {
    if entries == [] then []
    else
      var e := Last(entries);
      assert entries == DropLast(entries) + [e];
      DirNames(DropLast(entries), keep) + (if e.isDir && keep(e.name) then [e.name] else [])
  }

  /** The names of the entries, in order. */
  function Names(entries: seq<Entry>): (names: seq<string>)
    ensures |names| == |entries|
    ensures forall i | 0 <= i < |entries| :: names[i] == entries[i].name
  {
    seq(|entries|, i requires 0 <= i < |entries| => entries[i].name)
  }

  function IsKeptDir(keep: string -> bool): Entry -> bool {
    (e: Entry) => e.isDir && keep(e.name)
  }

  /** The directory names are the names of the kept entries, in listing
      order. */
  lemma {:induction false} DirNamesIsFilter(entries: seq<Entry>, keep: string -> bool)
    ensures DirNames(entries, keep) == Names(Filter(entries, IsKeptDir(keep)))
    decreases |entries|
  {
    if entries != [] {
      var init, e := DropLast(entries), Last(entries);
      DirNamesIsFilter(init, keep);
      var f := Filter(init, IsKeptDir(keep));
      if IsKeptDir(keep)(e) {
        assert Names(f + [e]) == Names(f) + [e.name];
      } else {
        assert Names(f) + [] == Names(f);
      }
    }
  }

  /** `list_drivers` of the comparison and listing scripts: the directories
      named `indi-*`; nothing when the directory cannot be listed. */
  function ListDrivers(listing: Option<seq<Entry>>): (drivers: seq<string>)
    ensures listing.None? ==> drivers == []
    ensures forall n :: n in drivers <==>
      listing.Some? && (exists e | e in listing.value :: e.isDir && e.name == n) && StartsWith(n, "indi-")
  {
    if listing.None? then [] else DirNames(listing.value, IsIndiName)
  }

  /** `list_drivers` of the dependency and merged scripts: the directories
      named `indi-*` or `lib*`. */
  function ListDriversAndLibraries(listing: Option<seq<Entry>>): (drivers: seq<string>)
    ensures listing.None? ==> drivers == []
    ensures forall n :: n in drivers <==>
      listing.Some? && (exists e | e in listing.value :: e.isDir && e.name == n)
      && (StartsWith(n, "indi-") || StartsWith(n, "lib"))
  {
    if listing.None? then [] else DirNames(listing.value, IsIndiOrLibName)
  }

  /** A name starting with the word `prefix` opens a line whose first token
      starts with it too. */
  lemma FirstTokenKeepsPrefix(line: string, prefix: string)
    requires IsWord(prefix) && StartsWith(line, prefix)
    ensures |Split(line)| > 0 && StartsWith(Split(line)[0], prefix)
  {
    assert line[0] == prefix[0];
    var n := WordLength(line);
    assert n >= |prefix|;
    assert Split(line)[0] == line[..n];
  }

  predicate IsSearchHit(line: string) {
    StartsWith(line, "indi-") || StartsWith(line, "lib")
  }

  lemma FirstTokenOfHit(line: string)
    requires IsSearchHit(line)
    ensures |Split(line)| > 0 && IsIndiOrLibName(Split(line)[0])
  {
    if StartsWith(line, "indi-") {
      FirstTokenKeepsPrefix(line, "indi-");
    } else {
      FirstTokenKeepsPrefix(line, "lib");
    }
  }

  /** The first token of each line. */
  function FirstTokens(lines: seq<string>): (tokens: seq<string>)
    requires forall i | 0 <= i < |lines| :: IsSearchHit(lines[i])
    ensures |tokens| == |lines|
    ensures forall i | 0 <= i < |lines| :: |Split(lines[i])| > 0 && tokens[i] == Split(lines[i])[0]
    ensures forall i | 0 <= i < |lines| :: IsWord(tokens[i]) && IsIndiOrLibName(tokens[i])
    decreases |lines|
  {
    if lines == [] then []
    else
      var line := Last(lines);
      FirstTokenOfHit(line);
      FirstTokens(DropLast(lines)) + [Split(line)[0]]
  }

  /** `get_debian_drivers`: the package name (first token) of every line of
      `apt-cache search indi-` that starts with `indi-` or `lib`, in output
      order; nothing when the command fails. Every name is a single token
      with that prefix. */
  function SearchPackages(stdout: Option<seq<string>>): (packages: seq<string>)
    ensures stdout.None? ==> packages == []
    ensures stdout.Some? ==> |packages| == |Filter(stdout.value, IsSearchHit)|
    ensures stdout.Some? ==> forall k | 0 <= k < |packages| ::
      |Split(Filter(stdout.value, IsSearchHit)[k])| > 0
      && packages[k] == Split(Filter(stdout.value, IsSearchHit)[k])[0]
    ensures forall k | 0 <= k < |packages| :: IsWord(packages[k]) && IsIndiOrLibName(packages[k])
  {
    match stdout
    case None => []
    case Some(lines) => FirstTokens(Filter(lines, IsSearchHit))
  }

  /** `list(set(third_party) & set(debian))`: each driver found in both
      lists, once; the order of a Python set is not modelled, so any order
      is allowed. */
  method CommonDrivers(thirdParty: seq<string>, debian: seq<string>) returns (common: seq<string>)
    ensures NoDup(common)
    ensures forall x :: x in common <==> x in thirdParty && x in debian
  {
    var pending := set x | x in thirdParty && x in debian;
    common := [];
    while pending != {}
      invariant NoDup(common)
      invariant forall x :: x in common || x in pending <==> x in thirdParty && x in debian
      invariant forall x | x in common :: x !in pending
      decreases |pending|
    {
      var x :| x in pending;
      common := common + [x];
      pending := pending - {x};
    }
  }

  predicate NotIgnored(name: string) {
    name !in IgnoredPackages
  }

  /** The merged script's common drivers: found in both lists and not
      ignored, each once. */
  method MergedCommonDrivers(thirdParty: seq<string>, debian: seq<string>) returns (common: seq<string>)
    ensures NoDup(common)
    ensures forall x :: x in common <==> x in thirdParty && x in debian && x !in IgnoredPackages
  {
    var both := CommonDrivers(thirdParty, debian);
    common := Filter(both, NotIgnored);
    FilterNoDup(both, NotIgnored);
  }
}
