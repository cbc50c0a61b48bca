/** The per-driver results and the printed table, and the main programs of
    the four scripts from the list of drivers to the table, after their
    tool checks and the clone of the third-party repository. */
module Report {
  import opened Seqs
  import opened Outcomes
  import opened Text
  import opened Versions
  import opened DriverSets
  import Soname
  import Dependencies

  const DriverWidth := 25
  const VersionWidth := 10
  const Separator := " | "
  /** `"-" * 60` */
  const RuleLine := Repeat('-', 60)
  const NoDriversMessage := "No drivers found or an error occurred."

  // ------------------------------------------------ table

  /** `f"{driver:<25} | {version:<10} | {hash}"` */
  function Row(driver: string, version: string, hash: string): (line: string)
    ensures StartsWith(line, driver)
    ensures |driver| <= DriverWidth && |version| <= VersionWidth ==>
      && |line| == 41 + |hash|
      && line[..25] == LJust(driver, DriverWidth) && line[25..28] == Separator
      && line[28..38] == LJust(version, VersionWidth) && line[38..41] == Separator
      && line[41..] == hash
  {
    var a := LJust(driver, DriverWidth);
    var b := LJust(version, VersionWidth);
    assert (a + Separator + b + Separator + hash)[..|driver|] == a[..|driver|];
    a + Separator + b + Separator + hash
  }

  /** The header line, in the same format as the rows. */
  function Header(): string {
    Row("Driver", "Version", "Git Hash")
  }

  /** Reads the three columns back from a row whose cells are single tokens. */
  function ParseRow(line: string): Option<(string, string, string)> {
    var t := Split(line);
    if |t| == 5 && t[1] == "|" && t[3] == "|" then Some((t[0], t[2], t[4])) else None
  }

  lemma SplitPaddedThen(w: string, width: nat, rest: string)
    requires IsWord(w) && rest != [] && IsSpace(rest[0])
    ensures Split(LJust(w, width) + rest) == [w] + Split(rest)
  {
    var pad := LJust(w, width)[|w|..];
    assert LJust(w, width) == w + pad;
    assert AllSpace(pad);
    ConcatAssoc(w, pad, rest);
    SplitWordThen(w, pad + rest);
    SplitSpaceThen(pad, rest);
  }

  lemma SplitSeparatorThen(rest: string)
    ensures Split(Separator + rest) == ["|"] + Split(rest)
  {
    SplitSpaceThen(" ", "| ");
    SplitWordThen("|", " ");
    SplitAllSpace(" ");
    assert " " + "| " == Separator && "|" + " " == "| ";
    SplitConcat(Separator, rest);
  }

  /** The row with its concatenations grouped from the right. */
  lemma RowNested(driver: string, version: string, hash: string)
    ensures Row(driver, version, hash) ==
            LJust(driver, DriverWidth) + (Separator + (LJust(version, VersionWidth) + (Separator + hash)))
  {
    var a := LJust(driver, DriverWidth);
    var b := LJust(version, VersionWidth);
    ConcatAssoc(a + Separator + b, Separator, hash);
    ConcatAssoc(a + Separator, b, Separator + hash);
    ConcatAssoc(a, Separator, b + (Separator + hash));
  }

  /** A padded single-token cell and its separator give two tokens. */
  lemma SplitCellThen(w: string, width: nat, rest: string)
    requires IsWord(w)
    ensures Split(LJust(w, width) + (Separator + rest)) == [w, "|"] + Split(rest)
  {
    SplitSeparatorThen(rest);
    SplitPaddedThen(w, width, Separator + rest);
    assert [w] + (["|"] + Split(rest)) == [w, "|"] + Split(rest);
  }

  /** A row of single-token cells parses back to its cells. */
  lemma RowRoundTrip(driver: string, version: string, hash: string)
    requires IsWord(driver) && IsWord(version) && IsWord(hash)
    ensures ParseRow(Row(driver, version, hash)) == Some((driver, version, hash))
  {
    var t2 := LJust(version, VersionWidth) + (Separator + hash);
    RowNested(driver, version, hash);
    SplitWord(hash);
    SplitCellThen(version, VersionWidth, hash);
    SplitCellThen(driver, DriverWidth, t2);
    assert Split(Row(driver, version, hash)) == [driver, "|"] + [version, "|"] + [hash];
  }

  /** The lines printed for the collected results: the header, the rule,
      and one row per driver in dictionary order. */
  function TableLines(results: Dict<string, (string, string)>): (lines: seq<string>)
    requires results.Valid()
    ensures |lines| == 2 + |results.keys|
    ensures lines[0] == Header() && lines[1] == RuleLine
    ensures forall i | 0 <= i < |results.keys| ::
      var d := results.keys[i];
      lines[2 + i] == Row(d, results.entries[d].0, results.entries[d].1)
  {
    [Header(), RuleLine]
      + seq(|results.keys|, i requires 0 <= i < |results.keys| =>
              var d := results.keys[i];
              Row(d, results.entries[d].0, results.entries[d].1))
  }

  // ------------------------------------------------ collecting results

  /** What the per-driver step of a script returns for a driver name. */
  type Processor = string -> Result<Option<(string, string)>>

  function ProcessWithApt(host: Host): Processor {
    name => ProcessPackage(host, name)
  }

  function ProcessSynthesized(host: Host): Processor {
    name => Ok(ProcessPackageMerged(host, name))
  }

  /** The drivers that are not skipped, in order. */
  function NotSkipped(skip: seq<string>): string -> bool {
    x => x !in skip
  }

  function Unskipped(drivers: seq<string>, skip: seq<string>): (kept: seq<string>)
    ensures kept == Filter(drivers, NotSkipped(skip))
    ensures forall x :: x in kept <==> x in drivers && x !in skip
    ensures NoDup(drivers) ==> NoDup(kept)
    decreases |drivers|
  {
    if drivers == [] then []
    else
      var x := Last(drivers);
      var kept := Unskipped(DropLast(drivers), skip);
      assert NoDup(drivers) ==> x !in DropLast(drivers);
      kept + (if x in skip then [] else [x])
  }

  /** The `driver_results` loop: each driver not in `skip` is processed and
      its pair recorded under its name; unpacking a None ends the run, as
      does a crash inside the processing. */
  function Collected(drivers: seq<string>, skip: seq<string>, process: Processor)
    : (r: Result<Dict<string, (string, string)>>)
    ensures r.Ok? ==> r.value.Valid()
    decreases |drivers|
  {
    if drivers == [] then Ok(EmptyDict())
    else
      match Collected(DropLast(drivers), skip, process)
      case Err(e) => Err(e)
      case Ok(d) =>
        var x := Last(drivers);
        if x in skip then Ok(d)
        else
          match process(x)
          case Err(e) => Err(e)
          case Ok(None) => Err(NoneUnpacked(x))
          case Ok(Some(details)) => Ok(d.Put(x, details))
  }

  lemma {:induction false} CollectedErrPersists(drivers: seq<string>, skip: seq<string>, process: Processor, i: nat)
    requires i <= |drivers| && Collected(drivers[..i], skip, process).Err?
    ensures Collected(drivers, skip, process) == Collected(drivers[..i], skip, process)
    decreases |drivers| - i
  {
    if i < |drivers| {
      assert DropLast(drivers[..i + 1]) == drivers[..i];
      CollectedErrPersists(drivers, skip, process, i + 1);
    } else {
      assert drivers[..i] == drivers;
    }
  }

  method CollectResults(drivers: seq<string>, skip: seq<string>, process: Processor)
    returns (r: Result<Dict<string, (string, string)>>)
    ensures r == Collected(drivers, skip, process)
  {
    var keys: seq<string> := [];
    var entries: map<string, (string, string)> := map[];
    for i := 0 to |drivers|
      invariant Collected(drivers[..i], skip, process) == Ok(Dict(keys, entries))
    {
      var driver := drivers[i];
      assert DropLast(drivers[..i + 1]) == drivers[..i];
      if driver in skip {
        continue;
      }
      var outcome := process(driver);
      if outcome.Err? {
        CollectedErrPersists(drivers, skip, process, i + 1);
        return Err(outcome.error);
      }
      if outcome.value.None? {
        CollectedErrPersists(drivers, skip, process, i + 1);
        return Err(NoneUnpacked(driver));
      }
      if driver !in entries {
        keys := keys + [driver];
      }
      entries := entries[driver := outcome.value.value];
    }
    assert drivers[..|drivers|] == drivers;
    r := Ok(Dict(keys, entries));
  }

  ghost predicate Processable(x: string, skip: seq<string>, process: Processor) {
    x in skip || (process(x).Ok? && process(x).value.Some?)
  }

  /** The run gets through the loop exactly when every driver that is not
      skipped is processed to a pair. */
  lemma {:induction false} CollectedOkIff(drivers: seq<string>, skip: seq<string>, process: Processor)
    ensures Collected(drivers, skip, process).Ok?
        <==> forall k | 0 <= k < |drivers| :: Processable(drivers[k], skip, process)
    decreases |drivers|
  {
    if drivers != [] {
      CollectedOkIff(DropLast(drivers), skip, process);
      CollectedOkStep(drivers, skip, process);
      AllProcessableSnoc(drivers, skip, process);
    }
  }

  lemma CollectedOkStep(drivers: seq<string>, skip: seq<string>, process: Processor)
    requires drivers != []
    ensures Collected(drivers, skip, process).Ok?
        <==> Collected(DropLast(drivers), skip, process).Ok? && Processable(Last(drivers), skip, process)
  {
  }

  lemma AllProcessableSnoc(drivers: seq<string>, skip: seq<string>, process: Processor)
    requires drivers != []
    ensures (forall k | 0 <= k < |drivers| :: Processable(drivers[k], skip, process))
        <==> (forall k | 0 <= k < |DropLast(drivers)| :: Processable(DropLast(drivers)[k], skip, process))
             && Processable(Last(drivers), skip, process)
  {
    assert forall k | 0 <= k < |DropLast(drivers)| :: DropLast(drivers)[k] == drivers[k];
  }

  /** The same condition, over the members of the list. */
  lemma CollectedOkIffMembers(drivers: seq<string>, skip: seq<string>, process: Processor)
    ensures Collected(drivers, skip, process).Ok?
        <==> forall d | d in drivers && d !in skip :: process(d).Ok? && process(d).value.Some?
  {
    CollectedOkIff(drivers, skip, process);
    assert (forall k | 0 <= k < |drivers| :: Processable(drivers[k], skip, process))
        <==> (forall d | d in drivers :: Processable(d, skip, process));
  }

  /** It then records the drivers that are not skipped, in order of first
      appearance... */
  lemma {:induction false} CollectedKeys(drivers: seq<string>, skip: seq<string>, process: Processor)
    requires Collected(drivers, skip, process).Ok?
    ensures Collected(drivers, skip, process).value.keys == Dedup(Unskipped(drivers, skip))
    decreases |drivers|
  {
    if drivers != [] {
      var init := DropLast(drivers);
      var x := Last(drivers);
      var prev := Collected(init, skip, process);
      assert prev.Ok?;
      CollectedKeys(init, skip, process);
      var u := Unskipped(init, skip);
      assert Unskipped(drivers, skip) == u + (if x in skip then [] else [x]);
      if x !in skip {
        assert Collected(drivers, skip, process) == Ok(prev.value.Put(x, process(x).value.value));
        DedupSnoc(u, x);
      } else {
        assert u + [] == u;
      }
    }
  }

  /** ... each with the pair its processing returned. */
  lemma {:induction false} CollectedEntries(drivers: seq<string>, skip: seq<string>, process: Processor)
    requires Collected(drivers, skip, process).Ok?
    ensures var d := Collected(drivers, skip, process).value;
      forall x | x in d.keys :: process(x) == Ok(Some(d.entries[x]))
    decreases |drivers|
  {
    if drivers != [] {
      var init, x := DropLast(drivers), Last(drivers);
      var prev := Collected(init, skip, process);
      assert prev.Ok?;
      CollectedEntries(init, skip, process);
      if x !in skip {
        assert Collected(drivers, skip, process) == Ok(prev.value.Put(x, process(x).value.value));
      }
    }
  }

  /** Which drivers are recorded. */
  lemma CollectedMembers(drivers: seq<string>, skip: seq<string>, process: Processor)
    requires Collected(drivers, skip, process).Ok?
    ensures var d := Collected(drivers, skip, process).value;
      forall x :: x in d.keys <==> x in drivers && x !in skip
  {
    CollectedKeys(drivers, skip, process);
  }

  /** For drivers without repeats the recorded keys are the drivers that are
      not skipped, in the given order. */
  lemma CollectedInOrder(drivers: seq<string>, skip: seq<string>, process: Processor)
    requires NoDup(drivers) && Collected(drivers, skip, process).Ok?
    ensures Collected(drivers, skip, process).value.keys == Unskipped(drivers, skip)
  {
    CollectedKeys(drivers, skip, process);
    DedupOfNoDup(Unskipped(drivers, skip));
  }

  // ------------------------------------------------ main programs

  /** The comparison script: drivers in the repository and among the
      soname-normalized apt packages, each processed against apt and git. */
  method CompareDrivers(host: Host, listing: Option<seq<Entry>>, search: Option<seq<string>>)
    returns (results: Result<Dict<string, (string, string)>>)
    ensures Soname.Normalized(SearchPackages(search)).Err? ==>
      results == Err(Soname.Normalized(SearchPackages(search)).error)
    ensures results.Ok? ==> results.value.Valid()
    ensures results.Ok? ==>
      && Soname.Normalized(SearchPackages(search)).Ok?
      && (forall d :: d in results.value.keys <==>
            d in ListDrivers(listing) && d in Soname.Normalized(SearchPackages(search)).value)
      && (forall d | d in results.value.keys :: ProcessPackage(host, d) == Ok(Some(results.value.entries[d])))
    ensures Soname.Normalized(SearchPackages(search)).Ok? ==>
      (results.Ok? <==> forall d | d in ListDrivers(listing) && d in Soname.Normalized(SearchPackages(search)).value ::
                          ProcessPackage(host, d).Ok? && ProcessPackage(host, d).value.Some?)
  {
    var drivers := ListDrivers(listing);
    var debian := SearchPackages(search);
    var normalized := Soname.NormalizeSonames(debian);
    if normalized.Err? {
      return Err(normalized.error);
    }
    var common := CommonDrivers(drivers, normalized.value);
    results := CollectResults(common, [], ProcessWithApt(host));
    CollectedOkIffMembers(common, [], ProcessWithApt(host));
    if results.Ok? {
      CollectedMembers(common, [], ProcessWithApt(host));
      CollectedEntries(common, [], ProcessWithApt(host));
    }
  }

  /** The dependency script: the common drivers in dependency order, the
      ignored ones skipped. */
  method CheckDependencies(host: Host, depends: Dependencies.DependsOutput,
                           listing: Option<seq<Entry>>, search: Option<seq<string>>)
    returns (common: seq<string>, sorted: seq<string>, results: Result<Dict<string, (string, string)>>)
    ensures NoDup(common)
    ensures Soname.Normalized(SearchPackages(search)).Err? ==>
      results == Err(Soname.Normalized(SearchPackages(search)).error)
    ensures results.Ok? ==> Soname.Normalized(SearchPackages(search)).Ok?
    ensures Soname.Normalized(SearchPackages(search)).Ok? ==> forall d :: d in common <==>
      d in ListDriversAndLibraries(listing) && d in Soname.Normalized(SearchPackages(search)).value
    ensures forall d | d in sorted :: d in common
    ensures var sources := Dependencies.Sources(common, Dependencies.Graph(common, depends));
            |sources| <= |sorted| && sorted[..|sources|] == sources
    ensures Dependencies.KahnOutcome(common, Dependencies.Graph(common, depends), sorted)
    ensures Soname.Normalized(SearchPackages(search)).Ok? ==>
      (results.Ok? <==> forall d | d in sorted && d !in IgnoredPackages ::
                          ProcessPackage(host, d).Ok? && ProcessPackage(host, d).value.Some?)
    ensures results.Ok? ==> results.value.Valid() && results.value.keys == Unskipped(sorted, IgnoredPackages)
    ensures results.Ok? ==> forall d | d in results.value.keys ::
      ProcessPackage(host, d) == Ok(Some(results.value.entries[d]))
  {
    var drivers := ListDriversAndLibraries(listing);
    var debian := SearchPackages(search);
    var normalized := Soname.NormalizeSonames(debian);
    if normalized.Err? {
      return [], [], Err(normalized.error);
    }
    common := CommonDrivers(drivers, normalized.value);
    sorted := Dependencies.SortByDependencies(common, depends);
    results := CollectResults(sorted, IgnoredPackages, ProcessWithApt(host));
    CollectedOkIffMembers(sorted, IgnoredPackages, ProcessWithApt(host));
    if results.Ok? {
      CollectedInOrder(sorted, IgnoredPackages, ProcessWithApt(host));
      CollectedEntries(sorted, IgnoredPackages, ProcessWithApt(host));
    }
  }

  /** The merged script: the common drivers that are not ignored, each with
      a version synthesized from its Salsa repository. */
  method MergedDrivers(host: Host, listing: Option<seq<Entry>>, search: Option<seq<string>>)
    returns (results: Result<Dict<string, (string, string)>>)
    ensures Soname.Normalized(SearchPackages(search)).Err? ==>
      results == Err(Soname.Normalized(SearchPackages(search)).error)
    ensures results.Ok? ==> results.value.Valid()
    ensures results.Ok? ==>
      && Soname.Normalized(SearchPackages(search)).Ok?
      && (forall d :: d in results.value.keys <==>
            d in ListDriversAndLibraries(listing) && d in Soname.Normalized(SearchPackages(search)).value
            && d !in IgnoredPackages)
      && (forall d | d in results.value.keys :: ProcessPackageMerged(host, d) == Some(results.value.entries[d]))
    ensures Soname.Normalized(SearchPackages(search)).Ok? ==>
      (results.Ok? <==> forall d | d in ListDriversAndLibraries(listing) && d in Soname.Normalized(SearchPackages(search)).value
                                   && d !in IgnoredPackages :: ProcessPackageMerged(host, d).Some?)
  {
    var drivers := ListDriversAndLibraries(listing);
    var debian := SearchPackages(search);
    var normalized := Soname.NormalizeSonames(debian);
    if normalized.Err? {
      return Err(normalized.error);
    }
    var common := MergedCommonDrivers(drivers, normalized.value);
    results := CollectResults(common, [], ProcessSynthesized(host));
    CollectedOkIffMembers(common, [], ProcessSynthesized(host));
    if results.Ok? {
      CollectedMembers(common, [], ProcessSynthesized(host));
      CollectedEntries(common, [], ProcessSynthesized(host));
    }
  }

  /** `drivers_directory_path / 'debian' / driver / 'changelog'` */
  function DriverChangelogPath(repo: Path, driver: string): Path {
    repo + ["debian", driver, "changelog"]
  }

  /** `get_git_hash(repo_path, driver)`: the newest commit touching the
      driver's directory. */
  function DriverHash(host: Host, repo: Path, driver: string): (h: string)
    ensures host.lastTouch(repo, repo + [driver]).None? ==> h == HashNotFound
    ensures host.lastTouch(repo, repo + [driver]).Some? ==> h == host.lastTouch(repo, repo + [driver]).value
  {
    match host.lastTouch(repo, repo + [driver])
    case None => HashNotFound
    case Some(h) => h
  }

  /** The listing script: header and rule, then a row per `indi-*` driver
      directory with the version from its changelog under `debian/`, or a
      message when there is none. */
  function ListingReport(host: Host, repo: Path, listing: Option<seq<Entry>>): (lines: seq<string>)
    ensures |lines| >= 3 && lines[0] == Header() && lines[1] == RuleLine
    ensures ListDrivers(listing) == [] <==> lines == [Header(), RuleLine, NoDriversMessage]
    ensures ListDrivers(listing) != [] ==> |lines| == 2 + |ListDrivers(listing)|
    ensures forall i | 0 <= i < |lines| - 2 && ListDrivers(listing) != [] ::
      var d := ListDrivers(listing)[i];
      lines[2 + i] == Row(d, ChangelogVersion(host.firstLine(DriverChangelogPath(repo, d))), DriverHash(host, repo, d))
  {
    var drivers := ListDrivers(listing);
    if drivers == [] then
      [Header(), RuleLine, NoDriversMessage]
    else
      var rows := seq(|drivers|, i requires 0 <= i < |drivers| =>
        Row(drivers[i], ChangelogVersion(host.firstLine(DriverChangelogPath(repo, drivers[i]))),
            DriverHash(host, repo, drivers[i])));
      var d := drivers[0];
      assert d in drivers && StartsWith(d, "indi-");
      assert d[0] == d[..5][0] == 'i';
      assert rows[0] == Row(d, ChangelogVersion(host.firstLine(DriverChangelogPath(repo, d))),
                            DriverHash(host, repo, d));
      assert rows[0][0] == 'i';
      assert NoDriversMessage[0] == 'N';
      assert ([Header(), RuleLine] + rows)[2] == rows[0] != NoDriversMessage;
      [Header(), RuleLine] + rows
  }
}
