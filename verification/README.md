# INDI third-party driver version scripts: a Dafny model

Four Python scripts report on the INDI third-party drivers. Three of them
(`compare_debian_drivers.py`, `indi_dependency_checker.py` and
`merged_drivers.py`) compare the drivers with the Debian packages of the
same drivers. Each of the three does the following:

1. It clones `indi-3rdparty` and lists its driver directories (which names count as drivers differs, see below).
2. It asks `apt-cache search indi-` for the packages.
3. It keeps one package per soname family (`libfoo-1`, `libfoo-2` → `libfoo-2`).
4. It intersects the two lists.
5. For every common driver, it finds a version and a git hash. There are two sources:
   - the `apt-cache policy` candidate plus HEAD of the driver's Salsa packaging repository;
   - a version synthesized from that repository, `<changelog version or 1.0>+git<YYYYMMDD>.<hash[:7]>`.
6. It prints a padded table.

The scripts differ in these steps:

- `indi_dependency_checker.py` first orders the drivers with Kahn's topological sort over their `apt-cache depends` output, and skips an ignore list.
- `merged_drivers.py` always synthesizes the version, and drops the same ignore list from the common drivers.
- The directory filter: `compare_debian_drivers.py` keeps directories named `indi-*`; `indi_dependency_checker.py` and `merged_drivers.py` keep those named `indi-*` or `lib*`.

The fourth script, `indi-3rdparty-list-drivers.py`, does only step 1 and a table. It does not use apt, sonames or Salsa. For each `indi-*` directory it reads the version from `debian/<driver>/changelog` in the third-party repository and takes the hash of the last commit touching that directory.

The model covers that logic over given inputs.

**Outside world.** Apt output, git results, directory listings and changelog first lines are values. The `Versions.Host` record gathers the answers of apt, git and the filesystem as functions.

**Crashes.** The Python exceptions that escape to the top level become `Outcomes.Crash` values inside a `Result`:
- `int()` raising `ValueError` in the soname loop;
- `split()[1]` raising `IndexError` on a one-token `Candidate:` line;
- unpacking the `None` that `process_package` returns after a failed clone.

**Duplicated code.** Functions that appear in several scripts with the same body are modelled once. Their rows cite one copy:
- `handle_soname_versions`;
- `get_salsa_repo_url`;
- `extract_version_from_changelog`;
- `calculate_version_from_git_hash`;
- the two `list_drivers` filters;
- `get_debian_drivers`.

**Code over comments.** The comments of `handle_soname_versions` speak of "libapogee vs libapogee3". The code groups only names whose last `-` segment is all digits (`libfoo-3`). The model follows the code: `libfoo3` is its own base (`Soname.UnhyphenatedOwnBase`).

**Modules.**
- `Seqs`, `Text` and `Outcomes` hold sequence facts, the Python string operations, and the insertion-ordered dict.
- `Soname`: the soname loop.
- `Dependencies`: `get_dependencies` and the sort.
- `Versions`: version and hash sources, and `process_package`.
- `DriverSets`: the directory and package lists and their intersection.
- `Report`: the results loop, the table and the main programs.

## Model

| member | source | states |
|---|---|---|
| Soname.NormalizeSonames | compare_debian_drivers.py:213-233 | The in-place dictionary loop returns exactly `Normalized(packages)`, including the ValueError it stops with. |
| Soname.NormalizedOnePerBase | compare_debian_drivers.py:215-233 | The output has one name per distinct base, with bases in order of first appearance. It is no longer than the input, and every name comes from the input. |
| Soname.NormalizedKeepsLargest | compare_debian_drivers.py:224-228 | The kept name of a base has a number at least that of every numbered input name of that base. |
| Soname.NormalizedFirstSeenWins | compare_debian_drivers.py:224-230 | A later name displaces the kept one only with a strictly larger number, so on ties the earliest name stays. A kept unnumbered name is the first of its base. |
| Soname.NormalizedFailsIff | compare_debian_drivers.py:224-227 | The loop fails exactly when an unnumbered name, whose last segment `int()` rejects, is kept first and a numbered name of that base comes later. |
| Soname.NormalizedUnnumberedFirstFails | compare_debian_drivers.py:227 | `[h, h-<digits>]` with such an `h` fails with ValueError on `h`'s last segment. |
| Soname.NormalizedPair | compare_debian_drivers.py:224-228 | Two numbered names of one base reduce to the one with the larger number, or to the first on a tie (`libfoo-3` vs `libfoo-03`). |
| Soname.NormalizedWithoutSuffixes | compare_debian_drivers.py:219-221 | Without numbered names nothing is grouped: the result is the input without repeats. |
| Soname.BaseOfSuffixed | compare_debian_drivers.py:219-221 | `h-<digits>` has base `h`, and its number is the value of the digits. |
| Soname.UnhyphenatedOwnBase | compare_debian_drivers.py:219-221 | A name without `-` that is not all digits is its own base, so `libfoo3` and `libfoo` are not grouped. |
| Dependencies.DependsEntries | indi_dependency_checker.py:178-181 | Entry k is the stripped text after `Depends:` on the k-th line that starts with exactly two spaces and `Depends:`. No other line contributes. |
| Dependencies.GetDependencies | indi_dependency_checker.py:173-185 | The append loop returns those entries. A failed command gives none. |
| Dependencies.PackageEdges | indi_dependency_checker.py:195-198 | A package gets an edge from each of its dependencies that is in the list, and only from those. |
| Dependencies.GraphEdges | indi_dependency_checker.py:193-198 | `dep → pkg` is counted iff `dep` is in the list and among `pkg`'s dependencies. Dependencies outside the list never count. |
| Dependencies.BuildGraph | indi_dependency_checker.py:190-198 | The adjacency lists and in-degree map are exactly the successor lists and edge counts of the counted edges. |
| Dependencies.Sources | indi_dependency_checker.py:201 | The initial queue holds exactly the listed packages with in-degree 0, without repeats when the list has none. |
| Dependencies.SourcesIsFilter | indi_dependency_checker.py:201 | The initial queue is the package list filtered by in-degree 0. |
| Dependencies.SourcesInListOrder | indi_dependency_checker.py:201 | Two packages in the initial queue keep their relative order from the package list. |
| Dependencies.ZeroInDegree | indi_dependency_checker.py:201 | The comprehension over the in-degree map builds that queue. |
| Dependencies.ReleaseDependents | indi_dependency_checker.py:206-209 | The decrement loop only appends to the queue and does not increase the termination measure. On a duplicate-free list it enqueues exactly the dependents whose last dependency was just output. |
| Dependencies.ProcessHead | indi_dependency_checker.py:203-209 | One `popleft` iteration keeps the queue's initial-source prefix and the loop invariant (dependencies first, one entry per package). |
| Dependencies.SortByDependencies | indi_dependency_checker.py:187-211 | Output packages come from the input. The output starts with the in-degree-0 packages in input order. On a duplicate-free list: each package appears at most once, dependencies come first, and a package is output iff all its counted dependencies are. |
| Dependencies.CycleExcluded | indi_dependency_checker.py:201-211 | No package on a dependency cycle is output. |
| Dependencies.DependsOnCycleExcluded | indi_dependency_checker.py:201-211 | No package that reaches a cycle through dependencies is output. |
| Dependencies.SelfDependencyExcluded | indi_dependency_checker.py:193-211 | A package that lists itself as a dependency is never output. |
| Dependencies.AcyclicComplete | indi_dependency_checker.py:200-211 | Without cycles every package is output, and the output is a permutation of the input. |
| Dependencies.SortedIsPermutation | indi_dependency_checker.py:187-211 | On a duplicate-free list with an acyclic in-list graph, the sort outputs a permutation of the list. |
| Versions.VersionRun | compare_debian_drivers.py:133 | `re.match(r'[\d\.]+')`: the longest prefix of digits and dots. |
| Versions.CleanCandidate | compare_debian_drivers.py:130-134 | A line with fewer than two tokens raises IndexError. Otherwise the result is the digits-and-dots run of the second token, or "Version not found" exactly when that run is empty. |
| Versions.CandidateLine | compare_debian_drivers.py:131-134 | `  Candidate: 1.2.3-1build2` cleans to `1.2.3`, for any run followed by a non-version character. |
| Versions.PolicyVersion | compare_debian_drivers.py:129-135 | Without a line containing `Candidate:`, the version is not found. |
| Versions.PolicyVersionFirstCandidate | compare_debian_drivers.py:129-134 | The first line containing `Candidate:` decides the result. |
| Versions.DebianVersion | compare_debian_drivers.py:117-138 | The early-return scan computes `AptVersion`. A failed command gives "Version not found". |
| Versions.AptVersionShape | compare_debian_drivers.py:129-135 | A found apt version is a non-empty run of digits and dots, never the not-found text. |
| Versions.ChangelogVersion | indi-3rdparty-list-drivers.py:59-69 | "Version not found" exactly when the file is missing or the first line has fewer than two tokens. Otherwise the second token with parentheses stripped from both ends, which has no whitespace. |
| Versions.ChangelogStandardLine | indi-3rdparty-list-drivers.py:63-66 | `package (version) dist; urgency=…` yields `version`. |
| Versions.ShortHash | compare_debian_drivers.py:260 | `hash[:7]` is a prefix of the hash of length min(7, len). |
| Versions.GitVersionParts | compare_debian_drivers.py:260 | The synthesized version splits at its last dot into `base+git<date>` and the short hash. It contains `+git<date>`. |
| Versions.GitVersionNotSentinel | compare_debian_drivers.py:260 | A synthesized version is never "Version not found". |
| Versions.BaseVersion | compare_debian_drivers.py:256-258 | The base is "1.0" when the changelog yields nothing, and the changelog version otherwise. |
| Versions.CalculateVersion | compare_debian_drivers.py:246-265 | With a commit, the result is (synthesized version, full hash). Without one, it is both not-found texts. |
| Versions.SalsaUrl | merged_drivers.py:45 | The URL is the fixed Salsa prefix, then the name, then `.git`. |
| Versions.SalsaUrlRoundTrip | merged_drivers.py:45 | The name can be read back from its URL. |
| Versions.SalsaUrlInjective | merged_drivers.py:45 | Distinct names give distinct URLs. |
| Versions.MirrorPath | compare_debian_drivers.py:197 | The clone path is the home directory plus one segment, which is the name followed by `-repo`. |
| Versions.MirrorPathInjective | compare_debian_drivers.py:197 | Distinct names give distinct clone paths. |
| Versions.HeadHash | compare_debian_drivers.py:171-186 | The HEAD hash, or "Git hash not found". |
| Versions.ProcessPackage | compare_debian_drivers.py:188-211 | It crashes iff the apt lookup crashes, even when the clone fails. A pair is returned only after a successful clone. After a successful clone with apt's not-found text, the pair is the version synthesized from the mirror's latest commit and changelog (`CalculateVersion`). |
| Versions.ProcessPackageKeepsApt | compare_debian_drivers.py:204-209 | A found apt version is returned unchanged, with the HEAD hash of the clone. |
| Versions.ProcessPackageNotFound | compare_debian_drivers.py:204-206 | "Version not found" is reported only when the clone has no commit, and then the hash is "Git hash not found". |
| Versions.ProcessPackageMerged | merged_drivers.py:122-131 | It returns a pair iff the clone succeeds, and that pair is always the version synthesized from the mirror's latest commit and changelog (`CalculateVersion`). |
| Versions.MergedIgnoresApt | merged_drivers.py:122-129 | The merged script's result does not depend on apt. |
| Versions.MergedAgreesWithoutApt | merged_drivers.py:122-129 | When apt has no version, the merged and comparison scripts agree. |
| DriverSets.ListDrivers | indi-3rdparty-list-drivers.py:40-49 | Exactly the directories named `indi-*`. An unreadable directory gives none. |
| DriverSets.DirNamesIsFilter | compare_debian_drivers.py:70 | The driver names are the names of the kept directory entries, in listing order. |
| DriverSets.ListDriversAndLibraries | merged_drivers.py:61-68 | Exactly the directories named `indi-*` or `lib*`. |
| DriverSets.SearchPackages | indi_dependency_checker.py:65-72 | Name k is the first token of the k-th line starting with `indi-` or `lib`, and it keeps that prefix. A failed command gives none. |
| DriverSets.CommonDrivers | compare_debian_drivers.py:104-115 | It is duplicate-free and holds a name iff the name is in both lists. |
| DriverSets.MergedCommonDrivers | merged_drivers.py:158-159 | It is duplicate-free and holds a name iff the name is in both lists and not ignored. |
| Report.Row | compare_debian_drivers.py:305 | The row starts with the driver, never truncated. For short cells, the separators sit at columns 25 and 38 and the hash starts at 41. |
| Report.RowRoundTrip | compare_debian_drivers.py:305 | A row of single-token cells parses back to its three cells. |
| Report.TableLines | compare_debian_drivers.py:300-305 | The header, a rule of 60 dashes, then one row per recorded driver in dictionary order. |
| Report.Unskipped | indi_dependency_checker.py:243-247 | The drivers not in the ignore list: the list filtered by the ignore test, so in list order. |
| Report.CollectResults | indi_dependency_checker.py:243-253 | The results loop computes `Collected`, stopping at the first crash or unpacked None. |
| Report.CollectedOkIff | compare_debian_drivers.py:290-298 | The loop completes iff every driver it does not skip is processed to a pair. |
| Report.CollectedOkIffMembers | compare_debian_drivers.py:290-298 | The same condition over the list's members: every listed, non-skipped driver is processed to a pair. |
| Report.CollectedKeys | indi_dependency_checker.py:243-253 | The recorded keys are the non-skipped drivers in order of first appearance. |
| Report.CollectedEntries | compare_debian_drivers.py:292-298 | Each recorded pair is what processing that driver returned. |
| Report.CollectedMembers | indi_dependency_checker.py:243-253 | A driver is recorded iff it is listed and not skipped. |
| Report.CollectedInOrder | indi_dependency_checker.py:243-253 | For a duplicate-free list, the results follow the sorted order, minus ignored names. |
| Report.CompareDrivers | compare_debian_drivers.py:268-298 | A soname ValueError ends the run. Otherwise the run completes exactly when every driver in both lists is processed to a pair. When it completes, the recorded drivers are exactly those in both lists, each with its `process_package` pair. |
| Report.CheckDependencies | indi_dependency_checker.py:229-253 | A soname ValueError ends the run. Otherwise the common drivers are exactly those in both lists, without repeats. The sorted list holds only common drivers, starts with the in-degree-0 ones in list order and satisfies `KahnOutcome`. The run completes exactly when every sorted driver that is not ignored is processed to a pair. The results then follow the sorted order without ignored names, each with its `process_package` pair. |
| Report.MergedDrivers | merged_drivers.py:149-167 | A soname ValueError ends the run. Otherwise the run completes exactly when every common, non-ignored driver's mirror can be cloned. When it completes, the recorded drivers are exactly those in both lists and not ignored, each with its synthesized pair. |
| Report.DriverHash | indi-3rdparty-list-drivers.py:71-80 | The newest commit touching the driver's directory, or "Git hash not found". |
| Report.ListingReport | indi-3rdparty-list-drivers.py:86-109 | The header and rule, then the no-drivers message exactly when there are no `indi-*` directories, or else one row per driver with its `debian/<driver>/changelog` version and hash. |

## Left out

- Process I/O: running `apt-cache search`, `apt-cache policy` and `apt-cache depends`. Their stdout lines, or None for a non-zero exit, are inputs.
- GitPython: clone, pull, HEAD, `iter_commits`. These are functions of `Versions.Host`.
- Filesystem access: `iterdir`, `exists`, `open`/`readline` and `Path.home()`. These are inputs.
- The cloning of `indi-3rdparty` at the start of each main program. The main programs are modelled from the listing onwards.
- `strftime('%Y%m%d')`: the commit date is an opaque string.
- `shutil.which` probes, the exit when GitPython is missing, and every `print`. The table is modelled as its lines (`Report.TableLines`, `Report.ListingReport`), not as output.
- Unicode: `str.isdigit`, `\d`, `split()` and `strip()` are modelled on ASCII digits and ASCII whitespace.
- Python set order: `DriverSets.CommonDrivers` may return the common drivers in any order, so the model does not fix the order of the comparison and merged tables.
- Dependencies.SortByDependencies: ordering, at-most-once and completeness are proved only for a duplicate-free input list. The main program always passes one. On a list with repeats, only "outputs come from the input" and the initial-queue prefix are stated.
- Exceptions that the scripts catch inside helpers are folded into the helper's fallback value (a git failure gives the not-found texts). Exceptions the scripts do not expect are not modelled, apart from the three kinds in `Outcomes.Crash`.
- `get_git_hash` also appears, unused, in the comparison and merged scripts. It is modelled once, for the listing script (`Report.DriverHash`).
