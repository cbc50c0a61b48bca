/** Where a driver's version and commit hash come from: the `apt-cache policy`
    candidate, the first line of a Debian changelog, and a version synthesized
    from the newest commit of the packaging repository on Salsa. The outside
    world (apt, git, the filesystem) is a `Host` whose answers are given. */
module Versions {
  import opened Seqs
  import opened Outcomes
  import opened Text

  const VersionNotFound := "Version not found"
  const HashNotFound := "Git hash not found"
  /** Base version used when the repository's changelog yields none. */
  const FallbackBase := "1.0"
  const CandidateTag := "Candidate:"
  const SalsaPrefix := "https://salsa.debian.org/debian-astro-team/"
  const GitSuffix := ".git"

  /** A filesystem path as its segments (`Path.home() / name`). */
  type Path = seq<string>

  /** The newest commit: its date as `strftime('%Y%m%d')` renders it, and its
      full hexadecimal hash. */
  datatype Commit = Commit(date: string, hash: string)

  /** The answers of the outside world. */
  datatype Host = Host(
    home: Path,
    /** stdout lines of `apt-cache policy name`; None when it exits non-zero */
    policy: string -> Option<seq<string>>,
    /** clone `url` into `path`, or pull when `path` exists; false on any failure */
    cloneOrUpdate: (string, Path) -> bool,
    /** hash of HEAD of the repository at `path` */
    head: Path -> Option<string>,
    /** newest commit of the repository at `path` */
    latestCommit: Path -> Option<Commit>,
    /** newest commit touching `path` inside the repository at `repo` */
    lastTouch: (Path, Path) -> Option<string>,
    /** first line of the file at `path` as `readline()` returns it; None
        when the file does not exist or cannot be read */
    firstLine: Path -> Option<string>)

  // ------------------------------------------------ apt-cache policy

  predicate IsVersionChar(c: char) {
    InClass(VersionChars, c)
  }

  /** What `re.match(r'[\d\.]+', token)` matches: the longest prefix of
      `token` made of digits and dots. */
  function VersionRun(token: string): (run: string)
    ensures StartsWith(token, run)
    ensures forall i | 0 <= i < |run| :: IsVersionChar(run[i])
    ensures |run| == |token| || !IsVersionChar(token[|run|])
  {
    token[..LeadingCount(token, VersionChars)]
  }

  /** The cleaned version of a line that contains "Candidate:": the run of
      digits and dots that starts its second token, or the not-found text
      when that run is empty. A line with one token makes `split()[1]` raise. */
  function CleanCandidate(line: string): (r: Result<string>)
    ensures r.Err? <==> |Split(line)| < 2
    ensures r.Ok? ==> (r.value == VersionNotFound <==> VersionRun(Split(line)[1]) == [])
    ensures r.Ok? && r.value != VersionNotFound ==> r.value == VersionRun(Split(line)[1])
  {
    var tokens := Split(line);
    if |tokens| < 2 then Err(IndexError(line))
    else
      var run := VersionRun(tokens[1]);
      assert !IsVersionChar(VersionNotFound[0]);
      if run == [] then Ok(VersionNotFound) else Ok(run)
  }

  /** An apt candidate line, `  Candidate: 1.2.3-1build2`, is cleaned to the
      run of digits and dots that starts the version (`1.2.3`). */
  lemma CandidateLine(indent: string, run: string, tail: string, rest: string)
    requires AllSpace(indent)
    requires run != [] && forall i | 0 <= i < |run| :: IsVersionChar(run[i])
    requires tail == [] || !IsVersionChar(tail[0])
    requires IsWord(run + tail)
    requires rest == [] || IsSpace(rest[0])
    ensures CleanCandidate(indent + CandidateTag + " " + run + tail + rest) == Ok(run)
  {
    assert indent + CandidateTag + " " + run + tail + rest
        == indent + CandidateTag + " " + (run + tail) + rest;
    SplitTwoWords(indent, CandidateTag, " ", run + tail, rest);
    VersionRunOf(run, tail);
  }

  lemma VersionRunOf(run: string, tail: string)
    requires forall i | 0 <= i < |run| :: IsVersionChar(run[i])
    requires tail == [] || !IsVersionChar(tail[0])
    ensures VersionRun(run + tail) == run
  {
    var token := run + tail;
    var n := LeadingCount(token, VersionChars);
    assert forall i | 0 <= i < |run| :: token[i] == run[i];
    assert |run| < |token| ==> token[|run|] == tail[0];
    assert n == |run|;
    assert token[..|run|] == run;
  }

  ghost predicate IsFirstCandidate(lines: seq<string>, i: int) {
    && 0 <= i < |lines| && Contains(lines[i], CandidateTag)
    && forall j | 0 <= j < i :: !Contains(lines[j], CandidateTag)
  }

  /** The version `apt-cache policy` reports: the first line that contains
      "Candidate:" decides; without one, the version is not found. */
  function PolicyVersion(lines: seq<string>): (r: Result<string>)
    ensures (forall i | 0 <= i < |lines| :: !Contains(lines[i], CandidateTag)) ==> r == Ok(VersionNotFound)
  {
    if lines == [] then Ok(VersionNotFound)
    else if Contains(lines[0], CandidateTag) then CleanCandidate(lines[0])
    else
      assert forall i | 0 <= i < |lines| - 1 :: lines[1..][i] == lines[i + 1];
      PolicyVersion(lines[1..])
  }

  lemma {:induction false} PolicyVersionFirstCandidate(lines: seq<string>, i: int)
    requires IsFirstCandidate(lines, i)
    ensures PolicyVersion(lines) == CleanCandidate(lines[i])
    decreases i
  {
    if i > 0 {
      assert !Contains(lines[0], CandidateTag);
      assert IsFirstCandidate(lines[1..], i - 1) by {
        forall j | 0 <= j < i - 1 ensures !Contains(lines[1..][j], CandidateTag) {
          assert lines[1..][j] == lines[j + 1];
        }
      }
      PolicyVersionFirstCandidate(lines[1..], i - 1);
    }
  }

  /** `get_debian_version` on the outcome of `apt-cache policy`. */
  function AptVersion(policy: Option<seq<string>>): Result<string> {
    match policy
    case None => Ok(VersionNotFound)
    case Some(lines) => PolicyVersion(lines)
  }

  /** The scan of `get_debian_version`, returning at the first candidate line. */
  method DebianVersion(policy: Option<seq<string>>) returns (r: Result<string>)
    ensures r == AptVersion(policy)
  {
    if policy.None? {
      return Ok(VersionNotFound);
    }
    var lines := policy.value;
    for i := 0 to |lines|
      invariant PolicyVersion(lines[i..]) == PolicyVersion(lines)
    {
      if Contains(lines[i], CandidateTag) {
        return CleanCandidate(lines[i]);
      }
      assert lines[i..][1..] == lines[i + 1..];
    }
    return Ok(VersionNotFound);
  }

  /** Whatever the policy output, a found version is a non-empty run of digits
      and dots, so it is never confused with the not-found text. */
  lemma AptVersionShape(policy: Option<seq<string>>)
    requires AptVersion(policy).Ok?
    ensures var v := AptVersion(policy).value;
      v == VersionNotFound || (v != [] && forall i | 0 <= i < |v| :: IsVersionChar(v[i]))
  {
    if policy.Some? && exists i :: IsFirstCandidate(policy.value, i) {
      var i :| IsFirstCandidate(policy.value, i);
      PolicyVersionFirstCandidate(policy.value, i);
    } else if policy.Some? {
      var lines := policy.value;
      forall i | 0 <= i < |lines| ensures !Contains(lines[i], CandidateTag) {
        NoEarlierCandidate(lines, i);
      }
    }
  }

  lemma {:induction false} NoEarlierCandidate(lines: seq<string>, i: int)
    requires 0 <= i < |lines| && forall k :: !IsFirstCandidate(lines, k)
    ensures !Contains(lines[i], CandidateTag)
    decreases i
  {
    forall j | 0 <= j < i ensures !Contains(lines[j], CandidateTag) {
      NoEarlierCandidate(lines, j);
    }
    assert !IsFirstCandidate(lines, i);
  }

  // ------------------------------------------------ Debian changelog

  predicate IsParen(c: char) {
    InClass(Parens, c)
  }

  /** `extract_version_from_changelog` on the file's first line: the second
      token of the stripped line with parentheses removed from both ends.
      The not-found text is returned exactly when the file is missing or
      unreadable, or its first line has fewer than two tokens (blank, or the
      caught IndexError); a parsed version has no whitespace, so it is never
      that text. */
  function ChangelogVersion(firstLine: Option<string>): (v: string)
    ensures v == VersionNotFound <==> firstLine.None? || |Split(firstLine.value)| < 2
    ensures v != VersionNotFound ==> v == StripBy(Split(firstLine.value)[1], Parens)
    ensures v != VersionNotFound ==> forall i | 0 <= i < |v| :: !IsSpace(v[i])
    ensures v != VersionNotFound && v != [] ==> !IsParen(v[0]) && !IsParen(Last(v))
  {
    match firstLine
    case None => VersionNotFound
    case Some(line) =>
      var first := Strip(line);
      StripKeepsTokens(line);
      if first == [] then VersionNotFound
      else
        var tokens := Split(first);
        if |tokens| < 2 then VersionNotFound
        else
          ParsedVersionIsWordPart(tokens[1]);
          StripBy(tokens[1], Parens)
  }

  lemma ParsedVersionIsWordPart(token: string)
    requires IsWord(token)
    ensures var v := StripBy(token, Parens);
      (forall i | 0 <= i < |v| :: !IsSpace(v[i])) && v != VersionNotFound
  {
    var v := StripBy(token, Parens);
    var lead, trail := StripByParts(token, Parens);
    forall i | 0 <= i < |v| ensures !IsSpace(v[i]) {
      assert v[i] == token[|lead| + i];
    }
    assert IsSpace(VersionNotFound[7]);
  }

  /** A first line in the Debian changelog format, `package (version)
      distribution; urgency=...`, yields the version between the
      parentheses. */
  lemma ChangelogStandardLine(package: string, version: string, rest: string)
    requires IsWord(package) && IsWord(version)
    requires !IsParen(version[0]) && !IsParen(Last(version))
    requires rest == [] || IsSpace(rest[0])
    ensures ChangelogVersion(Some(package + " (" + version + ")" + rest)) == version
  {
    var w := ['('] + version + [')'];
    ParenWord(version);
    StandardLineShape(package, version, rest);
    SplitTwoWords([], package, " ", w, rest);
    StripByFramed(['('], version, [')'], Parens);
  }

  lemma ParenWord(version: string)
    requires IsWord(version)
    ensures IsWord(['('] + version + [')'])
  {
    var w := ['('] + version + [')'];
    forall i | 0 <= i < |w| ensures !IsSpace(w[i]) {
      if 0 < i < |w| - 1 {
        assert w[i] == version[i - 1];
      }
    }
  }

  lemma StandardLineShape(package: string, version: string, rest: string)
    ensures package + " (" + version + ")" + rest == [] + package + " " + (['('] + version + [')']) + rest
  {
    var lhs := package + " (" + version + ")" + rest;
    var rhs := [] + package + " " + (['('] + version + [')']) + rest;
    assert |lhs| == |rhs|;
    forall i | 0 <= i < |lhs| ensures lhs[i] == rhs[i] {
    }
  }

  // ------------------------------------------------ synthesized versions

  /** `hash[:7]` */
  function ShortHash(hash: string): (s: string)
    ensures StartsWith(hash, s)
    ensures |s| == if |hash| < 7 then |hash| else 7
  {
    if |hash| <= 7 then hash else hash[..7]
  }

  /** `f"{base}+git{date}.{hash[:7]}"` */
  function GitVersion(base: string, c: Commit): string {
    base + "+git" + c.date + "." + ShortHash(c.hash)
  }

  /** The synthesized version reads back: its last dot separates the short
      hash from `base+git<date>`, and it carries `+git<date>` so it is never
      the not-found text. */
  lemma GitVersionParts(base: string, c: Commit)
    requires '.' !in c.hash
    ensures var v := GitVersion(base, c);
      && RPartition(v, '.') == (base + "+git" + c.date, ShortHash(c.hash))
      && Contains(v, "+git" + c.date)
      && v != VersionNotFound
  {
    var v := GitVersion(base, c);
    var s := ShortHash(c.hash);
    assert '.' !in s by {
      forall i | 0 <= i < |s| ensures s[i] != '.' {
        assert s[i] == c.hash[i];
      }
    }
    RPartitionAt(base + "+git" + c.date, '.', s);
    GitVersionNotSentinel(base, c);
  }

  lemma GitVersionNotSentinel(base: string, c: Commit)
    ensures Contains(GitVersion(base, c), "+git" + c.date)
    ensures GitVersion(base, c) != VersionNotFound
  {
    var v := GitVersion(base, c);
    assert v == base + ("+git" + c.date) + ("." + ShortHash(c.hash));
    ContainsAt(base, "+git" + c.date, "." + ShortHash(c.hash));
    ContainsFirst(v, "+git" + c.date);
    assert '+' !in VersionNotFound;
  }

  /** The changelog version, or the fallback when there is none. */
  function BaseVersion(changelog: Option<string>): (base: string)
    ensures base != VersionNotFound
    ensures ChangelogVersion(changelog) == VersionNotFound ==> base == FallbackBase
    ensures ChangelogVersion(changelog) != VersionNotFound ==> base == ChangelogVersion(changelog)
  {
    var v := ChangelogVersion(changelog);
    if v == VersionNotFound then FallbackBase else v
  }

  /** `calculate_version_from_git_hash`: the synthesized version and the full
      hash of the newest commit, or both not-found texts when there is no
      commit to read. */
  function CalculateVersion(commit: Option<Commit>, changelog: Option<string>): (r: (string, string))
    ensures commit.None? ==> r == (VersionNotFound, HashNotFound)
    ensures commit.Some? ==> r == (GitVersion(BaseVersion(changelog), commit.value), commit.value.hash)
    ensures commit.Some? ==> r.0 != VersionNotFound
  {
    match commit
    case None => (VersionNotFound, HashNotFound)
    case Some(c) =>
      GitVersionNotSentinel(BaseVersion(changelog), c);
      (GitVersion(BaseVersion(changelog), c), c.hash)
  }

  // ------------------------------------------------ repositories

  /** `get_salsa_repo_url` */
  function SalsaUrl(name: string): (url: string)
    ensures StartsWith(url, SalsaPrefix)
    ensures |url| == |SalsaPrefix| + |name| + |GitSuffix|
  {
    SalsaPrefix + name + GitSuffix
  }

  /** Reads the package name back from a Salsa URL. */
  function SalsaName(url: string): Option<string> {
    if |url| >= |SalsaPrefix| + |GitSuffix| && StartsWith(url, SalsaPrefix)
      && url[|url| - |GitSuffix|..] == GitSuffix
    then Some(url[|SalsaPrefix|..|url| - |GitSuffix|])
    else None
  }

  /** The URL determines the package name: distinct packages are cloned
      from distinct repositories. */
  lemma SalsaUrlRoundTrip(name: string)
    ensures SalsaName(SalsaUrl(name)) == Some(name)
  {
    var url := SalsaUrl(name);
    assert url[|url| - |GitSuffix|..] == GitSuffix;
    assert url[|SalsaPrefix|..|url| - |GitSuffix|] == name;
  }

  lemma SalsaUrlInjective(a: string, b: string)
    requires SalsaUrl(a) == SalsaUrl(b)
    ensures a == b
  {
    SalsaUrlRoundTrip(a);
    SalsaUrlRoundTrip(b);
  }

  /** `Path.home() / f"{name}-repo"` */
  function MirrorPath(home: Path, name: string): (p: Path)
    ensures |p| == |home| + 1 && p[..|home|] == home
    ensures |p[|home|]| == |name| + 5 && p[|home|][..|name|] == name && p[|home|][|name|..] == "-repo"
  {
    home + [name + "-repo"]
  }

  lemma MirrorPathInjective(home: Path, a: string, b: string)
    requires MirrorPath(home, a) == MirrorPath(home, b)
    ensures a == b
  {
    assert MirrorPath(home, a)[|home|] == a + "-repo";
    assert (a + "-repo")[..|a|] == a;
    assert (b + "-repo")[..|b|] == b;
  }

  /** `repo_path / 'debian' / 'changelog'` */
  function ChangelogPath(repo: Path): Path {
    repo + ["debian", "changelog"]
  }

  /** `get_latest_git_hash` */
  function HeadHash(host: Host, repo: Path): (h: string)
    ensures host.head(repo).Some? ==> h == host.head(repo).value
    ensures host.head(repo).None? ==> h == HashNotFound
  {
    match host.head(repo)
    case None => HashNotFound
    case Some(h) => h
  }

  /** `calculate_version_from_git_hash(repo)` against the host. */
  function Synthesize(host: Host, repo: Path): (string, string) {
    CalculateVersion(host.latestCommit(repo), host.firstLine(ChangelogPath(repo)))
  }

  // ------------------------------------------------ process_package

  /** `process_package` of the comparison and dependency scripts. The apt
      version is read first, so a malformed candidate line crashes the run
      whether or not the clone succeeds; a failed clone returns None; a
      found apt version is paired with the mirror's HEAD, otherwise the
      version is synthesized from the mirror. */
  function ProcessPackage(host: Host, name: string): (r: Result<Option<(string, string)>>)
    ensures r.Err? <==> AptVersion(host.policy(name)).Err?
    ensures r.Ok? && r.value.Some? ==> host.cloneOrUpdate(SalsaUrl(name), MirrorPath(host.home, name))
    ensures AptVersion(host.policy(name)) == Ok(VersionNotFound)
            && host.cloneOrUpdate(SalsaUrl(name), MirrorPath(host.home, name)) ==>
      r == Ok(Some(CalculateVersion(host.latestCommit(MirrorPath(host.home, name)),
                                    host.firstLine(ChangelogPath(MirrorPath(host.home, name))))))
  {
    var apt := AptVersion(host.policy(name));
    if apt.Err? then Err(apt.error)
    else
      var repo := MirrorPath(host.home, name);
      if !host.cloneOrUpdate(SalsaUrl(name), repo) then Ok(None)
      else if apt.value == VersionNotFound then Ok(Some(Synthesize(host, repo)))
      else Ok(Some((apt.value, HeadHash(host, repo))))
  }

  /** The version reported for a package is the not-found text only when the
      mirror has no commit to read, and then so is the hash. */
  lemma ProcessPackageNotFound(host: Host, name: string)
    requires ProcessPackage(host, name).Ok? && ProcessPackage(host, name).value.Some?
    requires ProcessPackage(host, name).value.value.0 == VersionNotFound
    ensures host.latestCommit(MirrorPath(host.home, name)).None?
    ensures ProcessPackage(host, name).value.value.1 == HashNotFound
  {
  }

  /** A version found by apt is reported unchanged, with the mirror's HEAD. */
  lemma ProcessPackageKeepsApt(host: Host, name: string)
    requires AptVersion(host.policy(name)).Ok?
    requires AptVersion(host.policy(name)).value != VersionNotFound
    requires host.cloneOrUpdate(SalsaUrl(name), MirrorPath(host.home, name))
    ensures ProcessPackage(host, name)
         == Ok(Some((AptVersion(host.policy(name)).value, HeadHash(host, MirrorPath(host.home, name)))))
  {
  }

  /** `process_package` of the merged script: always synthesized. */
  function ProcessPackageMerged(host: Host, name: string): (r: Option<(string, string)>)
    ensures r.Some? <==> host.cloneOrUpdate(SalsaUrl(name), MirrorPath(host.home, name))
    ensures r.Some? ==>
      r.value == CalculateVersion(host.latestCommit(MirrorPath(host.home, name)),
                                  host.firstLine(ChangelogPath(MirrorPath(host.home, name))))
  {
    var repo := MirrorPath(host.home, name);
    if host.cloneOrUpdate(SalsaUrl(name), repo) then Some(Synthesize(host, repo)) else None
  }

  /** The merged script never consults apt. */
  lemma MergedIgnoresApt(host: Host, policy: string -> Option<seq<string>>, name: string)
    ensures ProcessPackageMerged(host.(policy := policy), name) == ProcessPackageMerged(host, name)
  {
  }

  /** When apt has no version the two scripts agree. */
  lemma MergedAgreesWithoutApt(host: Host, name: string)
    requires AptVersion(host.policy(name)) == Ok(VersionNotFound)
    ensures ProcessPackage(host, name) == Ok(ProcessPackageMerged(host, name))
  {
  }
}
