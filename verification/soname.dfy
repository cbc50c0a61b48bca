/** Soname normalisation (`handle_soname_versions`, identical in
    compare_debian_drivers.py, indi_dependency_checker.py and
    merged_drivers.py): one package name is kept per base name, where the
    base of `name-<digits>` is `name` and every other name is its own base. */
module Soname {
  import opened Seqs
  import opened Outcomes
  import opened Text

  /** `package.rpartition('-')[0]` */
  function Head(p: string): string {
    RPartition(p, '-').0
  }

  /** `package.rpartition('-')[-1]`: after the last '-', or all of `p`. */
  function Tail(p: string): string {
    RPartition(p, '-').1
  }

  /** `version_suffix.isdigit()` */
  predicate HasVersionSuffix(p: string) {
    IsDigits(Tail(p))
  }

  /** The dictionary key the loop files `p` under. */
  function Base(p: string): string {
    if HasVersionSuffix(p) then Head(p) else p
  }

  /** `int(version_suffix)` for a suffixed name. */
  function SuffixValue(p: string): nat
    requires HasVersionSuffix(p)
  {
    DigitsValue(Tail(p))
  }

  /** `int(current_version.rpartition('-')[-1])`: the number the kept entry is
      compared by; None where `int()` raises ValueError. */
  function Rank(p: string): Option<int> {
    ParseInt(Tail(p))
  }

  lemma RankOfSuffixed(p: string)
    requires HasVersionSuffix(p)
    ensures Rank(p) == Some(SuffixValue(p))
  {
    ParseIntDigits(Tail(p));
  }

  function Bases(ps: seq<string>): (bs: seq<string>)
    ensures |bs| == |ps|
    ensures forall i | 0 <= i < |ps| :: bs[i] == Base(ps[i])
  {
    seq(|ps|, i requires 0 <= i < |ps| => Base(ps[i]))
  }

  /** The dictionary `package_dict`: base name to kept package name. */
  type Table = Dict<string, string>

  /** One iteration of the loop over `packages`. */
  function Step(t: Table, p: string): (r: Result<Table>)
    requires t.Valid()
    ensures r.Ok? ==> r.value.Valid()
  {
    var b := Base(p);
    if b in t.entries then
      if HasVersionSuffix(p) then
        match Rank(t.entries[b])
        case None => Err(ValueError(Tail(t.entries[b])))
        case Some(current) => if SuffixValue(p) > current then Ok(t.Put(b, p)) else Ok(t)
      else Ok(t)
    else Ok(t.Put(b, p))
  }

  /** The dictionary after the loop has run over `ps`, or the ValueError that
      stopped it. */
  function Fold(ps: seq<string>): (r: Result<Table>)
    ensures r.Ok? ==> r.value.Valid()
    decreases |ps|
  {
    if ps == [] then Ok(EmptyDict())
    else
      match Fold(DropLast(ps))
      case Err(e) => Err(e)
      case Ok(t) => Step(t, Last(ps))
  }

  /** `handle_soname_versions(ps)`: the kept names in key order. */
  function Normalized(ps: seq<string>): Result<seq<string>> {
    match Fold(ps)
    case Err(e) => Err(e)
    case Ok(t) => Ok(t.Values())
  }

  /** The loop of `handle_soname_versions`, updating the dictionary in place. */
  method NormalizeSonames(packages: seq<string>) returns (r: Result<seq<string>>)
    ensures r == Normalized(packages)
  {
    var keys: seq<string> := [];
    var entries: map<string, string> := map[];
    for i := 0 to |packages|
      invariant Fold(packages[..i]) == Ok(Dict(keys, entries))
    {
      var package := packages[i];
      FoldNext(packages, i);
      var (head, suffix) := RPartition(package, '-');
      var base := if IsDigits(suffix) then head else package;
      if base in entries {
        var current := entries[base];
        if IsDigits(suffix) {
          // int(version_suffix) > int(current_version.rpartition('-')[-1])
          var currentRank := ParseInt(RPartition(current, '-').1);
          if currentRank.None? {
            FoldErrPersists(packages, i + 1);
            return Err(ValueError(RPartition(current, '-').1));
          }
          if DigitsValue(suffix) > currentRank.value {
            entries := entries[base := package];
          }
        }
      } else {
        keys := keys + [base];
        entries := entries[base := package];
      }
    }
    assert packages[..|packages|] == packages;
    r := Ok(Dict(keys, entries).Values());
  }

  lemma FoldNext(ps: seq<string>, i: nat)
    requires i < |ps|
    ensures Fold(ps[..i + 1]) == match Fold(ps[..i]) case Err(e) => Err(e) case Ok(t) => Step(t, ps[i])
  {
    assert DropLast(ps[..i + 1]) == ps[..i];
  }

  lemma {:induction false} FoldErrPersists(ps: seq<string>, n: nat)
    requires n <= |ps| && Fold(ps[..n]).Err?
    ensures Fold(ps) == Fold(ps[..n])
    decreases |ps| - n
  {
    if n < |ps| {
      assert DropLast(ps[..n + 1]) == ps[..n];
      FoldErrPersists(ps, n + 1);
    } else {
      assert ps[..n] == ps;
    }
  }

  // ------------------------------------------------------------ invariant

  /** No name before index `i` has the base of `ps[i]`. */
  ghost predicate FirstOfBase(ps: seq<string>, i: nat)
    requires i < |ps|
  {
    forall k | 0 <= k < i :: Base(ps[k]) != Base(ps[i])
  }

  /** Every suffixed name of the same base seen before `w` first appears has a
      strictly smaller number than `w`: on a tie the first-seen name stays. */
  ghost predicate EarlierAreSmaller(ps: seq<string>, w: string)
    requires w in ps
  {
    forall j | 0 <= j < IndexOf(ps, w) && Base(ps[j]) == Base(w) && HasVersionSuffix(ps[j]) ::
      Rank(w).Some? && SuffixValue(ps[j]) < Rank(w).value
  }

  /** The keys are the bases of `ps` in order of first appearance. */
  ghost predicate KeysInOrder(ps: seq<string>, t: Table) {
    t.Valid() && t.keys == Dedup(Bases(ps))
  }

  /** Each key maps to a name of that base taken from `ps`. */
  ghost predicate KeptFromInput(ps: seq<string>, t: Table) {
    forall b | b in t.entries :: Base(t.entries[b]) == b && t.entries[b] in ps
  }

  /** Each suffixed name of `ps` has a number at most that of the kept name. */
  ghost predicate KeptIsLargest(ps: seq<string>, t: Table) {
    forall j | 0 <= j < |ps| && HasVersionSuffix(ps[j]) ::
      Base(ps[j]) in t.entries && Rank(t.entries[Base(ps[j])]).Some? &&
      SuffixValue(ps[j]) <= Rank(t.entries[Base(ps[j])]).value
  }

  ghost predicate KeptFirstSeen(ps: seq<string>, t: Table) {
    forall b | b in t.entries :: t.entries[b] in ps && EarlierAreSmaller(ps, t.entries[b])
  }

  ghost predicate UnsuffixedKeptFirst(ps: seq<string>, t: Table) {
    forall b | b in t.entries :: t.entries[b] in ps && !HasVersionSuffix(t.entries[b]) ==>
      FirstOfBase(ps, IndexOf(ps, t.entries[b]))
  }

  /** A first-of-its-base unsuffixed name that is not a number stays kept. */
  ghost predicate UnnumberedStays(ps: seq<string>, t: Table) {
    forall i | 0 <= i < |ps| && FirstOfBase(ps, i) && !HasVersionSuffix(ps[i]) && Rank(ps[i]).None? ::
      ps[i] in t.entries && t.entries[ps[i]] == ps[i]
  }

  /** What the dictionary holds after the loop has seen `ps`. */
  ghost predicate Consistent(ps: seq<string>, t: Table) {
    && KeysInOrder(ps, t) && KeptFromInput(ps, t) && KeptIsLargest(ps, t)
    && KeptFirstSeen(ps, t) && UnsuffixedKeptFirst(ps, t) && UnnumberedStays(ps, t)
  }

  lemma BasesSnoc(ps: seq<string>, p: string)
    ensures Bases(ps + [p]) == Bases(ps) + [Base(p)]
  {
  }

  /** A base among the keys is the base of some earlier name, and back. */
  lemma KeyOfBase(ps: seq<string>, t: Table, b: string)
    requires KeysInOrder(ps, t)
    ensures b in t.entries <==> exists j | 0 <= j < |ps| :: Base(ps[j]) == b
  {
    if b in t.entries {
      assert b in Bases(ps);
      var j :| 0 <= j < |ps| && Bases(ps)[j] == b;
    } else {
      forall j | 0 <= j < |ps| ensures Base(ps[j]) != b {
        assert Bases(ps)[j] == Base(ps[j]);
      }
    }
  }

  lemma FirstOfBaseSnoc(ps: seq<string>, p: string, i: nat)
    requires i < |ps|
    ensures FirstOfBase(ps + [p], i) == FirstOfBase(ps, i)
  {
    assert forall k | 0 <= k < |ps| :: (ps + [p])[k] == ps[k];
  }

  lemma EarlierAreSmallerSnoc(ps: seq<string>, p: string, w: string)
    requires w in ps
    ensures w in ps + [p] && EarlierAreSmaller(ps + [p], w) == EarlierAreSmaller(ps, w)
  {
    IndexOfSnocIn(ps, p, w);
    assert forall k | 0 <= k < |ps| :: (ps + [p])[k] == ps[k];
  }

  /** The three ways one iteration can go without an error. */
  lemma StepCases(t: Table, p: string, t': Table)
    requires t.Valid() && Step(t, p) == Ok(t')
    ensures Base(p) !in t.entries ==> t' == t.Put(Base(p), p)
    ensures Base(p) in t.entries && HasVersionSuffix(p) ==>
              Rank(t.entries[Base(p)]).Some? &&
              t' == if SuffixValue(p) > Rank(t.entries[Base(p)]).value then t.Put(Base(p), p) else t
    ensures Base(p) in t.entries && !HasVersionSuffix(p) ==> t' == t
  {
  }

  /** Only the entry of `Base(p)` can change, and only to `p`. */
  lemma StepFrame(t: Table, p: string, t': Table)
    requires t.Valid() && Step(t, p) == Ok(t')
    ensures t'.Valid()
    ensures forall c :: c in t'.entries <==> c in t.entries || c == Base(p)
    ensures forall c | c in t.entries && c != Base(p) :: t'.entries[c] == t.entries[c]
    ensures Base(p) in t'.entries
    ensures t'.entries[Base(p)] == p || (Base(p) in t.entries && t'.entries[Base(p)] == t.entries[Base(p)])
  {
    StepCases(t, p, t');
  }

  lemma StepKeysInOrder(ps: seq<string>, t: Table, p: string, t': Table)
    requires KeysInOrder(ps, t) && Step(t, p) == Ok(t')
    ensures KeysInOrder(ps + [p], t')
  {
    StepCases(t, p, t');
    BasesSnoc(ps, p);
    DedupSnoc(Bases(ps), Base(p));
  }

  lemma StepKeptFromInput(ps: seq<string>, t: Table, p: string, t': Table)
    requires t.Valid() && KeptFromInput(ps, t) && Step(t, p) == Ok(t')
    ensures KeptFromInput(ps + [p], t')
  {
    StepFrame(t, p, t');
  }

  /** The number of the kept name of `Base(p)` never drops, and covers `p`. */
  lemma StepRaisesRank(t: Table, p: string, t': Table)
    requires t.Valid() && Step(t, p) == Ok(t')
    ensures HasVersionSuffix(p) ==>
      Rank(t'.entries[Base(p)]).Some? && SuffixValue(p) <= Rank(t'.entries[Base(p)]).value
    ensures Base(p) in t.entries && Rank(t.entries[Base(p)]).Some? ==>
      Rank(t'.entries[Base(p)]).Some? && Rank(t.entries[Base(p)]).value <= Rank(t'.entries[Base(p)]).value
  {
    StepCases(t, p, t');
    if HasVersionSuffix(p) {
      RankOfSuffixed(p);
    }
  }

  lemma StepKeptIsLargest(ps: seq<string>, t: Table, p: string, t': Table)
    requires t.Valid() && KeptIsLargest(ps, t) && Step(t, p) == Ok(t')
    ensures KeptIsLargest(ps + [p], t')
  {
    StepFrame(t, p, t');
    StepRaisesRank(t, p, t');
    var ps' := ps + [p];
    forall j | 0 <= j < |ps'| && HasVersionSuffix(ps'[j])
      ensures Base(ps'[j]) in t'.entries && Rank(t'.entries[Base(ps'[j])]).Some? &&
              SuffixValue(ps'[j]) <= Rank(t'.entries[Base(ps'[j])]).value
    {
      if j < |ps| {
        assert ps'[j] == ps[j];
      }
    }
  }

  /** A name that enters the dictionary has not been seen before, and every
      earlier suffixed name of its base has a smaller number. */
  lemma EnteringNameIsNew(ps: seq<string>, t: Table, p: string, t': Table)
    requires KeysInOrder(ps, t) && KeptIsLargest(ps, t) && Step(t, p) == Ok(t')
    requires Base(p) !in t.entries || t'.entries[Base(p)] != t.entries[Base(p)]
    ensures t'.entries[Base(p)] == p && p !in ps
    ensures p in ps + [p] && EarlierAreSmaller(ps + [p], p)
  {
    StepCases(t, p, t');
    var b := Base(p);
    if HasVersionSuffix(p) {
      RankOfSuffixed(p);
    }
    KeyOfBase(ps, t, b);
    IndexOfSnocNew(ps, p);
    var ps' := ps + [p];
    forall j | 0 <= j < IndexOf(ps', p) && Base(ps'[j]) == b && HasVersionSuffix(ps'[j])
      ensures Rank(p).Some? && SuffixValue(ps'[j]) < Rank(p).value
    {
      assert ps'[j] == ps[j];
    }
  }

  lemma StepKeptFirstSeen(ps: seq<string>, t: Table, p: string, t': Table)
    requires KeysInOrder(ps, t) && KeptIsLargest(ps, t)
    requires KeptFirstSeen(ps, t) && Step(t, p) == Ok(t')
    ensures KeptFirstSeen(ps + [p], t')
  {
    StepFrame(t, p, t');
    forall b | b in t'.entries
      ensures t'.entries[b] in ps + [p] && EarlierAreSmaller(ps + [p], t'.entries[b])
    {
      if b in t.entries && t'.entries[b] == t.entries[b] {
        EarlierAreSmallerSnoc(ps, p, t.entries[b]);
      } else {
        EnteringNameIsNew(ps, t, p, t');
      }
    }
  }

  lemma StepUnsuffixedKeptFirst(ps: seq<string>, t: Table, p: string, t': Table)
    requires KeysInOrder(ps, t) && KeptFromInput(ps, t)
    requires UnsuffixedKeptFirst(ps, t) && Step(t, p) == Ok(t')
    ensures UnsuffixedKeptFirst(ps + [p], t')
  {
    StepFrame(t, p, t');
    var ps' := ps + [p];
    forall b | b in t'.entries && t'.entries[b] in ps' && !HasVersionSuffix(t'.entries[b])
      ensures FirstOfBase(ps', IndexOf(ps', t'.entries[b]))
    {
      var w := t'.entries[b];
      if b in t.entries && w == t.entries[b] {
        IndexOfSnocIn(ps, p, w);
        FirstOfBaseSnoc(ps, p, IndexOf(ps, w));
      } else {
        // `p` entered unsuffixed, so its base was new
        StepCases(t, p, t');
        KeyOfBase(ps, t, Base(p));
        assert Base(p) == p;
        IndexOfSnocNew(ps, p);
        forall k | 0 <= k < |ps| ensures Base(ps'[k]) != Base(ps'[|ps|]) {
          assert ps'[k] == ps[k];
        }
      }
    }
  }

  lemma StepUnnumberedStays(ps: seq<string>, t: Table, p: string, t': Table)
    requires KeysInOrder(ps, t) && UnnumberedStays(ps, t) && Step(t, p) == Ok(t')
    ensures UnnumberedStays(ps + [p], t')
  {
    StepFrame(t, p, t');
    var ps' := ps + [p];
    forall i | 0 <= i < |ps'| && FirstOfBase(ps', i) && !HasVersionSuffix(ps'[i]) && Rank(ps'[i]).None?
      ensures ps'[i] in t'.entries && t'.entries[ps'[i]] == ps'[i]
    {
      if i < |ps| {
        assert ps'[i] == ps[i];
        FirstOfBaseSnoc(ps, p, i);
        if Base(p) == ps[i] {
          // an unnumbered kept name makes a numbered sibling fail
          StepCases(t, p, t');
        }
      } else {
        forall k | 0 <= k < |ps| ensures Base(ps[k]) != Base(p) {
          assert ps[k] == ps'[k];
        }
        KeyOfBase(ps, t, Base(p));
        StepCases(t, p, t');
      }
    }
  }

  lemma StepConsistent(ps: seq<string>, t: Table, p: string)
    requires Consistent(ps, t) && Step(t, p).Ok?
    ensures Consistent(ps + [p], Step(t, p).value)
  {
    var t' := Step(t, p).value;
    StepKeysInOrder(ps, t, p, t');
    StepKeptFromInput(ps, t, p, t');
    StepKeptIsLargest(ps, t, p, t');
    StepKeptFirstSeen(ps, t, p, t');
    StepUnsuffixedKeptFirst(ps, t, p, t');
    StepUnnumberedStays(ps, t, p, t');
  }

  lemma EmptyConsistent()
    ensures Consistent([], EmptyDict())
  {
    assert Bases([]) == [];
  }

  lemma {:induction false} FoldConsistent(ps: seq<string>)
    requires Fold(ps).Ok?
    ensures Consistent(ps, Fold(ps).value)
    decreases |ps|
  {
    if ps == [] {
      EmptyConsistent();
    } else {
      var init := DropLast(ps);
      DropLastSnoc(ps);
      FoldConsistent(init);
      StepConsistent(init, Fold(init).value, Last(ps));
    }
  }

  // ------------------------------------------------------------ properties

  /** One name per base, in the order in which each base first appeared, and
      every kept name comes from the input. */
  lemma NormalizedOnePerBase(ps: seq<string>)
    requires Normalized(ps).Ok?
    ensures Bases(Normalized(ps).value) == Dedup(Bases(ps))
    ensures NoDup(Bases(Normalized(ps).value))
    ensures |Normalized(ps).value| <= |ps|
    ensures forall k | 0 <= k < |Normalized(ps).value| :: Normalized(ps).value[k] in ps
  {
    FoldConsistent(ps);
  }

  /** The kept name of a base carries a number at least that of every
      suffixed name of that base in the input. */
  lemma NormalizedKeepsLargest(ps: seq<string>)
    requires Normalized(ps).Ok?
    ensures forall k, j | 0 <= k < |Normalized(ps).value| && 0 <= j < |ps| &&
              HasVersionSuffix(ps[j]) && Base(ps[j]) == Base(Normalized(ps).value[k]) ::
              Rank(Normalized(ps).value[k]).Some? &&
              SuffixValue(ps[j]) <= Rank(Normalized(ps).value[k]).value
  {
    var t := Fold(ps).value;
    FoldKeepsLargest(ps);
    forall k, j | 0 <= k < |t.keys| && 0 <= j < |ps| &&
      HasVersionSuffix(ps[j]) && Base(ps[j]) == Base(t.entries[t.keys[k]])
      ensures Rank(t.entries[t.keys[k]]).Some? && SuffixValue(ps[j]) <= Rank(t.entries[t.keys[k]]).value
    {
      var b := t.keys[k];
      assert b in t.entries;
      assert Base(ps[j]) == b;
    }
  }

  lemma FoldKeepsLargest(ps: seq<string>)
    requires Fold(ps).Ok?
    ensures KeptFromInput(ps, Fold(ps).value) && KeptIsLargest(ps, Fold(ps).value)
  {
    FoldConsistent(ps);
  }

  /** A later name replaces the kept one only on a strictly larger number, so
      on a tie the first-seen name stays; an unsuffixed kept name is the first
      name of its base. */
  lemma NormalizedFirstSeenWins(ps: seq<string>)
    requires Normalized(ps).Ok?
    ensures forall k | 0 <= k < |Normalized(ps).value| ::
              var w := Normalized(ps).value[k];
              w in ps && EarlierAreSmaller(ps, w) &&
              (!HasVersionSuffix(w) ==> FirstOfBase(ps, IndexOf(ps, w)))
  {
    FoldConsistent(ps);
    var t := Fold(ps).value;
    forall k | 0 <= k < |t.keys|
      ensures var w := t.entries[t.keys[k]];
              w in ps && EarlierAreSmaller(ps, w) &&
              (!HasVersionSuffix(w) ==> FirstOfBase(ps, IndexOf(ps, w)))
    {
      assert t.keys[k] in t.entries;
    }
  }

  /** The ValueError: an unsuffixed name kept first whose last '-' segment is
      not a number, followed later by a `<name>-<digits>` sibling. */
  ghost predicate Conflict(ps: seq<string>, i: int, j: int) {
    && 0 <= i < j < |ps|
    && !HasVersionSuffix(ps[i]) && Rank(ps[i]).None? && FirstOfBase(ps, i)
    && HasVersionSuffix(ps[j]) && Base(ps[j]) == ps[i]
  }

  lemma ConflictSnoc(ps: seq<string>, p: string, i: int, j: int)
    requires j < |ps|
    ensures Conflict(ps + [p], i, j) == Conflict(ps, i, j)
  {
    if 0 <= i < j {
      assert (ps + [p])[i] == ps[i] && (ps + [p])[j] == ps[j];
      FirstOfBaseSnoc(ps, p, i);
    }
  }

  /** How one iteration can fail. */
  lemma StepErrCases(t: Table, p: string)
    requires t.Valid() && Step(t, p).Err?
    ensures Base(p) in t.entries && HasVersionSuffix(p) && Rank(t.entries[Base(p)]).None?
  {
  }

  /** A failing iteration exhibits a conflict with the new name. */
  lemma StepErrConflict(ps: seq<string>, t: Table, p: string) returns (i: int)
    requires t.Valid() && KeptFromInput(ps, t) && UnsuffixedKeptFirst(ps, t) && Step(t, p).Err?
    ensures Conflict(ps + [p], i, |ps|)
  {
    StepErrCases(t, p);
    var w := t.entries[Base(p)];
    if HasVersionSuffix(w) {
      RankOfSuffixed(w);
    }
    assert !HasVersionSuffix(w) && Base(w) == Base(p) && w in ps;
    i := IndexOf(ps, w);
    assert FirstOfBase(ps, i);
    FirstOfBaseSnoc(ps, p, i);
    var ps' := ps + [p];
    assert ps'[i] == w && ps'[|ps|] == p;
  }

  /** A succeeding iteration leaves no conflict with the new name. */
  lemma StepOkNoConflict(ps: seq<string>, t: Table, p: string, i: int)
    requires t.Valid() && UnnumberedStays(ps, t) && Step(t, p).Ok?
    ensures !Conflict(ps + [p], i, |ps|)
  {
    if Conflict(ps + [p], i, |ps|) {
      var ps' := ps + [p];
      assert ps'[i] == ps[i] && ps'[|ps|] == p;
      FirstOfBaseSnoc(ps, p, i);
    }
  }

  lemma {:induction false} NormalizedFailsIff(ps: seq<string>)
    ensures Normalized(ps).Err? <==> exists i, j :: Conflict(ps, i, j)
    decreases |ps|
  {
    if ps != [] {
      var init, p, n := DropLast(ps), Last(ps), |ps| - 1;
      DropLastSnoc(ps);
      NormalizedFailsIff(init);
      FoldSnoc(init, p);
      if Fold(init).Err? {
        var i, j :| Conflict(init, i, j);
        ConflictSnoc(init, p, i, j);
      } else {
        var t := Fold(init).value;
        FoldConsistent(init);
        if Step(t, p).Err? {
          var i := StepErrConflict(init, t, p);
        } else {
          forall i, j ensures !Conflict(ps, i, j) {
            if j < n {
              ConflictSnoc(init, p, i, j);
            } else {
              StepOkNoConflict(init, t, p, i);
            }
          }
        }
      }
    }
  }

  // ------------------------------------------------------------ examples

  lemma FoldSnoc(ps: seq<string>, p: string)
    ensures Fold(ps + [p]) == match Fold(ps) case Err(e) => Err(e) case Ok(t) => Step(t, p)
  {
    assert DropLast(ps + [p]) == ps;
  }

  /** `h-<digits>` has base `h` and the number of its digits. */
  lemma BaseOfSuffixed(h: string, d: string)
    requires IsDigits(d)
    ensures Base(h + ['-'] + d) == h && HasVersionSuffix(h + ['-'] + d)
    ensures SuffixValue(h + ['-'] + d) == DigitsValue(d)
  {
    assert forall i | 0 <= i < |d| :: d[i] != '-';
    RPartitionAt(h, '-', d);
  }

  /** A name without '-' that is not all digits is its own base: `libfoo3`
      is not grouped with `libfoo`. */
  lemma UnhyphenatedOwnBase(p: string)
    requires '-' !in p && !IsDigits(p)
    ensures Base(p) == p && !HasVersionSuffix(p)
  {
  }

  /** Names without a numeric suffix are never grouped: the result is the
      input without repeats. */
  lemma {:induction false} NormalizedWithoutSuffixes(ps: seq<string>)
    requires forall i | 0 <= i < |ps| :: !HasVersionSuffix(ps[i])
    ensures Normalized(ps) == Ok(Dedup(ps))
  {
    FoldWithoutSuffixes(ps);
    var t := Fold(ps).value;
    assert t.Values() == t.keys;
  }

  lemma {:induction false} FoldWithoutSuffixes(ps: seq<string>)
    requires forall i | 0 <= i < |ps| :: !HasVersionSuffix(ps[i])
    ensures Fold(ps).Ok? && Fold(ps).value.keys == Dedup(ps)
    ensures forall k | k in Fold(ps).value.entries :: Fold(ps).value.entries[k] == k
    decreases |ps|
  {
    if ps != [] {
      var init, p := DropLast(ps), Last(ps);
      DropLastSnoc(ps);
      FoldWithoutSuffixes(init);
      FoldSnoc(init, p);
      DedupSnoc(init, p);
      assert Base(p) == p;
    }
  }

  lemma StepOnNumbered(t: Table, p: string, current: int)
    requires t.Valid() && Base(p) in t.entries && HasVersionSuffix(p)
    requires Rank(t.entries[Base(p)]) == Some(current)
    ensures Step(t, p) == Ok(if SuffixValue(p) > current then t.Put(Base(p), p) else t)
  {
  }

  lemma FoldTwo(p1: string, p2: string)
    ensures Fold([p1]) == Ok(EmptyDict<string, string>().Put(Base(p1), p1))
    ensures Fold([p1, p2]) == Step(EmptyDict<string, string>().Put(Base(p1), p1), p2)
  {
    FoldSnoc([], p1);
    assert [] + [p1] == [p1];
    FoldSnoc([p1], p2);
    assert [p1] + [p2] == [p1, p2];
  }

  /** Two numbered names of one base (such as `libfoo-3` then `libfoo-03`,
      see `BaseOfSuffixed`): the larger number is kept, and on a tie the
      first. */
  lemma NormalizedPair(p1: string, p2: string)
    requires HasVersionSuffix(p1) && HasVersionSuffix(p2) && Base(p1) == Base(p2)
    ensures Normalized([p1, p2]) == Ok([if SuffixValue(p2) > SuffixValue(p1) then p2 else p1])
  {
    var kept := if SuffixValue(p2) > SuffixValue(p1) then p2 else p1;
    var t := PairTable(p1, p2);
    NormalizedOfFold([p1, p2], t);
    assert t.Values() == [kept];
  }

  lemma NormalizedOfFold(ps: seq<string>, t: Table)
    requires Fold(ps) == Ok(t)
    ensures Normalized(ps) == Ok(t.Values())
  {
  }

  /** The dictionary after two numbered names of one base. */
  lemma PairTable(p1: string, p2: string) returns (t: Table)
    requires HasVersionSuffix(p1) && HasVersionSuffix(p2) && Base(p1) == Base(p2)
    ensures Fold([p1, p2]) == Ok(t) && t.Valid() && t.keys == [Base(p1)]
    ensures t.entries[Base(p1)] == if SuffixValue(p2) > SuffixValue(p1) then p2 else p1
  {
    var h := Base(p1);
    RankOfSuffixed(p1);
    FoldTwo(p1, p2);
    var t1 := Dict([h], map[h := p1]);
    assert EmptyDict<string, string>().Put(h, p1) == t1;
    StepOnNumbered(t1, p2, SuffixValue(p1));
    t := if SuffixValue(p2) > SuffixValue(p1) then t1.Put(h, p2) else t1;
  }

  /** A name kept unsuffixed whose last '-' segment is not a number, then a
      numbered name of that base: `int()` of the segment raises ValueError. */
  lemma NormalizedUnnumberedFirstFails(h: string, d: string)
    requires !HasVersionSuffix(h) && Rank(h).None? && IsDigits(d)
    ensures Normalized([h, h + ['-'] + d]) == Err(ValueError(Tail(h)))
  {
    BaseOfSuffixed(h, d);
    FoldTwo(h, h + ['-'] + d);
  }
}
