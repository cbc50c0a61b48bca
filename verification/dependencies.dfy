/** Dependency sequencing (indi_dependency_checker.py): `get_dependencies`
    reads the `Depends:` lines of `apt-cache depends`, and
    `sort_packages_by_dependencies` orders the packages with Kahn's algorithm,
    counting only dependencies that are themselves in the list. */
module Dependencies {
  import opened Seqs
  import opened Outcomes
  import opened Text

  /** `apt-cache depends <name>` as lines, or None when the command fails
      (the CalledProcessError that `get_dependencies` catches). */
  type DependsOutput = string -> Option<seq<string>>

  // ------------------------------------------------------------ get_dependencies

  /** `line.startswith("  Depends:")`: exactly two spaces, then `Depends:`. */
  predicate IsDependsLine(line: string) {
    StartsWith(line, "  Depends:")
  }

  /** `line.split("Depends:")[1].strip()`: the text between the first
      `Depends:` (the one at column 2) and the next one, stripped. */
  function DependsEntry(line: string): string
    requires IsDependsLine(line)
  {
    Strip(BeforeFirst(line[10..], "Depends:"))
  }

  /** The entries of the `Depends:` lines, in order: entry `k` comes from the
      `k`-th such line, and no other line contributes. */
  function DependsEntries(lines: seq<string>): (r: seq<string>)
    ensures |r| == |Filter(lines, IsDependsLine)|
    ensures forall k | 0 <= k < |r| ::
              IsDependsLine(Filter(lines, IsDependsLine)[k]) &&
              r[k] == DependsEntry(Filter(lines, IsDependsLine)[k])
    decreases |lines|
  {
    if lines == [] then []
    else
      var line := Last(lines);
      DependsEntries(DropLast(lines)) + (if IsDependsLine(line) then [DependsEntry(line)] else [])
  }

  /** What `get_dependencies` returns for the command's outcome. */
  function Deps(output: Option<seq<string>>): seq<string> {
    match output
    case None => []
    case Some(lines) => DependsEntries(lines)
  }

  /** `get_dependencies`: a failed command gives no dependencies. */
  method GetDependencies(output: Option<seq<string>>) returns (dependencies: seq<string>)
    ensures dependencies == Deps(output)
    ensures output.None? ==> dependencies == []
    ensures output.Some? ==> |dependencies| == |Filter(output.value, IsDependsLine)|
  {
    dependencies := [];
    if output.Some? {
      var lines := output.value;
      for i := 0 to |lines|
        invariant dependencies == DependsEntries(lines[..i])
      {
        assert DropLast(lines[..i + 1]) == lines[..i];
        if IsDependsLine(lines[i]) {
          dependencies := dependencies + [DependsEntry(lines[i])];
        }
      }
      assert lines[..|lines|] == lines;
    }
  }

  // ------------------------------------------------------------ the graph

  /** `dep` is a dependency of `pkg` and both are in the list. */
  datatype Edge = Edge(dep: string, pkg: string)

  /** The edges one package contributes: one per dependency entry that is a
      member of `packages`, repeats included. */
  function PackageEdges(packages: seq<string>, ds: seq<string>, pkg: string): (es: seq<Edge>)
    ensures forall e | e in es :: e.pkg == pkg && e.dep in packages && e.dep in ds
    ensures forall d | d in ds && d in packages :: Edge(d, pkg) in es
    decreases |ds|
  {
    if ds == [] then []
    else
      var d := Last(ds);
      PackageEdges(packages, DropLast(ds), pkg) + (if d in packages then [Edge(d, pkg)] else [])
  }

  /** The edges of the packages in `prefix`, in the order the loop adds them. */
  function EdgesOf(packages: seq<string>, depends: DependsOutput, prefix: seq<string>): (es: seq<Edge>)
    ensures forall e | e in es :: e.dep in packages && e.pkg in prefix
    decreases |prefix|
  {
    if prefix == [] then []
    else
      var p := Last(prefix);
      EdgesOf(packages, depends, DropLast(prefix)) + PackageEdges(packages, Deps(depends(p)), p)
  }

  /** Every counted edge of `sort_packages_by_dependencies(packages)`. */
  function Graph(packages: seq<string>, depends: DependsOutput): (es: seq<Edge>)
    ensures forall e | e in es :: e.dep in packages && e.pkg in packages
  {
    EdgesOf(packages, depends, packages)
  }

  /** An edge is counted exactly when the dependency entry is in the list:
      dependencies outside it never constrain the order. */
  lemma GraphEdges(packages: seq<string>, depends: DependsOutput, d: string, p: string)
    requires p in packages
    ensures Edge(d, p) in Graph(packages, depends) <==> d in packages && d in Deps(depends(p))
  {
    EdgesOfMember(packages, depends, packages, d, p);
  }

  lemma {:induction false} EdgesOfMember(packages: seq<string>, depends: DependsOutput, prefix: seq<string>, d: string, p: string)
    requires p in prefix
    ensures Edge(d, p) in EdgesOf(packages, depends, prefix) <==> d in packages && d in Deps(depends(p))
    decreases |prefix|
  {
    var init, last := DropLast(prefix), Last(prefix);
    DropLastSnoc(prefix);
    if p in init {
      EdgesOfMember(packages, depends, init, d, p);
    }
  }

  /** `dependency_graph[d]`: the packages depending on `d`, once per edge. */
  function Successors(es: seq<Edge>, d: string): (s: seq<string>)
    ensures forall n :: multiset(s)[n] == multiset(es)[Edge(d, n)]
    ensures forall n | n in s :: Edge(d, n) in es
    decreases |es|
  {
    if es == [] then []
    else
      DropLastSnoc(es);
      var e := Last(es);
      Successors(DropLast(es), d) + (if e.dep == d then [e.pkg] else [])
  }

  /** Edges into `n` whose dependency is not yet in `done`. */
  function Remaining(es: seq<Edge>, done: seq<string>, n: string): nat
    decreases |es|
  {
    if es == [] then 0
    else
      var e := Last(es);
      Remaining(DropLast(es), done, n) + (if e.pkg == n && e.dep !in done then 1 else 0)
  }

  /** `indegree[n]` right after the graph is built. */
  function InDegree(es: seq<Edge>, n: string): nat {
    Remaining(es, [], n)
  }

  lemma SuccessorsSnoc(es: seq<Edge>, e: Edge, d: string)
    ensures Successors(es + [e], d) == Successors(es, d) + (if e.dep == d then [e.pkg] else [])
  {
    assert DropLast(es + [e]) == es;
  }

  lemma RemainingSnoc(es: seq<Edge>, e: Edge, done: seq<string>, n: string)
    ensures Remaining(es + [e], done, n) == Remaining(es, done, n) + (if e.pkg == n && e.dep !in done then 1 else 0)
  {
    assert DropLast(es + [e]) == es;
  }

  /** Once `d` is done, the edges out of `d` no longer count. */
  lemma {:induction false} RemainingAfter(es: seq<Edge>, done: seq<string>, d: string, n: string)
    requires d !in done
    ensures Remaining(es, done + [d], n) == Remaining(es, done, n) - multiset(es)[Edge(d, n)]
    decreases |es|
  {
    if es != [] {
      DropLastSnoc(es);
      RemainingAfter(DropLast(es), done, d, n);
    }
  }

  /** No remaining edge into `n`: every dependency of `n` is done. */
  lemma {:induction false} RemainingZero(es: seq<Edge>, done: seq<string>, n: string)
    requires Remaining(es, done, n) == 0
    ensures forall e | e in es && e.pkg == n :: e.dep in done
    decreases |es|
  {
    if es != [] {
      DropLastSnoc(es);
      RemainingZero(DropLast(es), done, n);
    }
  }

  /** A remaining edge into `n` names a dependency that is not done. */
  lemma {:induction false} RemainingWitness(es: seq<Edge>, done: seq<string>, n: string) returns (d: string)
    requires Remaining(es, done, n) > 0
    ensures Edge(d, n) in es && d !in done
    decreases |es|
  {
    DropLastSnoc(es);
    var e := Last(es);
    if e.pkg == n && e.dep !in done {
      d := e.dep;
    } else {
      d := RemainingWitness(DropLast(es), done, n);
    }
  }

  // ------------------------------------------------------------ building

  /** A `defaultdict(list)` read. */
  function Lookup(m: map<string, seq<string>>, k: string): seq<string> {
    if k in m then m[k] else []
  }

  /** A `defaultdict(int)` read. */
  function Count(m: map<string, int>, k: string): int {
    if k in m then m[k] else 0
  }

  /** The two dictionaries describe the edges `es`. */
  ghost predicate Tracks(graph: map<string, seq<string>>, indegree: map<string, int>, es: seq<Edge>) {
    && (forall d :: Lookup(graph, d) == Successors(es, d))
    && (forall n :: Count(indegree, n) == InDegree(es, n))
  }

  /** `dependency_graph[dep].append(package)` records one more edge. */
  lemma AddEdgeGraph(graph: map<string, seq<string>>, es: seq<Edge>, e: Edge)
    requires forall d :: Lookup(graph, d) == Successors(es, d)
    ensures forall d :: Lookup(graph[e.dep := Lookup(graph, e.dep) + [e.pkg]], d) == Successors(es + [e], d)
  {
    forall d ensures Lookup(graph[e.dep := Lookup(graph, e.dep) + [e.pkg]], d) == Successors(es + [e], d) {
      SuccessorsSnoc(es, e, d);
    }
  }

  /** `indegree[package] += 1` counts it. */
  lemma AddEdgeInDegree(indegree: map<string, int>, es: seq<Edge>, e: Edge)
    requires forall n :: Count(indegree, n) == InDegree(es, n)
    ensures forall n :: Count(indegree[e.pkg := Count(indegree, e.pkg) + 1], n) == InDegree(es + [e], n)
  {
    forall n ensures Count(indegree[e.pkg := Count(indegree, e.pkg) + 1], n) == InDegree(es + [e], n) {
      RemainingSnoc(es, e, [], n);
      assert Count(indegree, n) == InDegree(es, n);
    }
  }

  lemma AddEdgeTracks(graph: map<string, seq<string>>, indegree: map<string, int>, es: seq<Edge>,
                      dep: string, pkg: string)
    requires Tracks(graph, indegree, es)
    ensures Tracks(graph[dep := Lookup(graph, dep) + [pkg]],
                   indegree[pkg := Count(indegree, pkg) + 1], es + [Edge(dep, pkg)])
  {
    AddEdgeGraph(graph, es, Edge(dep, pkg));
    AddEdgeInDegree(indegree, es, Edge(dep, pkg));
  }

  lemma PackageEdgesNext(packages: seq<string>, ds: seq<string>, j: nat, pkg: string)
    requires j < |ds|
    ensures PackageEdges(packages, ds[..j + 1], pkg) ==
            PackageEdges(packages, ds[..j], pkg) + (if ds[j] in packages then [Edge(ds[j], pkg)] else [])
  {
    assert DropLast(ds[..j + 1]) == ds[..j];
  }

  /** The inner loop of the graph building: the edges of one package. */
  method AddPackageEdges(packages: seq<string>, package: string, dependencies: seq<string>,
                         graph0: map<string, seq<string>>, indegree0: map<string, int>, ghost es: seq<Edge>)
    returns (graph: map<string, seq<string>>, indegree: map<string, int>)
    requires Tracks(graph0, indegree0, es)
    ensures Tracks(graph, indegree, es + PackageEdges(packages, dependencies, package))
  {
    graph, indegree := graph0, indegree0;
    ghost var added := es;
    assert PackageEdges(packages, dependencies[..0], package) == [];
    for j := 0 to |dependencies|
      invariant added == es + PackageEdges(packages, dependencies[..j], package)
      invariant Tracks(graph, indegree, added)
    {
      var dep := dependencies[j];
      PackageEdgesNext(packages, dependencies, j, package);
      if dep in packages {
        ConcatAssoc(es, PackageEdges(packages, dependencies[..j], package), [Edge(dep, package)]);
        AddEdgeTracks(graph, indegree, added, dep, package);
        graph := graph[dep := Lookup(graph, dep) + [package]];
        indegree := indegree[package := Count(indegree, package) + 1];
        added := added + [Edge(dep, package)];
      }
    }
    assert dependencies[..|dependencies|] == dependencies;
  }

  /** The first loop of `sort_packages_by_dependencies`: the adjacency lists
      and in-degrees of the counted edges. */
  method BuildGraph(packages: seq<string>, depends: DependsOutput)
    returns (graph: map<string, seq<string>>, indegree: map<string, int>)
    ensures Tracks(graph, indegree, Graph(packages, depends))
  {
    graph, indegree := map[], map[];
    for i := 0 to |packages|
      invariant Tracks(graph, indegree, EdgesOf(packages, depends, packages[..i]))
    {
      var package := packages[i];
      var dependencies := GetDependencies(depends(package));
      assert DropLast(packages[..i + 1]) == packages[..i];
      graph, indegree := AddPackageEdges(packages, package, dependencies, graph, indegree,
                                         EdgesOf(packages, depends, packages[..i]));
    }
    assert packages[..|packages|] == packages;
  }

  // ------------------------------------------------------------ sorting

  /** The initial queue: packages with in-degree 0, in list order. */
  function Sources(packages: seq<string>, es: seq<Edge>): (r: seq<string>)
    ensures forall p :: p in r <==> p in packages && InDegree(es, p) == 0
    ensures NoDup(packages) ==> NoDup(r)
    decreases |packages|
  {
    if packages == [] then []
    else
      var p := Last(packages);
      assert NoDup(packages) ==> p !in DropLast(packages);
      Sources(DropLast(packages), es) + (if InDegree(es, p) == 0 then [p] else [])
  }

  /** The test `Sources` applies to each package. */
  function HasNoDependencies(es: seq<Edge>): string -> bool {
    p => InDegree(es, p) == 0
  }

  /** The initial queue is the list filtered by in-degree 0... */
  lemma {:induction false} SourcesIsFilter(packages: seq<string>, es: seq<Edge>)
    ensures Sources(packages, es) == Filter(packages, HasNoDependencies(es))
    decreases |packages|
  {
    if packages != [] {
      SourcesIsFilter(DropLast(packages), es);
    }
  }

  /** ... so two sources keep their relative order in the list. */
  lemma SourcesInListOrder(packages: seq<string>, es: seq<Edge>, x: string, y: string)
    requires x in Sources(packages, es) && y in Sources(packages, es)
    requires IndexOf(packages, x) < IndexOf(packages, y)
    ensures IndexOf(Sources(packages, es), x) < IndexOf(Sources(packages, es), y)
  {
    SourcesIsFilter(packages, es);
    FilterKeepsOrder(packages, HasNoDependencies(es), x, y);
  }

  /** Every counted dependency of an output package is output before it. */
  ghost predicate DepsFirst(es: seq<Edge>, out: seq<string>) {
    forall e | e in es && e.pkg in out :: e.dep in out && IndexOf(out, e.dep) < IndexOf(out, e.pkg)
  }

  /** The outcome of the sort on a duplicate-free list: each package at most
      once, dependencies first, and a package is output exactly when all of
      its counted dependencies are. */
  ghost predicate KahnOutcome(packages: seq<string>, es: seq<Edge>, out: seq<string>) {
    && NoDup(out)
    && DepsFirst(es, out)
    && (forall p | p in packages :: p in out <==> Remaining(es, out, p) == 0)
  }

  /** The state of the `while queue` loop on a duplicate-free list: the
      in-degrees count the edges from packages not yet output, and the output
      and queue together hold, once each, the packages whose count is 0. */
  ghost predicate KahnState(packages: seq<string>, es: seq<Edge>, indegree: map<string, int>,
                            sorted: seq<string>, queue: seq<string>) {
    && (forall n :: Count(indegree, n) == Remaining(es, sorted, n))
    && NoDup(sorted + queue)
    && (forall q | q in sorted + queue :: Count(indegree, q) == 0)
    && (forall p | p in packages && Count(indegree, p) == 0 :: p in sorted + queue)
  }

  /** The state while the dependents of `pkg` are being released: the
      dependents in `released` have been decremented once per occurrence. */
  ghost predicate Releasing(packages: seq<string>, es: seq<Edge>, done: seq<string>, pkg: string,
                            released: seq<string>, indegree: map<string, int>, queue: seq<string>) {
    && (forall n :: Count(indegree, n) == Remaining(es, done, n) - multiset(released)[n])
    && NoDup(done + [pkg] + queue)
    && (forall q | q in done + [pkg] + queue :: Count(indegree, q) == 0)
    && (forall p | p in packages && Count(indegree, p) == 0 :: p in done + [pkg] + queue)
  }

  function Positive(packages: seq<string>, indegree: map<string, int>): set<string> {
    set n | n in packages && Count(indegree, n) > 0
  }

  lemma PositiveUpdate(packages: seq<string>, indegree: map<string, int>, n: string, v: int)
    ensures Positive(packages, indegree[n := v]) ==
            if v > 0 && n in packages then Positive(packages, indegree) + {n}
            else Positive(packages, indegree) - {n}
  {
  }

  /** One decrement never raises `|queue| + |Positive|`: a count reaching 0
      leaves the positive set as its package joins the queue. */
  lemma ReleaseMeasure(packages: seq<string>, indegree: map<string, int>, queue: seq<string>, n: string)
    requires n in packages
    ensures var indegree' := indegree[n := Count(indegree, n) - 1];
            var queue' := if Count(indegree', n) == 0 then queue + [n] else queue;
            |queue'| + |Positive(packages, indegree')| <= |queue| + |Positive(packages, indegree)|
  {
    PositiveUpdate(packages, indegree, n, Count(indegree, n) - 1);
    var p := Positive(packages, indegree);
    if Count(indegree, n) - 1 > 0 {
      assert p + {n} == p;
    } else if Count(indegree, n) == 1 {
      assert |p - {n}| == |p| - 1;
    } else {
      assert p - {n} == p;
    }
  }

  lemma InitialState(packages: seq<string>, es: seq<Edge>, indegree: map<string, int>)
    requires NoDup(packages)
    requires forall n :: Count(indegree, n) == InDegree(es, n)
    ensures KahnState(packages, es, indegree, [], Sources(packages, es))
  {
    assert [] + Sources(packages, es) == Sources(packages, es);
  }

  /** Popping the head of the queue: it is not yet output and all of its
      dependencies are. */
  lemma StartRelease(packages: seq<string>, es: seq<Edge>, indegree: map<string, int>,
                     done: seq<string>, queue: seq<string>)
    requires queue != [] && KahnState(packages, es, indegree, done, queue)
    ensures queue[0] !in done && Remaining(es, done, queue[0]) == 0
    ensures Releasing(packages, es, done, queue[0], [], indegree, queue[1..])
  {
    assert done + [queue[0]] + queue[1..] == done + queue;
    assert (done + queue)[|done|] == queue[0];
    assert forall i | 0 <= i < |done| :: (done + queue)[i] == done[i];
    assert queue[0] in done + queue;
  }

  /** Decrementing one more dependent `n` of `pkg`: its count was positive,
      and it joins the queue when the count reaches 0. */
  lemma ReleaseStep(packages: seq<string>, es: seq<Edge>, done: seq<string>, pkg: string,
                    released: seq<string>, n: string, indegree: map<string, int>, queue: seq<string>)
    requires pkg !in done && n in packages
    requires multiset(released + [n])[n] <= multiset(es)[Edge(pkg, n)]
    requires Releasing(packages, es, done, pkg, released, indegree, queue)
    ensures Count(indegree, n) >= 1
    ensures var indegree' := indegree[n := Count(indegree, n) - 1];
            Releasing(packages, es, done, pkg, released + [n], indegree',
                      if Count(indegree', n) == 0 then queue + [n] else queue)
  {
    RemainingAfter(es, done, pkg, n);
    assert multiset(released + [n])[n] == multiset(released)[n] + 1;
    assert Count(indegree, n) >= 1;
    var indegree' := indegree[n := Count(indegree, n) - 1];
    var queue' := if Count(indegree', n) == 0 then queue + [n] else queue;
    var all := done + [pkg] + queue;
    forall m ensures Count(indegree', m) == Remaining(es, done, m) - multiset(released + [n])[m] {
      if m != n {
        assert multiset(released + [n])[m] == multiset(released)[m];
      }
    }
    assert n !in all;
    if Count(indegree', n) == 0 {
      assert done + [pkg] + queue' == all + [n];
    }
  }

  /** All dependents released: the counts are those of `done + [pkg]`. */
  lemma FinishRelease(packages: seq<string>, es: seq<Edge>, done: seq<string>, pkg: string,
                      indegree: map<string, int>, queue: seq<string>)
    requires pkg !in done
    requires Releasing(packages, es, done, pkg, Successors(es, pkg), indegree, queue)
    ensures KahnState(packages, es, indegree, done + [pkg], queue)
  {
    forall n ensures Count(indegree, n) == Remaining(es, done + [pkg], n) {
      RemainingAfter(es, done, pkg, n);
    }
  }

  lemma DepsFirstSnoc(es: seq<Edge>, out: seq<string>, pkg: string)
    requires DepsFirst(es, out) && pkg !in out
    requires forall e | e in es && e.pkg == pkg :: e.dep in out
    ensures DepsFirst(es, out + [pkg])
  {
    IndexOfSnocNew(out, pkg);
    forall w | w in out ensures IndexOf(out + [pkg], w) == IndexOf(out, w) {
      IndexOfSnocIn(out, pkg, w);
    }
  }

  lemma FinalState(packages: seq<string>, es: seq<Edge>, indegree: map<string, int>, sorted: seq<string>)
    requires KahnState(packages, es, indegree, sorted, []) && DepsFirst(es, sorted)
    requires forall p | p in sorted :: p in packages
    ensures KahnOutcome(packages, es, sorted)
  {
    assert sorted + [] == sorted;
  }

  /** Releasing the dependent at index `j` of the successor list. */
  lemma ReleaseNext(packages: seq<string>, neighbors: seq<string>, j: nat, es: seq<Edge>, done: seq<string>,
                    pkg: string, indegree: map<string, int>, queue: seq<string>)
    requires j < |neighbors| && neighbors[j] in packages
    requires pkg !in done && neighbors == Successors(es, pkg)
    requires Releasing(packages, es, done, pkg, neighbors[..j], indegree, queue)
    ensures var n := neighbors[j];
            var indegree' := indegree[n := Count(indegree, n) - 1];
            Releasing(packages, es, done, pkg, neighbors[..j + 1], indegree',
                      if indegree'[n] == 0 then queue + [n] else queue)
  {
    var n := neighbors[j];
    assert neighbors[..j + 1] == neighbors[..j] + [n];
    PrefixMultiset(neighbors, j + 1);
    assert multiset(neighbors)[n] == multiset(es)[Edge(pkg, n)];
    ReleaseStep(packages, es, done, pkg, neighbors[..j], n, indegree, queue);
  }

  /** The inner `for neighbor in dependency_graph[pkg]` loop. */
  method ReleaseDependents(packages: seq<string>, neighbors: seq<string>,
                           indegree0: map<string, int>, queue0: seq<string>,
                           ghost es: seq<Edge>, ghost done: seq<string>, ghost pkg: string, ghost unique: bool)
    returns (indegree: map<string, int>, queue: seq<string>)
    requires forall n | n in neighbors :: n in packages
    requires unique ==> pkg !in done && neighbors == Successors(es, pkg)
    requires unique ==> Releasing(packages, es, done, pkg, [], indegree0, queue0)
    ensures |queue0| <= |queue| && queue[..|queue0|] == queue0
    ensures forall p | p in queue :: p in queue0 || p in packages
    ensures |queue| + |Positive(packages, indegree)| <= |queue0| + |Positive(packages, indegree0)|
    ensures unique ==> Releasing(packages, es, done, pkg, neighbors, indegree, queue)
  {
    indegree, queue := indegree0, queue0;
    assert neighbors[..0] == [];
    for j := 0 to |neighbors|
      invariant |queue0| <= |queue| && queue[..|queue0|] == queue0
      invariant forall p | p in queue :: p in queue0 || p in packages
      invariant |queue| + |Positive(packages, indegree)| <= |queue0| + |Positive(packages, indegree0)|
      invariant unique ==> Releasing(packages, es, done, pkg, neighbors[..j], indegree, queue)
    {
      var neighbor := neighbors[j];
      ReleaseMeasure(packages, indegree, queue, neighbor);
      if unique {
        ReleaseNext(packages, neighbors, j, es, done, pkg, indegree, queue);
      }
      indegree := indegree[neighbor := Count(indegree, neighbor) - 1];
      if indegree[neighbor] == 0 {
        PrefixSnoc(queue0, queue, neighbor);
        queue := queue + [neighbor];
      }
    }
    assert neighbors[..|neighbors|] == neighbors;
  }

  lemma SourcesNext(packages: seq<string>, i: nat, es: seq<Edge>)
    requires i < |packages|
    ensures Sources(packages[..i + 1], es) ==
            Sources(packages[..i], es) + (if InDegree(es, packages[i]) == 0 then [packages[i]] else [])
  {
    assert DropLast(packages[..i + 1]) == packages[..i];
  }

  /** `deque([pkg for pkg in packages if indegree[pkg] == 0])` */
  method ZeroInDegree(packages: seq<string>, indegree: map<string, int>, ghost es: seq<Edge>)
    returns (queue: seq<string>)
    requires forall n :: Count(indegree, n) == InDegree(es, n)
    ensures queue == Sources(packages, es)
  {
    queue := [];
    for i := 0 to |packages|
      invariant queue == Sources(packages[..i], es)
    {
      SourcesNext(packages, i, es);
      assert Count(indegree, packages[i]) == InDegree(es, packages[i]);
      if Count(indegree, packages[i]) == 0 {
        queue := queue + [packages[i]];
      }
    }
    assert packages[..|packages|] == packages;
  }

  /** One iteration of `while queue`: output the head of the queue and
      release its dependents. */
  method ProcessHead(packages: seq<string>, graph: map<string, seq<string>>,
                     indegree0: map<string, int>, sorted0: seq<string>, queue0: seq<string>,
                     ghost es: seq<Edge>, ghost sources: seq<string>, ghost unique: bool)
    returns (indegree: map<string, int>, sorted: seq<string>, queue: seq<string>)
    requires queue0 != []
    requires forall d :: Lookup(graph, d) == Successors(es, d)
    requires forall e | e in es :: e.pkg in packages
    requires forall p | p in sorted0 + queue0 :: p in packages
    requires |sources| <= |sorted0 + queue0| && (sorted0 + queue0)[..|sources|] == sources
    requires unique ==> KahnState(packages, es, indegree0, sorted0, queue0) && DepsFirst(es, sorted0)
    ensures forall p | p in sorted + queue :: p in packages
    ensures |sources| <= |sorted + queue| && (sorted + queue)[..|sources|] == sources
    ensures unique ==> KahnState(packages, es, indegree, sorted, queue) && DepsFirst(es, sorted)
    ensures |queue| + |Positive(packages, indegree)| < |queue0| + |Positive(packages, indegree0)|
  {
    var pkg := queue0[0];
    assert sorted0 + queue0 == (sorted0 + [pkg]) + queue0[1..];
    if unique {
      StartRelease(packages, es, indegree0, sorted0, queue0);
      RemainingZero(es, sorted0, pkg);
      DepsFirstSnoc(es, sorted0, pkg);
    }
    sorted := sorted0 + [pkg];
    var neighbors := Lookup(graph, pkg);
    assert neighbors == Successors(es, pkg);
    indegree, queue := ReleaseDependents(packages, neighbors, indegree0, queue0[1..], es, sorted0, pkg, unique);
    PrefixExtend(sorted, queue0[1..], queue, sources);
    if unique {
      FinishRelease(packages, es, sorted0, pkg, indegree, queue);
    }
  }

  /** `sort_packages_by_dependencies`: Kahn's algorithm with a FIFO queue.
      Every output package is from the list, and the output starts with the
      packages of in-degree 0 in list order; on a duplicate-free list the
      output satisfies `KahnOutcome`. */
  method SortByDependencies(packages: seq<string>, depends: DependsOutput) returns (sorted: seq<string>)
    ensures forall p | p in sorted :: p in packages
    ensures var sources := Sources(packages, Graph(packages, depends));
            |sources| <= |sorted| && sorted[..|sources|] == sources
    ensures NoDup(packages) ==> KahnOutcome(packages, Graph(packages, depends), sorted)
  {
    ghost var es := Graph(packages, depends);
    var graph, indegree := BuildGraph(packages, depends);
    var queue := ZeroInDegree(packages, indegree, es);
    ghost var sources := queue;
    ghost var unique := NoDup(packages);
    if unique {
      InitialState(packages, es, indegree);
    }
    sorted := [];
    assert sorted + queue == sources;
    while queue != []
      invariant forall p | p in sorted + queue :: p in packages
      invariant |sources| <= |sorted + queue| && (sorted + queue)[..|sources|] == sources
      invariant unique ==> KahnState(packages, es, indegree, sorted, queue) && DepsFirst(es, sorted)
      decreases |queue| + |Positive(packages, indegree)|
    {
      indegree, sorted, queue := ProcessHead(packages, graph, indegree, sorted, queue, es, sources, unique);
    }
    if unique {
      FinalState(packages, es, indegree, sorted);
    }
    assert sorted + queue == sorted;
  }

  // ------------------------------------------------------------ cycles

  /** `w[i]` depends on `w[i + 1]` through a counted edge. */
  ghost predicate IsWalk(es: seq<Edge>, w: seq<string>) {
    forall i | 0 <= i < |w| - 1 :: Edge(w[i + 1], w[i]) in es
  }

  /** A walk whose last package depends on its first: a dependency cycle
      (a package listing itself is one of length 1). */
  ghost predicate IsClosedWalk(es: seq<Edge>, c: seq<string>) {
    |c| > 0 && IsWalk(es, c) && Edge(c[0], Last(c)) in es
  }

  ghost predicate Acyclic(es: seq<Edge>) {
    forall c :: !IsClosedWalk(es, c)
  }

  lemma SubWalk(es: seq<Edge>, w: seq<string>, i: nat, j: nat)
    requires IsWalk(es, w) && i <= j <= |w|
    ensures IsWalk(es, w[i..j])
  {
    forall k | 0 <= k < j - i - 1 ensures Edge(w[i..j][k + 1], w[i..j][k]) in es {
      assert w[i..j][k + 1] == w[i + k + 1] && w[i..j][k] == w[i + k];
    }
  }

  /** Following a walk from an output package stays in the output, at
      strictly decreasing positions. */
  lemma {:induction false} WalkOutput(es: seq<Edge>, out: seq<string>, w: seq<string>, k: nat)
    requires DepsFirst(es, out) && IsWalk(es, w) && k < |w| && w[0] in out
    ensures w[k] in out && IndexOf(out, w[k]) + k <= IndexOf(out, w[0])
  {
    if k > 0 {
      WalkOutput(es, out, w, k - 1);
      assert Edge(w[k], w[k - 1]) in es;
    }
  }

  /** No package on a dependency cycle is output. */
  lemma CycleExcluded(es: seq<Edge>, out: seq<string>, c: seq<string>)
    requires DepsFirst(es, out) && IsClosedWalk(es, c)
    ensures forall k | 0 <= k < |c| :: c[k] !in out
  {
    forall k | 0 <= k < |c| ensures c[k] !in out {
      if c[k] in out {
        var last := |c| - 1;
        SubWalk(es, c, k, |c|);
        WalkOutput(es, out, c[k..], last - k);
        assert c[k..][last - k] == Last(c);
        WalkOutput(es, out, c, last);
        assert false;
      }
    }
  }

  /** Nor is any package that depends, directly or through other packages,
      on a package of a cycle. */
  lemma DependsOnCycleExcluded(es: seq<Edge>, out: seq<string>, w: seq<string>, c: seq<string>)
    requires DepsFirst(es, out) && IsWalk(es, w) && |w| > 0
    requires IsClosedWalk(es, c) && Last(w) in c
    ensures w[0] !in out
  {
    CycleExcluded(es, out, c);
    if w[0] in out {
      WalkOutput(es, out, w, |w| - 1);
    }
  }

  /** From a package that is not output, a walk of any length through
      packages that are not output. */
  lemma {:induction false} StuckWalk(packages: seq<string>, es: seq<Edge>, out: seq<string>, p: string, len: nat)
    returns (w: seq<string>)
    requires KahnOutcome(packages, es, out)
    requires forall e | e in es :: e.dep in packages
    requires p in packages && p !in out && len > 0
    ensures |w| == len && w[0] == p && IsWalk(es, w)
    ensures forall i | 0 <= i < |w| :: w[i] in packages && w[i] !in out
    decreases len
  {
    if len == 1 {
      w := [p];
    } else {
      var prefix := StuckWalk(packages, es, out, p, len - 1);
      var d := RemainingWitness(es, out, Last(prefix));
      w := prefix + [d];
      assert forall i | 0 <= i < |prefix| :: w[i] == prefix[i];
    }
  }

  /** On a duplicate-free list without dependency cycles every package is
      output: the result is a permutation of the list. */
  lemma AcyclicComplete(packages: seq<string>, es: seq<Edge>, out: seq<string>)
    requires NoDup(packages) && KahnOutcome(packages, es, out)
    requires forall e | e in es :: e.dep in packages
    requires forall p | p in out :: p in packages
    requires Acyclic(es)
    ensures forall p | p in packages :: p in out
    ensures multiset(out) == multiset(packages)
  {
    forall p | p in packages ensures p in out {
      if p !in out {
        var c := StuckCycle(packages, es, out, p);
      }
    }
    SameElementsPermutation(out, packages);
  }

  /** A package that is not output depends, through packages that are not
      output, on a cycle: walking long enough repeats a package. */
  lemma StuckCycle(packages: seq<string>, es: seq<Edge>, out: seq<string>, p: string) returns (c: seq<string>)
    requires KahnOutcome(packages, es, out)
    requires forall e | e in es :: e.dep in packages
    requires p in packages && p !in out
    ensures IsClosedWalk(es, c)
  {
    var universe := set x | x in packages;
    var w := StuckWalk(packages, es, out, p, |universe| + 1);
    Pigeonhole(w, universe);
    var i, j :| 0 <= i < j < |w| && w[i] == w[j];
    SubWalk(es, w, i, j);
    assert Edge(w[j], w[j - 1]) in es;
    c := w[i..j];
  }

  /** A package that lists itself among its dependencies is never output. */
  lemma SelfDependencyExcluded(packages: seq<string>, depends: DependsOutput, out: seq<string>, p: string)
    requires DepsFirst(Graph(packages, depends), out)
    requires p in packages && p in Deps(depends(p))
    ensures p !in out
  {
    GraphEdges(packages, depends, p, p);
    assert IsClosedWalk(Graph(packages, depends), [p]);
    CycleExcluded(Graph(packages, depends), out, [p]);
  }

  /** The sort of a duplicate-free list whose dependencies inside the list
      form no cycle outputs every package exactly once. */
  lemma SortedIsPermutation(packages: seq<string>, depends: DependsOutput, sorted: seq<string>)
    requires NoDup(packages) && KahnOutcome(packages, Graph(packages, depends), sorted)
    requires forall p | p in sorted :: p in packages
    requires Acyclic(Graph(packages, depends))
    ensures multiset(sorted) == multiset(packages)
  {
    AcyclicComplete(packages, Graph(packages, depends), sorted);
  }
}
