/** Which packages to test: scripts/dependency-graph-utils.ts builds the graph of the monorepo's own
    packages and scripts/check_if_test_should_run_v2.ts follows it. */
module DependencyGraph {
  import opened Options

  datatype Node = Node(location: string, dependencies: seq<string>)
  type Graph = map<string, Node>

  ghost predicate Edge(g: Graph, a: string, b: string) {
    a in g && b in g[a].dependencies
  }

  ghost predicate IsPath(g: Graph, path: seq<string>, a: string, b: string) {
    && |path| > 0 && path[0] == a && path[|path| - 1] == b
    && forall i :: 0 <= i < |path| - 1 ==> Edge(g, path[i], path[i + 1])
  }

  ghost predicate Reaches(g: Graph, a: string, b: string) {
    exists path :: IsPath(g, path, a, b)
  }

  ghost predicate Acyclic(g: Graph) {
    forall path, a :: IsPath(g, path, a, a) ==> |path| == 1
  }

  // No cycle can be reached from here.
  ghost predicate LoopFree(g: Graph, a: string) {
    forall path, b :: Reaches(g, a, b) && IsPath(g, path, b, b) ==> |path| == 1
  }

  ghost predicate Closed(g: Graph) {
    forall a, b :: Edge(g, a, b) ==> b in g
  }

  // ---------- the recursion and its rank ----------

  // The edges that are followed: those of unchanged packages.
  function Followed(g: Graph, changed: set<string>): Graph {
    map a | a in g :: if a in changed then Node(g[a].location, []) else g[a]
  }

  lemma FollowedEdge(g: Graph, changed: set<string>, a: string, b: string)
    ensures Edge(Followed(g, changed), a, b) <==> a !in changed && Edge(g, a, b)
  {
  }

  // The rank of a package: how many graph nodes it reaches.
  ghost function Reach(g: Graph, a: string): set<string> {
    set b | b in g && Reaches(g, a, b)
  }

  lemma PathCons(g: Graph, a: string, b: string, c: string, path: seq<string>)
    requires Edge(g, a, b) && IsPath(g, path, b, c)
    ensures IsPath(g, [a] + path, a, c)
  {
  }

  lemma ReachesCons(g: Graph, a: string, b: string, c: string)
    requires Edge(g, a, b) && Reaches(g, b, c)
    ensures Reaches(g, a, c)
  {
    var path :| IsPath(g, path, b, c);
    PathCons(g, a, b, c, path);
  }

  // Along every edge without a cycle ahead the rank goes down, so the recursion ends.
  lemma RankDecreases(g: Graph, a: string, b: string)
    requires LoopFree(g, a) && Edge(g, a, b)
    ensures LoopFree(g, b) && Reach(g, b) < Reach(g, a)
    ensures |Reach(g, b)| < |Reach(g, a)|
  {
    assert IsPath(g, [a], a, a);
    forall c | Reaches(g, b, c)
      ensures Reaches(g, a, c) && c != a
    {
      ReachesCons(g, a, b, c);
      var path :| IsPath(g, path, b, c);
      PathCons(g, a, b, c, path);
    }
    assert a in Reach(g, a) && a !in Reach(g, b);
    SmallerSet(Reach(g, b), Reach(g, a));
  }

  lemma SmallerSet(s: set<string>, t: set<string>)
    requires s < t
    ensures |s| < |t|
  {
    assert t == s + (t - s);
    assert t - s != {};
  }

  // The same for the edges of an unchanged package.
  lemma FollowedRank(g: Graph, changed: set<string>, a: string, b: string)
    requires LoopFree(Followed(g, changed), a) && a !in changed && Edge(g, a, b)
    ensures LoopFree(Followed(g, changed), b)
    ensures |Reach(Followed(g, changed), b)| < |Reach(Followed(g, changed), a)|
  {
    FollowedEdge(g, changed, a, b);
    RankDecreases(Followed(g, changed), a, b);
  }

  // None is the thrown TypeError: looking up a package that is not in the graph. `map` visits every
  // dependency before `some` looks at the answers, so an error is never hidden by an earlier true.
  function HasChangedDependencies(g: Graph, changed: set<string>, packageName: string): Option<bool>
    requires LoopFree(Followed(g, changed), packageName)
    decreases |Reach(Followed(g, changed), packageName)|, 1, 0
  {
    if packageName in changed then Some(true)
    else if packageName !in g then None
    else SomeChanged(g, changed, packageName, g[packageName].dependencies)
  }

  function SomeChanged(g: Graph, changed: set<string>, packageName: string, dependencies: seq<string>): Option<bool>
    requires LoopFree(Followed(g, changed), packageName) && packageName !in changed
    requires forall d :: d in dependencies ==> Edge(g, packageName, d)
    decreases |Reach(Followed(g, changed), packageName)|, 0, |dependencies|
  {
    if dependencies == [] then Some(false)
    else
      assert dependencies[0] in dependencies;
      FollowedRank(g, changed, packageName, dependencies[0]);
      var first := HasChangedDependencies(g, changed, dependencies[0]);
      var rest := SomeChanged(g, changed, packageName, dependencies[1..]);
      if first.None? || rest.None? then None else Some(first.value || rest.value)
  }

  // The fold over the dependencies, as a whole.
  lemma {:induction false} SomeChangedIs(g: Graph, changed: set<string>, a: string, dependencies: seq<string>)
    requires LoopFree(Followed(g, changed), a) && a !in changed && forall d :: d in dependencies ==> Edge(g, a, d)
    ensures forall d :: d in dependencies ==> LoopFree(Followed(g, changed), d)
    ensures var r := SomeChanged(g, changed, a, dependencies);
      && (r.None? <==> exists d :: d in dependencies && HasChangedDependencies(g, changed, d).None?)
      && (r.Some? ==>
        (r.value <==> exists d :: d in dependencies && HasChangedDependencies(g, changed, d) == Some(true)))
  {
    if dependencies == [] {
    } else {
      hide HasChangedDependencies, LoopFree, Followed, Edge;
      var first, rest := dependencies[0], dependencies[1..];
      forall d
        ensures d in dependencies <==> d == first || d in rest
      {
        assert dependencies == [first] + rest;
      }
      SomeChangedIs(g, changed, a, rest);
      FollowedRank(g, changed, a, first);
      assert first in dependencies;
      if d :| d in rest && HasChangedDependencies(g, changed, d).None? {
        assert d in dependencies;
      }
      if d :| d in rest && HasChangedDependencies(g, changed, d) == Some(true) {
        assert d in dependencies;
      }
    }
  }

  // A path of unchanged packages to one that is missing from the graph.
  ghost predicate LosesTrack(g: Graph, changed: set<string>, a: string) {
    exists path, b :: IsPath(g, path, a, b) && b !in g && forall c :: c in path ==> c !in changed
  }

  ghost predicate ReachesChanged(g: Graph, changed: set<string>, a: string) {
    exists b :: b in changed && Reaches(g, a, b)
  }

  lemma ReachesChangedStep(g: Graph, changed: set<string>, a: string)
    requires a !in changed
    ensures ReachesChanged(g, changed, a) <==> exists d :: Edge(g, a, d) && ReachesChanged(g, changed, d)
  {
    if ReachesChanged(g, changed, a) {
      var b :| b in changed && Reaches(g, a, b);
      var path :| IsPath(g, path, a, b);
      assert IsPath(g, path[1..], path[1], b);
      assert Edge(g, path[0], path[1]);
      assert ReachesChanged(g, changed, path[1]);
    }
    if d :| Edge(g, a, d) && ReachesChanged(g, changed, d) {
      var b :| b in changed && Reaches(g, d, b);
      var path :| IsPath(g, path, d, b);
      PathCons(g, a, d, b, path);
      assert Reaches(g, a, b);
    }
  }

  lemma LosesTrackStep(g: Graph, changed: set<string>, a: string)
    requires a !in changed && a in g
    ensures LosesTrack(g, changed, a) <==> exists d :: Edge(g, a, d) && LosesTrack(g, changed, d)
  {
    if LosesTrack(g, changed, a) {
      var path, b :| IsPath(g, path, a, b) && b !in g && forall c :: c in path ==> c !in changed;
      assert IsPath(g, path[1..], path[1], b);
      assert Edge(g, path[0], path[1]);
      assert LosesTrack(g, changed, path[1]);
    }
    if d :| Edge(g, a, d) && LosesTrack(g, changed, d) {
      var path, b :| IsPath(g, path, d, b) && b !in g && forall c :: c in path ==> c !in changed;
      PathCons(g, a, d, b, path);
      assert forall c :: c in [a] + path ==> c == a || c in path;
    }
  }

  lemma Trivial(g: Graph, a: string)
    ensures IsPath(g, [a], a, a)
    ensures a !in g ==> forall path, b :: IsPath(g, path, a, b) ==> path == [a]
  {
    if a !in g {
      forall path, b | IsPath(g, path, a, b)
        ensures path == [a]
      {
        assert |path| > 1 ==> Edge(g, path[0], path[0 + 1]);
      }
    }
  }

  // Wherever the recursion ends: an error exactly when unchanged packages lead out of the graph, and
  // otherwise true exactly when a changed package is reachable.
  lemma {:induction false} HasChangedIsReachability(g: Graph, changed: set<string>, a: string)
    requires LoopFree(Followed(g, changed), a)
    ensures var r := HasChangedDependencies(g, changed, a);
      && (r.None? <==> LosesTrack(g, changed, a))
      && (r.Some? ==> (r.value <==> ReachesChanged(g, changed, a)))
    decreases |Reach(Followed(g, changed), a)|
  {
    Trivial(g, a);
    if a in changed {
      assert Reaches(g, a, a);
    } else if a in g {
      var dependencies := g[a].dependencies;
      forall d | d in dependencies
        ensures LoopFree(Followed(g, changed), d)
        ensures var r := HasChangedDependencies(g, changed, d);
          && (r.None? <==> LosesTrack(g, changed, d))
          && (r.Some? ==> (r.value <==> ReachesChanged(g, changed, d)))
      {
        FollowedRank(g, changed, a, d);
        HasChangedIsReachability(g, changed, d);
      }
      SomeChangedIs(g, changed, a, dependencies);
      ReachesChangedStep(g, changed, a);
      LosesTrackStep(g, changed, a);
    }
  }

  lemma ClosedKeepsTrack(g: Graph, changed: set<string>, a: string)
    requires Closed(g) && a in g
    ensures !LosesTrack(g, changed, a)
  {
    forall path, b | IsPath(g, path, a, b)
      ensures b in g
    {
      assert |path| > 1 ==> Edge(g, path[|path| - 2], path[|path| - 2 + 1]);
    }
  }

  // On a closed graph there is no error, and the answer is reachability.
  lemma ClosedGraphAnswer(g: Graph, changed: set<string>, a: string)
    requires LoopFree(Followed(g, changed), a) && Closed(g) && a in g
    ensures HasChangedDependencies(g, changed, a) == Some(ReachesChanged(g, changed, a))
  {
    HasChangedIsReachability(g, changed, a);
    ClosedKeepsTrack(g, changed, a);
  }

  // An acyclic graph ends the recursion everywhere, whatever has changed.
  lemma AcyclicIsLoopFree(g: Graph, changed: set<string>, a: string)
    requires Acyclic(g)
    ensures LoopFree(Followed(g, changed), a)
  {
    var followed := Followed(g, changed);
    forall path, b | IsPath(followed, path, b, b)
      ensures |path| == 1
    {
      forall i | 0 <= i < |path| - 1
        ensures Edge(g, path[i], path[i + 1])
      {
        FollowedEdge(g, changed, path[i], path[i + 1]);
      }
      assert IsPath(g, path, b, b);
    }
  }

  // ---------- building the graph ----------

  datatype Package = Package(name: string, location: string)

  function Filter(names: seq<string>, keep: string -> bool): (r: seq<string>)
    ensures forall x :: x in r <==> x in names && keep(x)
  {
    if names == [] then []
    else
      var rest := Filter(names[1..], keep);
      assert names == [names[0]] + names[1..];
      if keep(names[0]) then [names[0]] + rest else rest
  }

  function OwnDependencies(lernaGraph: map<string, seq<string>>, name: string): seq<string>
    requires name in lernaGraph
  {
    Filter(Filter(lernaGraph[name], x => "@celo" <= x), x => x in lernaGraph)
  }

  // None is the thrown TypeError: a listed package that lernaGraph does not have.
  function ParseLernaOutput(
    lernaGraph: map<string, seq<string>>, packages: seq<Package>, relative: string -> string)
    : Option<Graph>
  {
    if packages == [] then Some(map[])
    else
      var accum, p := ParseLernaOutput(lernaGraph, packages[..|packages| - 1], relative), packages[|packages| - 1];
      if accum.None? || p.name !in lernaGraph then None
      else Some(accum.value[p.name := Node(relative(p.location), OwnDependencies(lernaGraph, p.name))])
  }

  ghost predicate Listed(packages: seq<Package>, name: string) {
    exists i :: 0 <= i < |packages| && packages[i].name == name
  }

  lemma ListedLast(packages: seq<Package>, name: string)
    requires packages != []
    ensures var n := |packages| - 1;
      Listed(packages, name) <==> Listed(packages[..n], name) || name == packages[n].name
  {
  }

  lemma {:induction false} ParsedNodes(
    lernaGraph: map<string, seq<string>>, packages: seq<Package>, relative: string -> string)
    ensures var g := ParseLernaOutput(lernaGraph, packages, relative);
      && (g.Some? <==> forall name :: Listed(packages, name) ==> name in lernaGraph)
      && (g.Some? ==> forall name :: name in g.value <==> Listed(packages, name))
      && (g.Some? ==> forall name :: name in g.value ==>
        name in lernaGraph && g.value[name].dependencies == OwnDependencies(lernaGraph, name))
  {
    if packages == [] {
    } else {
      hide OwnDependencies, Listed;
      ParsedNodes(lernaGraph, packages[..|packages| - 1], relative);
      forall name
        ensures Listed(packages, name) <==>
          Listed(packages[..|packages| - 1], name) || name == packages[|packages| - 1].name
      {
        ListedLast(packages, name);
      }
    }
  }

  // The nodes are the listed packages, the edges the lerna edges to the repository's own @celo packages.
  lemma ParsedGraph(lernaGraph: map<string, seq<string>>, packages: seq<Package>, relative: string -> string)
    ensures var g := ParseLernaOutput(lernaGraph, packages, relative);
      && (g.Some? <==> forall name :: Listed(packages, name) ==> name in lernaGraph)
      && (g.Some? ==> forall name :: name in g.value <==> Listed(packages, name))
      && (g.Some? ==> forall a, b :: Edge(g.value, a, b) <==>
           Listed(packages, a) && b in lernaGraph[a] && "@celo" <= b && b in lernaGraph)
  {
    ParsedNodes(lernaGraph, packages, relative);
    hide ParseLernaOutput, Listed;
  }

  // Filtering goes through the names in order and keeps every occurrence.
  lemma {:induction false} FilterInOrder(names: seq<string>, x: string, keep: string -> bool)
    ensures Filter([], keep) == []
    ensures Filter(names + [x], keep) == Filter(names, keep) + if keep(x) then [x] else []
  {
    if names == [] {
      assert names + [x] == [x];
    } else {
      var rest := names[1..];
      FilterInOrder(rest, x, keep);
      assert (names + [x])[1..] == rest + [x] && (names + [x])[0] == names[0];
    }
  }

  ghost predicate LastListed(packages: seq<Package>, name: string, i: nat) {
    && i < |packages| && packages[i].name == name
    && forall k :: i < k < |packages| ==> packages[k].name != name
  }

  // A node is at the location of the last package listed under its name, relative to the repository.
  lemma {:induction false} ParsedLocations(
    lernaGraph: map<string, seq<string>>, packages: seq<Package>, relative: string -> string, name: string, i: nat)
    requires ParseLernaOutput(lernaGraph, packages, relative).Some? && LastListed(packages, name, i)
    ensures name in ParseLernaOutput(lernaGraph, packages, relative).value
    ensures ParseLernaOutput(lernaGraph, packages, relative).value[name].location == relative(packages[i].location)
  {
    hide OwnDependencies;
    var n := |packages| - 1;
    if i == n {
    } else {
      assert LastListed(packages[..n], name, i);
      ParsedLocations(lernaGraph, packages[..n], relative, name, i);
    }
  }

  // The graph is closed exactly when no listed package depends on an own package that is not listed.
  lemma ParsedGraphClosedIff(lernaGraph: map<string, seq<string>>, packages: seq<Package>, relative: string -> string)
    requires ParseLernaOutput(lernaGraph, packages, relative).Some?
    ensures Closed(ParseLernaOutput(lernaGraph, packages, relative).value) <==>
      forall a, b :: Listed(packages, a) && a in lernaGraph && b in lernaGraph[a] && "@celo" <= b && b in lernaGraph
        ==> Listed(packages, b)
  {
    ParsedGraph(lernaGraph, packages, relative);
    hide ParseLernaOutput, Listed, Edge;
  }

  // ---------- the decision ----------

  // packagesToTest.map(hasChangedDependencies).some(Boolean), None again being the thrown error.
  function AnyChanged(g: Graph, changed: set<string>, packagesToTest: seq<string>): Option<bool>
    requires forall a :: a in packagesToTest ==> LoopFree(Followed(g, changed), a)
  {
    if packagesToTest == [] then Some(false)
    else
      var last := |packagesToTest| - 1;
      var before := AnyChanged(g, changed, packagesToTest[..last]);
      var answer := HasChangedDependencies(g, changed, packagesToTest[last]);
      if before.None? || answer.None? then None else Some(before.value || answer.value)
  }

  lemma {:induction false} AnyChangedIs(g: Graph, changed: set<string>, packagesToTest: seq<string>)
    requires forall a :: a in packagesToTest ==> a in g && LoopFree(Followed(g, changed), a)
    requires Closed(g)
    ensures AnyChanged(g, changed, packagesToTest)
         == Some(exists a :: a in packagesToTest && ReachesChanged(g, changed, a))
  {
    hide LoopFree, Closed, ReachesChanged, HasChangedDependencies;
    if packagesToTest == [] {
    } else {
      var before, a := packagesToTest[..|packagesToTest| - 1], packagesToTest[|packagesToTest| - 1];
      AnyChangedIs(g, changed, before);
      ClosedGraphAnswer(g, changed, a);
      assert packagesToTest == before + [a];
    }
  }

  // From lerna's output to the decision: with all the packages lerna graphs listed, and no cycle to be reached
  // from the packages to test through unchanged ones, tests run if and only if one of the packages to test
  // reaches a changed one.
  lemma TestDecision(lernaGraph: map<string, seq<string>>, packages: seq<Package>, relative: string -> string,
                     changed: set<string>, packagesToTest: seq<string>)
    requires forall name :: name in lernaGraph <==> Listed(packages, name)
    requires var g := ParseLernaOutput(lernaGraph, packages, relative);
      g.Some? ==> forall a :: a in packagesToTest ==> LoopFree(Followed(g.value, changed), a)
    requires forall a :: a in packagesToTest ==> Listed(packages, a)
    ensures var g := ParseLernaOutput(lernaGraph, packages, relative);
      && g.Some? && Closed(g.value)
      && AnyChanged(g.value, changed, packagesToTest)
         == Some(exists a :: a in packagesToTest && ReachesChanged(g.value, changed, a))
  {
    hide LoopFree, Closed, ReachesChanged, Listed, ParseLernaOutput, AnyChanged;
    ParsedGraph(lernaGraph, packages, relative);
    ParsedGraphClosedIff(lernaGraph, packages, relative);
    AnyChangedIs(ParseLernaOutput(lernaGraph, packages, relative).value, changed, packagesToTest);
  }
}
