/** When the recursion of scripts/check_if_test_should_run_v2.ts ends: the same calls cut off at a depth, on any
    graph, with cycles and missing packages. */
module DependencyEnds {
  import opened Options
  import opened DependencyGraph

  datatype Outcome = Answer(value: bool) | Missing | Deeper

  // The calls down to a given depth, in order: the first one that does not answer decides.
  function Visit(g: Graph, changed: set<string>, a: string, depth: nat): Outcome
    decreases depth, 0, 0
  {
    if depth == 0 then Deeper
    else if a in changed then Answer(true)
    else if a !in g then Missing
    else VisitAll(g, changed, g[a].dependencies, depth - 1)
  }

  function VisitAll(g: Graph, changed: set<string>, dependencies: seq<string>, depth: nat): Outcome
    decreases depth, 1, |dependencies|
  {
    if dependencies == [] then Answer(false)
    else
      var first := Visit(g, changed, dependencies[0], depth);
      if !first.Answer? then first
      else
        var rest := VisitAll(g, changed, dependencies[1..], depth);
        if !rest.Answer? then rest else Answer(first.value || rest.value)
  }

  ghost predicate Ends(g: Graph, changed: set<string>, a: string) {
    exists depth :: Visit(g, changed, a, depth) != Deeper
  }

  function OutcomeOf(answer: Option<bool>): Outcome {
    if answer.None? then Missing else Answer(answer.value)
  }

  // Without a cycle ahead, a depth beyond the rank is enough for the full answer.
  lemma {:induction false} DeepEnough(g: Graph, changed: set<string>, a: string, depth: nat)
    requires LoopFree(Followed(g, changed), a) && depth > |Reach(Followed(g, changed), a)|
    ensures Visit(g, changed, a, depth) == OutcomeOf(HasChangedDependencies(g, changed, a))
    decreases depth, 0, 0
  {
    if a in changed || a !in g {
    } else {
      AllDeepEnough(g, changed, a, g[a].dependencies, depth - 1);
    }
  }

  lemma {:induction false} AllDeepEnough(
    g: Graph, changed: set<string>, a: string, dependencies: seq<string>, depth: nat)
    requires LoopFree(Followed(g, changed), a) && a !in changed && forall d :: d in dependencies ==> Edge(g, a, d)
    requires depth >= |Reach(Followed(g, changed), a)|
    ensures VisitAll(g, changed, dependencies, depth) == OutcomeOf(SomeChanged(g, changed, a, dependencies))
    decreases depth, 1, |dependencies|
  {
    if dependencies == [] {
    } else {
      assert dependencies[0] in dependencies;
      FollowedRank(g, changed, a, dependencies[0]);
      DeepEnough(g, changed, dependencies[0], depth);
      AllDeepEnough(g, changed, a, dependencies[1..], depth);
    }
  }

  // With every package it comes to in the graph, the recursion never meets a missing one.
  lemma {:induction false} NeverMissing(g: Graph, changed: set<string>, a: string, depth: nat)
    requires !LosesTrack(g, changed, a)
    ensures Visit(g, changed, a, depth) != Missing
    decreases depth
  {
    Trivial(g, a);
    if depth == 0 || a in changed {
    } else {
      LosesTrackStep(g, changed, a);
      forall d | d in g[a].dependencies
        ensures Visit(g, changed, d, depth - 1) != Missing
      {
        NeverMissing(g, changed, d, depth - 1);
      }
      VisitsAll(g, changed, g[a].dependencies, depth - 1);
    }
  }

  lemma {:induction false} VisitsAll(g: Graph, changed: set<string>, dependencies: seq<string>, depth: nat)
    requires forall d :: d in dependencies ==> Visit(g, changed, d, depth) != Missing
    ensures var all := VisitAll(g, changed, dependencies, depth);
      all != Missing && (all == Deeper <==> exists d :: d in dependencies && Visit(g, changed, d, depth) == Deeper)
  {
    hide Visit;
    if dependencies == [] {
    } else {
      var first, rest := dependencies[0], dependencies[1..];
      forall d
        ensures d in dependencies <==> d == first || d in rest
      {
        assert dependencies == [first] + rest;
      }
      VisitsAll(g, changed, rest, depth);
      assert first in dependencies;
      if d :| d in rest && Visit(g, changed, d, depth) == Deeper {
        assert d in dependencies;
      }
    }
  }

  // A cycle ahead stays ahead along some edge.
  lemma LoopAhead(g: Graph, a: string) returns (d: string)
    requires !LoopFree(g, a)
    ensures Edge(g, a, d) && !LoopFree(g, d)
  {
    var loop, b :| Reaches(g, a, b) && IsPath(g, loop, b, b) && |loop| != 1;
    var path :| IsPath(g, path, a, b);
    if |path| == 1 {
      d := loop[1];
      assert Edge(g, loop[0], loop[0 + 1]);
      assert IsPath(g, loop[1..], d, b);
    } else {
      d := path[1];
      assert Edge(g, path[0], path[0 + 1]);
      assert IsPath(g, path[1..], d, b);
    }
  }

  // A cycle of unchanged packages ahead is never left.
  lemma {:induction false} AlwaysDeeper(g: Graph, changed: set<string>, a: string, depth: nat)
    requires !LosesTrack(g, changed, a) && !LoopFree(Followed(g, changed), a)
    ensures Visit(g, changed, a, depth) == Deeper
    decreases depth
  {
    if depth == 0 {
    } else {
      var d := LoopAhead(Followed(g, changed), a);
      FollowedEdge(g, changed, a, d);
      LosesTrackStep(g, changed, a);
      AlwaysDeeper(g, changed, d, depth - 1);
      forall e | e in g[a].dependencies
        ensures Visit(g, changed, e, depth - 1) != Missing
      {
        NeverMissing(g, changed, e, depth - 1);
      }
      VisitsAll(g, changed, g[a].dependencies, depth - 1);
    }
  }

  // Without a missing package ahead, the recursion ends exactly when no cycle can be reached through
  // unchanged packages.
  lemma EndsWithoutMissingIff(g: Graph, changed: set<string>, a: string)
    requires !LosesTrack(g, changed, a)
    ensures Ends(g, changed, a) <==> LoopFree(Followed(g, changed), a)
  {
    if LoopFree(Followed(g, changed), a) {
      DeepEnough(g, changed, a, |Reach(Followed(g, changed), a)| + 1);
    } else {
      forall depth
        ensures Visit(g, changed, a, depth) == Deeper
      {
        AlwaysDeeper(g, changed, a, depth);
      }
    }
  }

  // ---------- the order of the dependencies ----------

  // The packages that get an answer: no cycle ahead, and no missing package.
  ghost predicate Answers(g: Graph, changed: set<string>, a: string) {
    LoopFree(Followed(g, changed), a) && !LosesTrack(g, changed, a)
  }

  // The dependencies up to the first one that gets no answer, which is where `map` stops.
  ghost function Tried(g: Graph, changed: set<string>, dependencies: seq<string>): (r: seq<string>)
    ensures r <= dependencies
  {
    if dependencies == [] then []
    else if !Answers(g, changed, dependencies[0]) then dependencies[..1]
    else
      var rest := Tried(g, changed, dependencies[1..]);
      assert dependencies == [dependencies[0]] + dependencies[1..];
      [dependencies[0]] + rest
  }

  // The edges that are visited in that order.
  ghost function Visited(g: Graph, changed: set<string>): Graph {
    map a | a in g :: Node(g[a].location, if a in changed then [] else Tried(g, changed, g[a].dependencies))
  }

  lemma VisitedEdge(g: Graph, changed: set<string>, a: string, d: string)
    requires a in g
    ensures Edge(Visited(g, changed), a, d) <==> a !in changed && d in Tried(g, changed, g[a].dependencies)
  {
  }

  lemma AnswersAre(g: Graph, changed: set<string>, a: string)
    requires a !in changed && a in g
    ensures Answers(g, changed, a) <==> forall d :: d in g[a].dependencies ==> Answers(g, changed, d)
  {
    var followed := Followed(g, changed);
    LosesTrackStep(g, changed, a);
    if Answers(g, changed, a) {
      forall d | d in g[a].dependencies
        ensures Answers(g, changed, d)
      {
        FollowedRank(g, changed, a, d);
      }
    } else if !LoopFree(followed, a) {
      var d := LoopAhead(followed, a);
      FollowedEdge(g, changed, a, d);
      assert !Answers(g, changed, d);
    } else {
      var d :| Edge(g, a, d) && LosesTrack(g, changed, d);
      assert !Answers(g, changed, d);
    }
  }

  // An answer at any depth is one of them.
  lemma {:induction false} AnswerMeans(g: Graph, changed: set<string>, a: string, depth: nat)
    requires Visit(g, changed, a, depth).Answer?
    ensures Answers(g, changed, a)
    decreases depth, 0, 0
  {
    if a in changed {
      ChangedAnswers(g, changed, a);
    } else {
      hide Answers;
      AllAnswerMeans(g, changed, g[a].dependencies, depth - 1);
      AnswersAre(g, changed, a);
    }
  }

  lemma {:induction false} AllAnswerMeans(g: Graph, changed: set<string>, dependencies: seq<string>, depth: nat)
    requires VisitAll(g, changed, dependencies, depth).Answer?
    ensures forall d :: d in dependencies ==> Answers(g, changed, d)
    decreases depth, 1, |dependencies|
  {
    hide Answers;
    if dependencies == [] {
    } else {
      AnswerMeans(g, changed, dependencies[0], depth);
      AllAnswerMeans(g, changed, dependencies[1..], depth);
      assert dependencies == [dependencies[0]] + dependencies[1..];
    }
  }

  lemma ChangedAnswers(g: Graph, changed: set<string>, a: string)
    requires a in changed
    ensures Answers(g, changed, a)
  {
    if !LoopFree(Followed(g, changed), a) {
      var d := LoopAhead(Followed(g, changed), a);
      FollowedEdge(g, changed, a, d);
    }
    forall path, b | IsPath(g, path, a, b)
      ensures exists c :: c in path && c in changed
    {
      assert path[0] in path;
    }
  }

  // And with an answer to be had, every depth beyond the rank finds it.
  lemma AnswerFound(g: Graph, changed: set<string>, a: string, depth: nat)
    requires Answers(g, changed, a) && depth > |Reach(Followed(g, changed), a)|
    ensures Visit(g, changed, a, depth).Answer?
  {
    DeepEnough(g, changed, a, depth);
    HasChangedIsReachability(g, changed, a);
  }

  // More depth never changes an outcome.
  lemma {:induction false} MoreDepth(g: Graph, changed: set<string>, a: string, depth: nat, more: nat)
    requires depth <= more && Visit(g, changed, a, depth) != Deeper
    ensures Visit(g, changed, a, more) == Visit(g, changed, a, depth)
    decreases depth, 0, 0
  {
    if a in changed || a !in g {
    } else {
      AllMoreDepth(g, changed, g[a].dependencies, depth - 1, more - 1);
    }
  }

  lemma {:induction false} AllMoreDepth(
    g: Graph, changed: set<string>, dependencies: seq<string>, depth: nat, more: nat)
    requires depth <= more && VisitAll(g, changed, dependencies, depth) != Deeper
    ensures VisitAll(g, changed, dependencies, more) == VisitAll(g, changed, dependencies, depth)
    decreases depth, 1, |dependencies|
  {
    if dependencies == [] {
    } else {
      MoreDepth(g, changed, dependencies[0], depth, more);
      if Visit(g, changed, dependencies[0], depth).Answer? {
        AllMoreDepth(g, changed, dependencies[1..], depth, more);
      }
    }
  }

  // Where every dependency tried has an end, so does the whole list.
  lemma {:induction false} TriedEnd(g: Graph, changed: set<string>, dependencies: seq<string>) returns (depth: nat)
    requires forall d :: d in Tried(g, changed, dependencies) ==> Ends(g, changed, d)
    ensures VisitAll(g, changed, dependencies, depth) != Deeper
  {
    hide Answers;
    if dependencies == [] {
      return 0;
    }
    var first, rest := dependencies[0], dependencies[1..];
    TriedHas(g, changed, dependencies);
    assert Ends(g, changed, first);
    var own: nat :| Visit(g, changed, first, own) != Deeper;
    if Visit(g, changed, first, own).Answer? {
      AnswerMeans(g, changed, first, own);
      var others := TriedEnd(g, changed, rest);
      depth := if own > others then own else others;
      MoreDepth(g, changed, first, own, depth);
      AllMoreDepth(g, changed, rest, others, depth);
    } else {
      depth := own;
    }
  }

  lemma TriedHas(g: Graph, changed: set<string>, dependencies: seq<string>)
    requires dependencies != []
    ensures dependencies[0] in Tried(g, changed, dependencies)
    ensures Answers(g, changed, dependencies[0]) ==>
      forall d :: d in Tried(g, changed, dependencies) <==>
        d == dependencies[0] || d in Tried(g, changed, dependencies[1..])
    ensures !Answers(g, changed, dependencies[0]) ==> Tried(g, changed, dependencies) == [dependencies[0]]
  {
    hide Answers;
    var tried := Tried(g, changed, dependencies);
    assert tried[0] == dependencies[0];
  }

  // Where one of the dependencies tried never ends, neither does the whole list.
  lemma {:induction false} TriedDeeper(g: Graph, changed: set<string>, dependencies: seq<string>, d: string, depth: nat)
    requires d in Tried(g, changed, dependencies) && Visit(g, changed, d, depth) == Deeper
    ensures VisitAll(g, changed, dependencies, depth) == Deeper
    decreases |dependencies|
  {
    hide Answers, Visit;
    var first, rest := dependencies[0], dependencies[1..];
    TriedHas(g, changed, dependencies);
    if first == d {
    } else {
      TriedDeeper(g, changed, rest, d, depth);
      NotMissing(g, changed, first, depth);
    }
  }

  lemma NotMissing(g: Graph, changed: set<string>, a: string, depth: nat)
    requires Answers(g, changed, a)
    ensures Visit(g, changed, a, depth) != Missing
  {
    NeverMissing(g, changed, a, depth);
  }

  lemma {:induction false} VisitedLoopIsDeep(g: Graph, changed: set<string>, a: string, depth: nat)
    requires !LoopFree(Visited(g, changed), a)
    ensures Visit(g, changed, a, depth) == Deeper
    decreases depth
  {
    if depth == 0 {
    } else {
      hide LoopFree, Visited, Tried;
      var d := LoopAhead(Visited(g, changed), a);
      VisitedInGraph(g, changed, a, d);
      VisitedEdge(g, changed, a, d);
      VisitedLoopIsDeep(g, changed, d, depth - 1);
      TriedDeeper(g, changed, g[a].dependencies, d, depth - 1);
    }
  }

  lemma VisitedInGraph(g: Graph, changed: set<string>, a: string, d: string)
    requires Edge(Visited(g, changed), a, d)
    ensures a in g
  {
  }

  lemma {:induction false} VisitedLoopFreeEnds(g: Graph, changed: set<string>, a: string)
    requires LoopFree(Visited(g, changed), a)
    ensures Ends(g, changed, a)
    decreases |Reach(Visited(g, changed), a)|
  {
    if a in changed || a !in g {
      assert Visit(g, changed, a, 1) != Deeper;
    } else {
      var dependencies := g[a].dependencies;
      forall d | d in Tried(g, changed, dependencies)
        ensures Ends(g, changed, d)
      {
        VisitedEdge(g, changed, a, d);
        RankDecreases(Visited(g, changed), a, d);
        VisitedLoopFreeEnds(g, changed, d);
      }
      var depth := TriedEnd(g, changed, dependencies);
      assert Visit(g, changed, a, depth + 1) != Deeper;
    }
  }

  // On every graph: the recursion ends exactly when no cycle can be reached by trying, in order, the
  // dependencies of unchanged packages up to the first one without an answer. It ends with an answer exactly
  // when no cycle and no missing package can be reached through unchanged packages at all.
  lemma EndsIff(g: Graph, changed: set<string>, a: string)
    ensures Ends(g, changed, a) <==> LoopFree(Visited(g, changed), a)
    ensures (exists depth :: Visit(g, changed, a, depth).Answer?) <==> Answers(g, changed, a)
  {
    if LoopFree(Visited(g, changed), a) {
      VisitedLoopFreeEnds(g, changed, a);
    } else {
      forall depth
        ensures Visit(g, changed, a, depth) == Deeper
      {
        VisitedLoopIsDeep(g, changed, a, depth);
      }
    }
    if Answers(g, changed, a) {
      AnswerFound(g, changed, a, |Reach(Followed(g, changed), a)| + 1);
    }
    if depth: nat :| Visit(g, changed, a, depth).Answer? {
      AnswerMeans(g, changed, a, depth);
    }
  }

  // ---------- two packages that depend on each other ----------

  const MUTUAL: map<string, seq<string>> := map["@celo/a" := ["@celo/b"], "@celo/b" := ["@celo/a"]]

  const BOTH: seq<Package> := [Package("@celo/a", "/packages/a"), Package("@celo/b", "/packages/b")]

  lemma MutualGraph(relative: string -> string)
    ensures ParseLernaOutput(MUTUAL, BOTH, relative).Some?
    ensures var g := ParseLernaOutput(MUTUAL, BOTH, relative).value;
      && g.Keys == {"@celo/a", "@celo/b"}
      && Edge(g, "@celo/a", "@celo/b") && Edge(g, "@celo/b", "@celo/a") && Closed(g)
  {
    assert BOTH[0].name == "@celo/a" && BOTH[1].name == "@celo/b";
    assert Listed(BOTH, "@celo/a") && Listed(BOTH, "@celo/b");
    ParsedGraph(MUTUAL, BOTH, relative);
    ParsedGraphClosedIff(MUTUAL, BOTH, relative);
    hide ParseLernaOutput;
  }

  // Listed by lerna and both unchanged, they make the recursion go on for ever.
  lemma MutualNeverEnds(relative: string -> string)
    ensures ParseLernaOutput(MUTUAL, BOTH, relative).Some?
    ensures !Ends(ParseLernaOutput(MUTUAL, BOTH, relative).value, {}, "@celo/a")
  {
    hide ParseLernaOutput, LosesTrack, Ends;
    MutualGraph(relative);
    var g := ParseLernaOutput(MUTUAL, BOTH, relative).value;
    var a, b, followed := "@celo/a", "@celo/b", Followed(g, {});
    FollowedEdge(g, {}, a, b);
    FollowedEdge(g, {}, b, a);
    assert IsPath(followed, [a], a, a) && IsPath(followed, [a, b, a], a, a);
    ClosedKeepsTrack(g, {}, a);
    EndsWithoutMissingIff(g, {}, a);
  }
}
