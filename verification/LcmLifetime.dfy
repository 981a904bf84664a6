/** Lazy code motion inserts as late as any placement does that evaluates the expression as
    seldom (opt/lcm.c): the temporaries live no longer than they must. */
module LcmLifetime {
  import opened Cfg
  import opened MustFlow
  import opened Lcm
  import opened LcmPlacement
  import opened LcmCorrectness
  import opened LcmOptimal

  ghost predicate EdgesIn(g: Graph, es: seq<nat>) {
    forall i :: 0 <= i < |es| ==> es[i] < |g.edges|
  }

  /** From edge m on, and after the block it leaves, the pass evaluates x nowhere. */
  ghost predicate Silent(g: Graph, loc: Local, f: Solution, x: nat, es: seq<nat>, m: nat) {
    && |f.ins| == |g.edges| && |f.del| == |loc.antloc| == g.blocks
    && (forall j :: m <= j < |es| ==> es[j] < |g.edges| && x !in f.ins[es[j]])
    && (forall j :: m < j < |es| ==> g.edges[es[j]].src < g.blocks && x !in loc.antloc[g.edges[es[j]].src])
  }

  lemma {:induction false} NothingDone(g: Graph, loc: Local, f: Solution, x: nat, es: seq<nat>, b: nat, m: nat)
    requires g.Valid() && Silent(g, loc, f, x, es, m) && m < |es| && EdgesIn(g, es)
    requires b < g.blocks && x !in loc.antloc[b] - f.del[b]
    ensures Done(g, loc, Chosen(f), x, es, b) == Done(g, loc, Chosen(f), x, es[..m], g.edges[es[m]].src)
    decreases |es|
  {
    hide Graph.ListsDistinct, Count, Done;
    var n := |es| - 1;
    CountStep(g, loc, Chosen(f), x, es);
    NotCounted(g, loc, Chosen(f), x, es, b);
    if m < n {
      assert es[..n][..m] == es[..m];
      NothingDone(g, loc, f, x, es[..n], g.edges[es[n]].src, m);
    }
  }

  // ---------- the way on which x has been evaluated before ----------

  /** What the analysis of delays has found is all there is, too. */
  ghost predicate DelayFound(g: Graph, loc: Local, f: Solution)
    requires g.Valid()
  {
    && |f.earliest| == |g.edges| && |loc.antloc| == g.blocks
    && LaterProblem(g, loc.ones, f.earliest, loc.antloc).Greatest(f.later)
  }

  /** A walk to the end of edge e on which the pass evaluates nothing after a use, or after
      the start. */
  ghost predicate SinceUse(g: Graph, loc: Local, f: Solution, x: nat, way: seq<nat>, e: nat, m: nat) {
    && m < |way| && way[|way| - 1] == e && e < |g.edges| && g.Walk(g.entry, way, g.edges[e].dest)
    && Silent(g, loc, f, x, way, m)
    && (m == 0 || (Last(g, way[..m]) < g.blocks && x in loc.antloc[Last(g, way[..m])]))
  }

  lemma Undelayed(g: Graph, loc: Local, f: Solution, x: nat, chain: seq<nat>)
    requires g.Valid() && Solves(g, loc, f) && DelayFound(g, loc, f) && x in loc.ones
    requires LaterProblem(g, loc.ones, f.earliest, loc.antloc).Valid()
    requires LaterProblem(g, loc.ones, f.earliest, loc.antloc).Refutes(chain, x)
    ensures chain != [] && chain[0] < |g.edges| && x !in f.later[chain[0]] && x !in f.ins[chain[0]]
              && x !in f.earliest[chain[0]]
    ensures if |chain| == 1 then g.edges[chain[0]].src == g.entry || x in loc.antloc[g.edges[chain[0]].src]
            else x !in loc.antloc[g.edges[chain[0]].src] && chain[1] in g.preds[g.edges[chain[0]].src]
    ensures |chain| > 1 ==> LaterProblem(g, loc.ones, f.earliest, loc.antloc).Refutes(chain[1..], x)
  {
    hide Graph.ListsDistinct, AvailEquation, AntEquation, Earliest;
    var p := LaterProblem(g, loc.ones, f.earliest, loc.antloc);
    var e := chain[0];
    assert p.Refuted(e, x);
    assert EdgeEquation(g, loc, f, e);
  }

  lemma {:induction false} ChainWay(g: Graph, loc: Local, f: Solution, x: nat, chain: seq<nat>)
                                    returns (way: seq<nat>, m: nat)
    requires g.Valid() && g.AllReachable() && Solves(g, loc, f) && DelayFound(g, loc, f) && x in loc.ones
    requires LaterProblem(g, loc.ones, f.earliest, loc.antloc).Valid()
    requires LaterProblem(g, loc.ones, f.earliest, loc.antloc).Refutes(chain, x)
    ensures SinceUse(g, loc, f, x, way, chain[0], m)
    decreases |chain|
  {
    hide Graph.ListsDistinct, Graph.Walk, Last, LaterProblem, Problem.Refutes, DelayFound, Solves;
    Undelayed(g, loc, f, x, chain);
    SolutionSizes(g, loc, f);
    var e := chain[0];
    var p := g.edges[e].src;
    if |chain| == 1 {
      var first := WayTo(g, e);
      if p == g.entry {
        first := [];
        EmptyWalk(g);
      }
      way, m := first + [e], |first|;
      WalkStep(g, g.entry, first, e);
      assert way[..m] == first;
      LastIs(g, first, p);
    } else {
      var first;
      first, m := ChainWay(g, loc, f, x, chain[1..]);
      assert g.edges[chain[1]].dest == p;
      way := first + [e];
      WalkStep(g, g.entry, first, e);
      assert way[..m] == first[..m];
    }
  }

  lemma EmptyWalk(g: Graph)
    ensures g.Walk(g.entry, [], g.entry)
  {
  }

  // ---------- the use to come ----------

  /** On the way out of the block of an insertion comes a use that reads the temporary, and the
      pass evaluates nothing before it. */
  ghost predicate UseAt(g: Graph, loc: Local, f: Solution, x: nat, s: nat, out: seq<nat>, k: nat, u: nat) {
    && k <= |out| && u < g.blocks && g.Walk(s, out[..k], u) && |f.ins| == |g.edges|
    && |f.del| == |loc.antloc| == g.blocks && x in f.del[u] && x in loc.antloc[u]
    && (forall j :: 0 <= j < k ==> out[j] < |g.edges| && x !in f.ins[out[j]])
    && (forall j :: 0 <= j < k ==> g.edges[out[j]].src < g.blocks && x !in loc.antloc[g.edges[out[j]].src])
  }

  ghost predicate StillTo(g: Graph, loc: Local, f: Solution, x: nat, s: nat, out: seq<nat>, k: nat, u: nat) {
    && k <= |out| && u < g.blocks && g.Walk(s, out[..k], u) && |f.ins| == |g.edges|
    && |f.antin| == |f.del| == |loc.antloc| == g.blocks && |f.laterin| == g.blocks + 1 && Owed(g, f, x, u)
    && (forall j :: 0 <= j < k ==> out[j] < |g.edges| && x !in f.ins[out[j]])
    && (forall j :: 0 <= j < k ==> g.edges[out[j]].src < g.blocks && x !in loc.antloc[g.edges[out[j]].src])
  }

  lemma PrefixOf(g: Graph, s: nat, out: seq<nat>, b: nat, k: nat)
    requires g.Walk(s, out, b) && k < |out|
    ensures out[k] < |g.edges| && g.Walk(s, out[..k], g.edges[out[k]].src)
    ensures g.Walk(s, out[..k + 1], g.edges[out[k]].dest)
    decreases |out|
  {
    var n := |out| - 1;
    if k < n {
      PrefixOf(g, s, out[..n], g.edges[out[n]].src, k);
      assert out[..n][..k] == out[..k] && out[..n][..k + 1] == out[..k + 1];
    } else {
      assert out[..k + 1] == out;
    }
  }

  lemma StillStep(g: Graph, loc: Local, f: Solution, x: nat, s: nat, way: seq<nat>, out: seq<nat>, k: nat, u: nat)
    requires g.Valid() && Solves(g, loc, f) && NoCriticalEdges(g) && x in loc.ones && g.Walk(g.entry, way, s)
    requires StillTo(g, loc, f, x, s, out, k, u) && k < |out| && g.Walk(s, out, g.exit) && x !in loc.antloc[u]
    ensures out[k] < |g.edges| && StillTo(g, loc, f, x, s, out, k + 1, g.edges[out[k]].dest)
  {
    hide Graph.ListsDistinct, Solves, NoCriticalEdges, Graph.Walk, Owed;
    PrefixOf(g, s, out, g.exit, k);
    SameEnd(g, s, out[..k], u, g.edges[out[k]].src);
    WalkConcat(g, g.entry, way, s, out[..k], u);
    SolutionSizes(g, loc, f);
    NotDeleted(g, loc, f, x, u);
    DebtStep(g, loc, f, x, out[k], way + out[..k]);
    InGraph(g, f, x, g.edges[out[k]].dest);
  }

  lemma InGraph(g: Graph, f: Solution, x: nat, b: nat)
    requires |f.antin| == g.blocks && |f.laterin| == g.blocks + 1 && Owed(g, f, x, b)
    ensures b < g.blocks && b != g.exit
  {
  }

  lemma NotDeleted(g: Graph, loc: Local, f: Solution, x: nat, u: nat)
    requires g.Valid() && Solves(g, loc, f) && u < g.blocks
    ensures |f.del| == |loc.antloc| == g.blocks && |f.laterin| == g.blocks + 1
              && f.del[u] == loc.antloc[u] - f.laterin[u]
  {
  }

  lemma SameEnd(g: Graph, s: nat, es: seq<nat>, u: nat, v: nat)
    requires g.Walk(s, es, u) && g.Walk(s, es, v)
    ensures u == v
  {
  }

  lemma {:induction false} UseToCome(g: Graph, loc: Local, f: Solution, x: nat, s: nat, way: seq<nat>, out: seq<nat>,
                                     k: nat, u: nat) returns (i: nat, v: nat)
    requires g.Valid() && Solves(g, loc, f) && NoCriticalEdges(g) && x in loc.ones && g.Walk(g.entry, way, s)
    requires StillTo(g, loc, f, x, s, out, k, u) && g.Walk(s, out, g.exit)
    ensures UseAt(g, loc, f, x, s, out, i, v) && i <= |out|
    decreases |out| - k
  {
    hide Graph.ListsDistinct, Solves, NoCriticalEdges, Graph.Walk;
    if x in loc.antloc[u] {
      i, v := k, u;
      NotDeleted(g, loc, f, x, u);
    } else if k < |out| {
      StillStep(g, loc, f, x, s, way, out, k, u);
      i, v := UseToCome(g, loc, f, x, s, way, out, k + 1, g.edges[out[k]].dest);
    } else {
      assert out[..k] == out;
      SameEnd(g, s, out, u, g.exit);
      assert false;
    }
  }

  // ---------- the comparison ----------

  /** q evaluates x on no path from the entry to the exit more often than the pass. */
  ghost predicate AsSeldom(g: Graph, loc: Local, f: Solution, q: Placement, x: nat)
    requires g.Valid() && |q.ins| == |f.ins| == |g.edges| && |q.del| == |f.del| == |loc.antloc| == g.blocks
  {
    forall es :: EdgesIn(g, es) && g.Walk(g.entry, es, g.exit) ==>
      Count(g, loc, q, x, es) <= Count(g, loc, Chosen(f), x, es)
  }

  lemma BothEdges(g: Graph, a: seq<nat>, b: seq<nat>)
    requires EdgesIn(g, a) && EdgesIn(g, b)
    ensures EdgesIn(g, a + b)
  {
  }

  lemma SilentBoth(g: Graph, loc: Local, f: Solution, x: nat, way: seq<nat>, e: nat, m: nat, out: seq<nat>, i: nat,
                   u: nat)
    requires SinceUse(g, loc, f, x, way, e, m) && UseAt(g, loc, f, x, g.edges[e].dest, out, i, u)
    ensures Silent(g, loc, f, x, way + out[..i], m) && m < |way + out[..i]|
    ensures g.Walk(g.entry, way + out[..i], u) && EdgesIn(g, out[..i])
  {
    hide Graph.Walk, Last;
    WalkConcat(g, g.entry, way, g.edges[e].dest, out[..i], u);
  }

  /** Where the last use, or the start, lies behind, q is not behind the pass. */
  lemma NotBehind(g: Graph, loc: Local, f: Solution, q: Placement, x: nat, way: seq<nat>, e: nat, m: nat)
    requires g.Valid() && Analysed(g, loc, f) && x in loc.ones && Admissible(g, loc, q, x)
    requires SinceUse(g, loc, f, x, way, e, m) && EdgesIn(g, way)
    ensures |f.ins| == |q.ins| == |g.edges| && |f.del| == |q.del| == |loc.antloc| == g.blocks
    ensures Done(g, loc, Chosen(f), x, way[..m], g.edges[way[m]].src) <= Done(g, loc, q, x, way[..m],
              g.edges[way[m]].src)
  {
    hide Graph.ListsDistinct, Analysed, Correct, Safe, Done, Last, Solves;
    AdmissibleFacts(g, loc, f, q, x);
    AdmissibleParts(g, loc, q, x);
    PrefixWalk(g, way, g.edges[e].dest, m);
    var p := g.edges[way[m]].src;
    LastIs(g, way[..m], p);
    EmptyLevel(g, loc, f, q, x);
    LastIs(g, [], g.entry);
    assert way[..m][..0] == [];
    SourceIn(g, way[m]);
    StaysLevel(g, loc, f, q, x, way[..m], p, 0, 0);
    if m == 0 {
      assert way[..m] == [];
      SameEnd(g, g.entry, [], p, g.entry);
    }
  }

  lemma SourceIn(g: Graph, e: nat)
    requires g.Valid() && e < |g.edges|
    ensures g.edges[e].src < g.blocks && g.edges[e].dest < g.blocks
  {
  }

  /** If q evaluates x between the block of the insertion and the use, it is ahead at the use. */
  lemma Overtakes(g: Graph, loc: Local, f: Solution, q: Placement, x: nat, way: seq<nat>, e: nat, m: nat, out: seq<nat>,
                  i: nat, u: nat)
    requires g.Valid() && Analysed(g, loc, f) && x in loc.ones && Admissible(g, loc, q, x)
    requires SinceUse(g, loc, f, x, way, e, m) && EdgesIn(g, way) && UseAt(g, loc, f, x, g.edges[e].dest, out, i, u)
    requires |q.ins| == |g.edges| && |q.del| == g.blocks
    requires x !in q.del[u] || exists j :: 0 <= j < i && x in q.ins[out[j]]
    ensures |f.ins| == |g.edges| && |f.del| == |loc.antloc| == g.blocks && EdgesIn(g, way + out[..i])
    ensures Done(g, loc, Chosen(f), x, way + out[..i], u) + 1 <= Done(g, loc, q, x, way + out[..i], u)
  {
    hide Graph.Valid, Analysed, Admissible, Done, Last, Silent, Graph.Walk, Solves;
    var t := way + out[..i];
    NotBehind(g, loc, f, q, x, way, e, m);
    SilentBoth(g, loc, f, x, way, e, m, out, i, u);
    BothEdges(g, way, out[..i]);
    NothingDone(g, loc, f, x, t, u, m);
    if x in q.del[u] {
      var j :| 0 <= j < i && x in q.ins[out[j]];
      assert t[|way| + j] == out[j];
    }
    CountGrows(g, loc, q, x, t, u, m);
    assert t[..m] == way[..m] && t[m] == way[m];
  }

  /** ... and the lead stays until the exit. */
  lemma LeadStays(g: Graph, loc: Local, f: Solution, q: Placement, x: nat, t: seq<nat>, u: nat, rest: seq<nat>)
    requires g.Valid() && Analysed(g, loc, f) && x in loc.ones && Admissible(g, loc, q, x)
    requires EdgesIn(g, t) && g.Walk(g.entry, t, u) && EdgesIn(g, rest) && g.Walk(u, rest, g.exit)
    requires u < g.blocks && |loc.antloc| == g.blocks && x in loc.antloc[u]
    requires |q.ins| == |f.ins| == |g.edges| && |q.del| == |f.del| == g.blocks
    requires Done(g, loc, Chosen(f), x, t, u) + 1 <= Done(g, loc, q, x, t, u)
    ensures !AsSeldom(g, loc, f, q, x)
  {
    hide Graph.ListsDistinct, Analysed, Correct, Safe, Last, Solves, Count, Graph.Walk, Fits;
    AdmissibleFacts(g, loc, f, q, x);
    var all := t + rest;
    WalkConcat(g, g.entry, t, u, rest, g.exit);
    BothEdges(g, t, rest);
    assert all[..|t|] == t;
    LastIs(g, t, u);
    StaysLevel(g, loc, f, q, x, all, g.exit, 1, |t|);
    ExitNotOwed(g, loc, f, x);
  }

  lemma ExitNotOwed(g: Graph, loc: Local, f: Solution, x: nat)
    requires g.Valid() && Solves(g, loc, f)
    ensures |f.antin| == |loc.antloc| == g.blocks && |f.laterin| == g.blocks + 1
    ensures !Owed(g, f, x, g.exit) && x !in loc.antloc[g.exit]
  {
  }

  /** What has not been delayed on every edge into a block. */
  lemma SomeUndelayed(g: Graph, loc: Local, f: Solution, x: nat, s: nat) returns (chain: seq<nat>)
    requires g.Valid() && Solves(g, loc, f) && DelayFound(g, loc, f) && x in loc.ones
    requires |f.antin| == g.blocks && |f.laterin| == g.blocks + 1 && Owed(g, f, x, s)
    ensures LaterProblem(g, loc.ones, f.earliest, loc.antloc).Valid() && chain != []
    ensures LaterProblem(g, loc.ones, f.earliest, loc.antloc).Refutes(chain, x)
    ensures chain[0] < |g.edges| && g.edges[chain[0]].dest == s
  {
    hide Graph.ListsDistinct, AvailEquation, AntEquation, EdgeEquation, Problem.Refutes;
    var p := LaterProblem(g, loc.ones, f.earliest, loc.antloc);
    assert x !in EdgeMeet(loc.ones, f.later, g.preds[s]);
    var k :| 0 <= k < |g.preds[s]| && x !in f.later[g.preds[s][k]];
    chain := RefutedBy(p, g.preds[s][k], x);
  }

  lemma RefutedBy(p: Problem, n: nat, x: nat) returns (chain: seq<nat>)
    requires p.Valid() && p.Refuted(n, x)
    ensures chain != [] && p.Refutes(chain, x) && chain[0] == n
  {
    chain :| p.Refutes(chain, x) && chain[0] == n;
  }

  /** A placement whose temporary does not hold the value yet evaluates x before the use. */
  lemma MustEvaluate(g: Graph, loc: Local, f: Solution, q: Placement, x: nat, es: seq<nat>, s: nat, out: seq<nat>,
                     i: nat,
                     u: nat)
    requires g.Valid() && loc.Valid(g) && Admissible(g, loc, q, x) && |q.ins| == |g.edges| && |q.del| == g.blocks
    requires g.Walk(g.entry, es, s) && UseAt(g, loc, f, x, s, out, i, u) && !Held(g, loc, q.ins, x, es)
    ensures x !in q.del[u] || exists j :: 0 <= j < i && x in q.ins[out[j]]
  {
    hide Graph.Valid, Local.Valid, Safe, Graph.Walk, Held;
    if x in q.del[u] && forall j :: 0 <= j < i ==> x !in q.ins[out[j]] {
      assert i == 0 ==> es + out[..i] == es;
      WalkConcat(g, g.entry, es, s, out[..i], u);
      CorrectAt(g, loc, q, x, es + out[..i], u);
      if i > 0 {
        HeldBack(g, loc, q.ins, x, es, out[..i]);
      }
      assert false;
    }
  }

  /** Lifetime optimality: where the pass inserts a copy, the temporary of every correct and
      safe placement that evaluates the expression as seldom already holds the value, whatever
      way leads there. So none inserts later. */
  lemma NoneInsertsLater(g: Graph, loc: Local, f: Solution, q: Placement, x: nat, es: seq<nat>, out: seq<nat>)
    requires g.Valid() && Analysed(g, loc, f) && DelayFound(g, loc, f) && x in loc.ones && Admissible(g, loc, q, x)
    requires |q.ins| == |f.ins| == |g.edges| && |q.del| == |f.del| == |loc.antloc| == g.blocks
    requires AsSeldom(g, loc, f, q, x)
    requires es != [] && EdgesIn(g, es) && g.Walk(g.entry, es, g.edges[es[|es| - 1]].dest) && x in f.ins[es[|es| - 1]]
    requires EdgesIn(g, out) && g.Walk(g.edges[es[|es| - 1]].dest, out, g.exit)
    ensures Held(g, loc, q.ins, x, es)
  {
    hide Graph.ListsDistinct, DelayFound, Admissible, AsSeldom, Held, Graph.Walk, UseAt, SinceUse, Solves,
      NoCriticalEdges;
    hide Problem.Fixpoint, Problem.Greatest, Problem.Refutes, AvailProblem, AntProblem, LaterProblem, Done, Owed;
    if !Held(g, loc, q.ins, x, es) {
      var n := |es| - 1;
      var s := g.edges[es[n]].dest;
      AdmissibleFacts(g, loc, f, q, x);
      PrefixWalk(g, es, s, n);
      DebtStep(g, loc, f, x, es[n], es[..n]);
      StillStart(g, loc, f, x, s, out);
      var i, u := UseToCome(g, loc, f, x, s, es, out, 0, s);
      MustEvaluate(g, loc, f, q, x, es, s, out, i, u);
      var chain := SomeUndelayed(g, loc, f, x, s);
      var way, m := ChainWay(g, loc, f, x, chain);
      WayEdges(g, loc, f, x, way, chain[0], m);
      Overtakes(g, loc, f, q, x, way, chain[0], m, out, i, u);
      RestOfWay(g, loc, f, x, s, out, i, u);
      SilentBoth(g, loc, f, x, way, chain[0], m, out, i, u);
      LeadStays(g, loc, f, q, x, way + out[..i], u, out[i..]);
    }
  }

  lemma StillStart(g: Graph, loc: Local, f: Solution, x: nat, s: nat, out: seq<nat>)
    requires g.Valid() && Solves(g, loc, f) && |f.antin| == g.blocks && |f.laterin| == g.blocks + 1 && Owed(g, f, x, s)
    ensures StillTo(g, loc, f, x, s, out, 0, s)
  {
    hide Graph.ListsDistinct, AvailEquation, AntEquation, EdgeEquation;
    assert out[..0] == [];
  }

  lemma WayEdges(g: Graph, loc: Local, f: Solution, x: nat, way: seq<nat>, e: nat, m: nat)
    requires SinceUse(g, loc, f, x, way, e, m)
    ensures EdgesIn(g, way)
  {
    hide Silent, Last;
    WalkEdges(g, g.entry, way, g.edges[e].dest);
  }

  lemma {:induction false} RestOfWay(g: Graph, loc: Local, f: Solution, x: nat, s: nat, out: seq<nat>, i: nat, u: nat)
    requires g.Valid() && UseAt(g, loc, f, x, s, out, i, u) && g.Walk(s, out, g.exit) && EdgesIn(g, out)
    ensures g.Walk(u, out[i..], g.exit) && EdgesIn(g, out[i..]) && u < g.blocks && |loc.antloc| == g.blocks
    ensures x in loc.antloc[u]
  {
    SuffixFrom(g, s, out, g.exit, i, u);
  }

  lemma SuffixFrom(g: Graph, s: nat, es: seq<nat>, b: nat, k: nat, u: nat)
    requires g.Walk(s, es, b) && k <= |es| && g.Walk(s, es[..k], u)
    ensures g.Walk(u, es[k..], b)
    decreases |es|
  {
    var n := |es| - 1;
    if k == |es| {
      assert es[..k] == es && es[k..] == [];
      SameEnd(g, s, es, b, u);
    } else {
      assert es[..n][..k] == es[..k];
      SuffixFrom(g, s, es[..n], g.edges[es[n]].src, k, u);
      assert es[..n][k..] == es[k..n] && es[k..][..|es[k..]| - 1] == es[k..n];
    }
  }
}
