/** Availability and anticipability said over paths (opt/lcm.c). */
module LcmPaths {
  import opened Cfg
  import opened MustFlow
  import opened Lcm

  /** The path comes from a computation of x that nothing on it has killed since. */
  ghost predicate ComputedOn(g: Graph, avloc: seq<Bits>, kill: seq<Bits>, x: nat, es: seq<nat>)
    requires |avloc| == |kill| == g.blocks
    decreases |es|, 0
  {
    es != [] && var e := es[|es| - 1]; e < |g.edges| && LeavesWith(g, avloc, kill, x, es[..|es| - 1], g.edges[e].src)
  }

  /** The same at the end of block b, which the path enters. */
  ghost predicate LeavesWith(g: Graph, avloc: seq<Bits>, kill: seq<Bits>, x: nat, es: seq<nat>, b: nat)
    requires |avloc| == |kill| == g.blocks
    decreases |es|, 1
  {
    b < g.blocks && b != g.entry && (x in avloc[b] || (x !in kill[b] && ComputedOn(g, avloc, kill, x, es)))
  }

  /** At the fixpoint an expression is available at a block exactly if every path from the
      entry computes it and kills it no more. */
  lemma AvailableOnEveryPath(g: Graph, ones: Bits, avloc: seq<Bits>, kill: seq<Bits>, vals: seq<Bits>, x: nat, b: nat)
    requires g.Valid() && g.AllReachable() && |avloc| == |kill| == g.blocks && x in ones && g.Normal(b)
    requires AvailProblem(g, ones, avloc, kill).Fixpoint(vals) && AvailProblem(g, ones, avloc, kill).Greatest(vals)
    ensures x in AvailProblem(g, ones, avloc, kill).Meet(vals, b) <==>
            forall es :: g.Walk(g.entry, es, b) ==> ComputedOn(g, avloc, kill, x, es)
  {
    var p := AvailProblem(g, ones, avloc, kill);
    if x in p.Meet(vals, b) {
      forall es | g.Walk(g.entry, es, b) ensures ComputedOn(g, avloc, kill, x, es) {
        ArrivesComputed(g, ones, avloc, kill, vals, x, b, es);
      }
    } else {
      var es := PathWithout(g, ones, avloc, kill, vals, x, b);
      assert g.Walk(g.entry, es, b) && !ComputedOn(g, avloc, kill, x, es);
    }
  }

  lemma {:induction false} ArrivesComputed(g: Graph, ones: Bits, avloc: seq<Bits>, kill: seq<Bits>, vals: seq<Bits>,
                                           x: nat, b: nat, es: seq<nat>)
    requires g.Valid() && |avloc| == |kill| == g.blocks && g.Normal(b)
    requires AvailProblem(g, ones, avloc, kill).Fixpoint(vals)
    requires x in AvailProblem(g, ones, avloc, kill).Meet(vals, b) && g.Walk(g.entry, es, b)
    ensures ComputedOn(g, avloc, kill, x, es)
    decreases |es|
  {
    var p := AvailProblem(g, ones, avloc, kill);
    var n := |es| - 1;
    LastEdge(g, g.entry, es, b);
    var e := es[n];
    var k :| 0 <= k < |g.preds[b]| && g.preds[b][k] == e;
    var m := g.edges[e].src;
    assert !p.boundary[b] && p.srcs[b][k] == m && x in vals[m];
    assert m != g.entry && e in g.succs[m] && g.Normal(m);
    assert vals[m] == p.Transfer(vals, m);
    if x !in avloc[m] {
      ArrivesComputed(g, ones, avloc, kill, vals, x, m, es[..n]);
    }
  }

  /** A path on which the expression is not computed, or killed since. */
  lemma PathWithout(g: Graph, ones: Bits, avloc: seq<Bits>, kill: seq<Bits>, vals: seq<Bits>, x: nat, b: nat)
    returns (es: seq<nat>)
    requires g.Valid() && g.AllReachable() && |avloc| == |kill| == g.blocks && x in ones && g.Normal(b)
    requires AvailProblem(g, ones, avloc, kill).Fixpoint(vals) && AvailProblem(g, ones, avloc, kill).Greatest(vals)
    requires x !in AvailProblem(g, ones, avloc, kill).Meet(vals, b)
    ensures g.Walk(g.entry, es, b) && !ComputedOn(g, avloc, kill, x, es)
  {
    var p := AvailProblem(g, ones, avloc, kill);
    if p.boundary[b] {
      es := FromEntry(g, avloc, kill, x, b);
    } else {
      var k :| 0 <= k < |p.srcs[b]| && x !in vals[p.srcs[b][k]];
      var e := g.preds[b][k];
      var m := g.edges[e].src;
      assert e in g.succs[m] && g.Normal(m) && p.Refuted(m, x);
      var chain :| p.Refutes(chain, x) && chain[0] == m;
      es := ChainPath(g, ones, avloc, kill, chain, x);
      WalkStep(g, g.entry, es, e);
      assert (es + [e])[..|es|] == es;
      es := es + [e];
    }
  }

  lemma FromEntry(g: Graph, avloc: seq<Bits>, kill: seq<Bits>, x: nat, b: nat) returns (es: seq<nat>)
    requires g.Valid() && |avloc| == |kill| == g.blocks && g.Normal(b) && EntrySucc(g, b)
    ensures g.Walk(g.entry, es, b) && !ComputedOn(g, avloc, kill, x, es)
  {
    var k :| 0 <= k < |g.preds[b]| && g.edges[g.preds[b][k]].src == g.entry;
    es := [g.preds[b][k]];
    WalkStep(g, g.entry, [], g.preds[b][k]);
    assert [] + es == es;
  }

  /** A chain that refutes the expression, walked from the entry. */
  lemma {:induction false} ChainPath(g: Graph, ones: Bits, avloc: seq<Bits>, kill: seq<Bits>, chain: seq<nat>, x: nat)
    returns (es: seq<nat>)
    requires g.Valid() && g.AllReachable() && |avloc| == |kill| == g.blocks && x in ones
    requires AvailProblem(g, ones, avloc, kill).Valid() && AvailProblem(g, ones, avloc, kill).Refutes(chain, x)
    ensures g.Walk(g.entry, es, chain[0]) && !LeavesWith(g, avloc, kill, x, es, chain[0])
    decreases |chain|
  {
    var p := AvailProblem(g, ones, avloc, kill);
    var m := chain[0];
    assert g.Normal(m) && x !in avloc[m];
    if |chain| == 1 {
      if p.boundary[m] {
        es := FromEntry(g, avloc, kill, x, m);
      } else {
        assert x in kill[m];
        es :| g.Walk(g.entry, es, m);
      }
    } else {
      var before := ChainPath(g, ones, avloc, kill, chain[1..], x);
      var k :| 0 <= k < |p.srcs[m]| && p.srcs[m][k] == chain[1];
      var e := g.preds[m][k];
      WalkStep(g, g.entry, before, e);
      assert (before + [e])[..|before|] == before;
      es := before + [e];
    }
  }

  // ---------- anticipability ----------

  /** From block b on the path computes x before it changes an operand. */
  ghost predicate NeededOn(g: Graph, antloc: seq<Bits>, transp: seq<Bits>, x: nat, b: nat, es: seq<nat>)
    requires |antloc| == |transp| == g.blocks
    decreases |es|
  {
    b < g.blocks && (x in antloc[b] || (x in transp[b] && es != [] && es[0] < |g.edges|
      && NeededOn(g, antloc, transp, x, g.edges[es[0]].dest, es[1..])))
  }

  lemma FirstEdge(g: Graph, u: nat, es: seq<nat>, v: nat)
    requires g.Walk(u, es, v) && es != []
    ensures es[0] < |g.edges| && g.edges[es[0]].src == u && g.Walk(g.edges[es[0]].dest, es[1..], v)
  {
    assert es == [es[0]] + es[1..];
    var m := WalkSplit(g, u, [es[0]], es[1..], v);
    var one := [es[0]];
    assert one[..|one| - 1] == [];
  }

  /** At the fixpoint an anticipated expression is computed on every path to the exit before
      one of its operands changes. */
  lemma {:induction false} AnticipatedOnEveryPath(g: Graph, ones: Bits, antloc: seq<Bits>, transp: seq<Bits>,
                                                  vals: seq<Bits>, x: nat, b: nat, es: seq<nat>)
    requires g.Valid() && |antloc| == |transp| == g.blocks && g.Normal(b)
    requires AntProblem(g, ones, antloc, transp).Fixpoint(vals)
    requires x in vals[b] && g.Walk(b, es, g.exit)
    ensures NeededOn(g, antloc, transp, x, b, es)
    decreases |es|
  {
    var p := AntProblem(g, ones, antloc, transp);
    assert vals[b] == p.Transfer(vals, b);
    if x !in antloc[b] {
      FirstEdge(g, b, es, g.exit);
      var e := es[0];
      assert e in g.succs[b];
      var k :| 0 <= k < |g.succs[b]| && g.succs[b][k] == e;
      var d := g.edges[e].dest;
      assert !p.boundary[b] && p.srcs[b][k] == d && x in vals[d];
      assert e in g.preds[d] && g.Normal(d);
      AnticipatedOnEveryPath(g, ones, antloc, transp, vals, x, d, es[1..]);
    }
  }

  /** From block b on the walk comes to the exit, or to a block that changes an operand, before
      x is computed. */
  ghost predicate LostOn(g: Graph, antloc: seq<Bits>, transp: seq<Bits>, x: nat, b: nat, es: seq<nat>)
    requires |antloc| == |transp| == g.blocks
    decreases |es|
  {
    b < g.blocks &&
    (b == g.exit ||
     (x !in antloc[b] &&
      (x !in transp[b] || (es != [] && es[0] < |g.edges| && g.edges[es[0]].src == b
                           && LostOn(g, antloc, transp, x, g.edges[es[0]].dest, es[1..])))))
  }

  /** The greatest solution anticipates an expression at a block exactly if it is lost on no
      walk from there. */
  lemma AnticipatedExactly(g: Graph, ones: Bits, antloc: seq<Bits>, transp: seq<Bits>, vals: seq<Bits>, x: nat, b: nat)
    requires g.Valid() && |antloc| == |transp| == g.blocks && g.Normal(b) && x in ones
    requires AntProblem(g, ones, antloc, transp).Fixpoint(vals) && AntProblem(g, ones, antloc, transp).Greatest(vals)
    ensures x in vals[b] <==> forall es :: !LostOn(g, antloc, transp, x, b, es)
  {
    var p := AntProblem(g, ones, antloc, transp);
    if x in vals[b] {
      forall es ensures !LostOn(g, antloc, transp, x, b, es) {
        NotLost(g, ones, antloc, transp, vals, x, b, es);
      }
    } else {
      assert p.Refuted(b, x);
      var chain :| p.Refutes(chain, x) && chain[0] == b;
      var es := LosingPath(g, ones, antloc, transp, chain, x);
      assert LostOn(g, antloc, transp, x, b, es);
    }
  }

  lemma {:induction false} NotLost(g: Graph, ones: Bits, antloc: seq<Bits>, transp: seq<Bits>, vals: seq<Bits>, x: nat,
                                   b: nat, es: seq<nat>)
    requires g.Valid() && |antloc| == |transp| == g.blocks && g.Normal(b)
    requires AntProblem(g, ones, antloc, transp).Fixpoint(vals) && x in vals[b]
    ensures !LostOn(g, antloc, transp, x, b, es)
    decreases |es|
  {
    hide Graph.ListsDistinct;
    var p := AntProblem(g, ones, antloc, transp);
    assert vals[b] == p.Transfer(vals, b);
    if x !in antloc[b] && es != [] && es[0] < |g.edges| && g.edges[es[0]].src == b {
      var e := es[0];
      assert e in g.succs[b];
      var k :| 0 <= k < |g.succs[b]| && g.succs[b][k] == e;
      var d := g.edges[e].dest;
      assert !p.boundary[b] && p.srcs[b][k] == d && x in vals[d];
      assert e in g.preds[d] && g.Normal(d);
      NotLost(g, ones, antloc, transp, vals, x, d, es[1..]);
    }
  }

  lemma {:induction false} LosingPath(g: Graph, ones: Bits, antloc: seq<Bits>, transp: seq<Bits>, chain: seq<nat>,
                                      x: nat)
    returns (es: seq<nat>)
    requires g.Valid() && |antloc| == |transp| == g.blocks
    requires AntProblem(g, ones, antloc, transp).Valid() && AntProblem(g, ones, antloc, transp).Refutes(chain, x)
    ensures LostOn(g, antloc, transp, x, chain[0], es)
    decreases |chain|
  {
    hide Graph.ListsDistinct;
    var p := AntProblem(g, ones, antloc, transp);
    var m := chain[0];
    assert g.Normal(m) && x !in antloc[m];
    if x !in transp[m] {
      es := [];
    } else if |chain| == 1 {
      var k :| 0 <= k < |g.succs[m]| && g.edges[g.succs[m][k]].dest == g.exit;
      es := [g.succs[m][k]];
      assert es[1..] == [] && LostOn(g, antloc, transp, x, g.exit, []);
    } else {
      var rest := LosingPath(g, ones, antloc, transp, chain[1..], x);
      var k :| 0 <= k < |p.srcs[m]| && p.srcs[m][k] == chain[1];
      es := [g.succs[m][k]] + rest;
      assert es[1..] == rest;
    }
  }
}
