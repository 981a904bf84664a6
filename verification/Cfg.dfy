/** The control-flow graph shared by every analysis of the project: blocks are
    numbered, edges have identities of their own (the compiler gives each edge a
    uid), and every block keeps its outgoing and incoming edges in order. */
module Cfg {
  /** The first n block numbers. */
  function Below(n: nat): (r: set<nat>)
    ensures |r| == n && forall b: nat :: b in r <==> b < n
  {
    if n == 0 then {} else Below(n - 1) + {n - 1}
  }

  datatype Edge = Edge(src: nat, dest: nat)

  datatype Graph = Graph(
    blocks: nat,
    edges: seq<Edge>,
    succs: seq<seq<nat>>,
    preds: seq<seq<nat>>,
    entry: nat,
    exit: nat)
  {
    /** What make_edge and remove_edge keep: an edge is listed once by its source
        and once by its destination; nothing enters the entry block and nothing
        leaves the exit block. */
    ghost predicate Valid() {
      && entry < blocks && exit < blocks && entry != exit
      && |succs| == blocks && |preds| == blocks
      && (forall e :: 0 <= e < |edges| ==> edges[e].src < blocks && edges[e].dest < blocks)
      && (forall b, k :: 0 <= b < blocks && 0 <= k < |succs[b]| ==>
            succs[b][k] < |edges| && edges[succs[b][k]].src == b)
      && (forall b, k :: 0 <= b < blocks && 0 <= k < |preds[b]| ==>
            preds[b][k] < |edges| && edges[preds[b][k]].dest == b)
      && (forall e :: 0 <= e < |edges| ==> e in succs[edges[e].src] && e in preds[edges[e].dest])
      && preds[entry] == [] && succs[exit] == []
      && ListsDistinct()
    }

    /** No edge is listed twice. */
    ghost predicate ListsDistinct()
      requires |succs| == |preds| == blocks
    {
      && (forall b, j, k :: 0 <= b < blocks && 0 <= j < k < |succs[b]| ==> succs[b][j] != succs[b][k])
      && (forall b, j, k :: 0 <= b < blocks && 0 <= j < k < |preds[b]| ==> preds[b][j] != preds[b][k])
    }

    /** es is a walk from block u to block v, edge by edge. */
    ghost predicate Walk(u: nat, es: seq<nat>, v: nat) {
      if es == [] then u == v
      else
        var last := es[|es| - 1];
        last < |edges| && edges[last].dest == v && Walk(u, es[..|es| - 1], edges[last].src)
    }

    ghost predicate Reaches(u: nat, v: nat) {
      exists es :: Walk(u, es, v)
    }

    /** A block that is neither the entry nor the exit. */
    predicate Normal(b: nat) {
      b < blocks && b != entry && b != exit
    }

    function NormalBlocks(): (r: set<nat>)
      ensures forall b: nat :: b in r <==> Normal(b)
      ensures Valid() ==> |r| == blocks - 2
    {
      Below(blocks) - {entry, exit}
    }

    /** Every ordinary block is reachable: cleanup_cfg frees the others. */
    ghost predicate AllReachable() {
      forall b :: Normal(b) ==> Reaches(entry, b)
    }

    /** The graph seen backwards, as the `reverse` flag of the analyses does. */
    function Reversed(): (r: Graph)
      requires Valid()
      ensures r.Valid()
    {
      var r := Graph(blocks, seq(|edges|, e requires 0 <= e < |edges| => Edge(edges[e].dest, edges[e].src)),
                     preds, succs, exit, entry);
      r
    }
  }

  lemma WalkStep(g: Graph, u: nat, es: seq<nat>, e: nat)
    requires e < |g.edges| && g.Walk(u, es, g.edges[e].src)
    ensures g.Walk(u, es + [e], g.edges[e].dest)
  {
    assert (es + [e])[..|es|] == es;
  }

  lemma {:induction false} WalkConcat(g: Graph, u: nat, es: seq<nat>, v: nat, fs: seq<nat>, w: nat)
    requires g.Walk(u, es, v) && g.Walk(v, fs, w)
    ensures g.Walk(u, es + fs, w)
    decreases |fs|
  {
    if fs == [] {
      assert es + fs == es;
    } else {
      var n := |fs| - 1;
      WalkConcat(g, u, es, v, fs[..n], g.edges[fs[n]].src);
      WalkStep(g, u, es + fs[..n], fs[n]);
      assert es + fs == es + fs[..n] + [fs[n]];
    }
  }

  lemma {:induction false} WalkSplit(g: Graph, u: nat, es: seq<nat>, fs: seq<nat>, w: nat) returns (v: nat)
    requires g.Walk(u, es + fs, w)
    ensures g.Walk(u, es, v) && g.Walk(v, fs, w)
    decreases |fs|
  {
    if fs == [] {
      assert es + fs == es;
      v := w;
    } else {
      var n := |fs| - 1;
      assert (es + fs)[..|es + fs| - 1] == es + fs[..n];
      v := WalkSplit(g, u, es, fs[..n], g.edges[fs[n]].src);
    }
  }

  lemma {:induction false} WalkEdges(g: Graph, u: nat, es: seq<nat>, v: nat)
    requires g.Walk(u, es, v)
    ensures forall i :: 0 <= i < |es| ==> es[i] < |g.edges|
    decreases |es|
  {
    if es != [] {
      WalkEdges(g, u, es[..|es| - 1], g.edges[es[|es| - 1]].src);
    }
  }

  lemma ReachesStep(g: Graph, u: nat, e: nat)
    requires e < |g.edges| && g.Reaches(u, g.edges[e].src)
    ensures g.Reaches(u, g.edges[e].dest)
  {
    var es :| g.Walk(u, es, g.edges[e].src);
    WalkStep(g, u, es, e);
  }

  lemma ReachesTrans(g: Graph, u: nat, v: nat, w: nat)
    requires g.Reaches(u, v) && g.Reaches(v, w)
    ensures g.Reaches(u, w)
  {
    var es :| g.Walk(u, es, v);
    var fs :| g.Walk(v, fs, w);
    WalkConcat(g, u, es, v, fs, w);
  }

  lemma ReachesSelf(g: Graph, u: nat)
    ensures g.Reaches(u, u)
  {
    assert g.Walk(u, [], u);
  }

  /** A walk that ends in a block b other than its start enters b by an edge of preds[b]. */
  lemma LastEdge(g: Graph, u: nat, es: seq<nat>, v: nat)
    requires g.Valid() && g.Walk(u, es, v) && es != []
    ensures es[|es| - 1] in g.preds[v] && v < g.blocks && v != g.entry
  {
  }
}
