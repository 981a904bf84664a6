/** Renaming over the dominator tree (rewrite_blocks of opt/ssa.c): one version
    counter per source variable, one stack of versions per variable. */
module Renaming {
  import opened Cfg
  import opened Dominance
  import opened Frontier
  import opened Liveness

  /** The operand places that get a version. `Implicit` is the unrecorded write of a
      global by a call; `Arg` is the operand of a phi for one incoming edge. */
  datatype Slot =
    | Def(block: nat, inst: nat, operand: nat)
    | Implicit(block: nat, inst: nat, which: nat)
    | Use(block: nat, inst: nat, operand: nat)
    | Arg(block: nat, inst: nat, edge: nat)

  type Versions = map<Slot, nat>

  /** A function with its phis: base names the source variable a variable belongs to. */
  datatype Placed = Placed(f: Func, phis: seq<seq<nat>>, base: seq<nat>)
  {
    ghost predicate Valid() {
      && f.Valid() && |phis| == f.g.blocks && |base| == f.vars
      && forall b, i :: 0 <= b < |phis| && 0 <= i < |phis[b]| ==> phis[b][i] < f.vars
    }

    /** The instructions of a block, its phis first; a phi reads nothing here. */
    function Body(b: nat): (r: seq<Inst>)
      requires b < |phis| && b < |f.code|
    {
      seq(|phis[b]|, i requires 0 <= i < |phis[b]| => Inst([], [phis[b][i]], false)) + f.code[b]
    }
  }

  lemma BodyOk(p: Placed, b: nat, i: nat)
    requires p.Valid() && b < p.f.g.blocks && i < |p.Body(b)|
    ensures p.f.InstOk(p.Body(b)[i])
  {
  }

  function Get(v: Versions, s: Slot): nat {
    if s in v then v[s] else 0
  }

  /** What each variable currently holds after some of them have been written. */
  function Assign<T>(tops: seq<T>, vars: seq<nat>, vals: seq<T>): (r: seq<T>)
    requires |vars| == |vals| && forall k :: 0 <= k < |vars| ==> vars[k] < |tops|
    ensures |r| == |tops|
    ensures forall v :: 0 <= v < |tops| && v !in vars ==> r[v] == tops[v]
    decreases |vars|
  {
    if vars == [] then tops
    else
      var n := |vars| - 1;
      assert vars == vars[..n] + [vars[n]];
      Assign(tops, vars[..n], vals[..n])[vars[n] := vals[n]]
  }

  lemma AssignMore<T>(tops: seq<T>, vars: seq<nat>, vals: seq<T>, x: nat, val: T)
    requires |vars| == |vals| && (forall k :: 0 <= k < |vars| ==> vars[k] < |tops|) && x < |tops|
    ensures Assign(tops, vars + [x], vals + [val]) == Assign(tops, vars, vals)[x := val]
  {
    assert (vars + [x])[..|vars|] == vars && (vals + [val])[..|vars|] == vals;
  }

  function DefVals(v: Versions, b: nat, i: nat, n: nat): (r: seq<nat>)
    ensures |r| == n
  {
    seq(n, k requires 0 <= k < n => Get(v, Def(b, i, k)))
  }

  function ImplicitVals(v: Versions, b: nat, i: nat, n: nat): (r: seq<nat>)
    ensures |r| == n
  {
    seq(n, k requires 0 <= k < n => Get(v, Implicit(b, i, k)))
  }

  lemma DefValsMore(v: Versions, w: Versions, b: nat, i: nat, k: nat)
    requires forall j :: 0 <= j < k ==> Get(w, Def(b, i, j)) == Get(v, Def(b, i, j))
    ensures DefVals(w, b, i, k + 1) == DefVals(v, b, i, k) + [Get(w, Def(b, i, k))]
  {
  }

  lemma ImplicitValsMore(v: Versions, w: Versions, b: nat, i: nat, k: nat)
    requires forall j :: 0 <= j < k ==> Get(w, Implicit(b, i, j)) == Get(v, Implicit(b, i, j))
    ensures ImplicitVals(w, b, i, k + 1) == ImplicitVals(v, b, i, k) + [Get(w, Implicit(b, i, k))]
  {
  }

  /** The current versions after one instruction. */
  function AfterInst(p: Placed, v: Versions, b: nat, i: nat, tops: seq<nat>): (r: seq<nat>)
    requires p.Valid() && b < p.f.g.blocks && i < |p.Body(b)| && |tops| == p.f.vars
    ensures |r| == p.f.vars
  {
    BodyOk(p, b, i);
    var inst := p.Body(b)[i];
    var t := Assign(tops, inst.defs, DefVals(v, b, i, |inst.defs|));
    if inst.call then Assign(t, p.f.globals, ImplicitVals(v, b, i, |p.f.globals|)) else t
  }

  /** The current versions before instruction i, when the block is entered with `tops`. */
  function TopsAt(p: Placed, v: Versions, b: nat, tops: seq<nat>, i: nat): (r: seq<nat>)
    requires p.Valid() && b < p.f.g.blocks && i <= |p.Body(b)| && |tops| == p.f.vars
    ensures |r| == p.f.vars
    decreases i
  {
    if i == 0 then tops else AfterInst(p, v, b, i - 1, TopsAt(p, v, b, tops, i - 1))
  }

  /** The recorded uses of the first n instructions carry the current version. */
  ghost predicate UsesRenamed(p: Placed, v: Versions, b: nat, tops: seq<nat>, n: nat)
    requires p.Valid() && b < p.f.g.blocks && n <= |p.Body(b)| && |tops| == p.f.vars
  {
    forall i, k :: 0 <= i < n && 0 <= k < |p.Body(b)[i].uses| ==>
      (BodyOk(p, b, i); Get(v, Use(b, i, k)) == TopsAt(p, v, b, tops, i)[p.Body(b)[i].uses[k]])
  }

  /** Two records that agree on the writes of a block give the same versions in it. */
  ghost predicate SameWrites(v: Versions, w: Versions, b: nat) {
    forall i, k ::
      && Get(v, Def(b, i, k)) == Get(w, Def(b, i, k)) && (Def(b, i, k) in v <==> Def(b, i, k) in w)
      && Get(v, Implicit(b, i, k)) == Get(w, Implicit(b, i, k)) && (Implicit(b, i, k) in v <==> Implicit(b, i, k) in w)
  }

  /** Every write of the first n instructions has a version. */
  ghost predicate Written(p: Placed, v: Versions, b: nat, n: nat)
    requires b < |p.phis| && b < |p.f.code| && n <= |p.Body(b)|
  {
    && (forall i, k :: 0 <= i < n && 0 <= k < |p.Body(b)[i].defs| ==> Def(b, i, k) in v)
    && (forall i, k :: 0 <= i < n && p.Body(b)[i].call && 0 <= k < |p.f.globals| ==> Implicit(b, i, k) in v)
  }

  lemma {:induction false} TopsSame(p: Placed, v: Versions, w: Versions, b: nat, tops: seq<nat>, i: nat)
    requires p.Valid() && b < p.f.g.blocks && i <= |p.Body(b)| && |tops| == p.f.vars && SameWrites(v, w, b)
    ensures TopsAt(p, v, b, tops, i) == TopsAt(p, w, b, tops, i)
    decreases i
  {
    if i > 0 {
      TopsSame(p, v, w, b, tops, i - 1);
      var inst := p.Body(b)[i - 1];
      assert DefVals(v, b, i - 1, |inst.defs|) == DefVals(w, b, i - 1, |inst.defs|);
      assert ImplicitVals(v, b, i - 1, |p.f.globals|) == ImplicitVals(w, b, i - 1, |p.f.globals|);
    }
  }

  /** All variables at version 0: nothing has been written. */
  function NoVersion(n: nat): (r: seq<nat>)
    ensures |r| == n
  {
    seq(n, k => 0)
  }

  /** The tree of immediate dominators, with the dominator sets as its depth. */
  ghost predicate TreeOk(p: Placed, dom: seq<set<nat>>, idom: seq<MaybeBlock>) {
    p.Valid() && DomExact(p.f.g, dom) && IdomExact(p.f.g, idom)
  }

  /** The versions with which a live block is entered: those its immediate dominator leaves. */
  ghost function EntryTops(p: Placed, dom: seq<set<nat>>, idom: seq<MaybeBlock>, v: Versions, b: nat): (r: seq<nat>)
    requires TreeOk(p, dom, idom) && Live(p.f.g, b)
    ensures |r| == p.f.vars
    decreases |dom[b]|, 0
  {
    if b == p.f.g.entry then NoVersion(p.f.vars)
    else
      IdomShrinks(p.f.g, dom, idom, b);
      ExitTops(p, dom, idom, v, idom[b].block)
  }

  ghost function ExitTops(p: Placed, dom: seq<set<nat>>, idom: seq<MaybeBlock>, v: Versions, b: nat): (r: seq<nat>)
    requires TreeOk(p, dom, idom) && Live(p.f.g, b)
    ensures |r| == p.f.vars
    decreases |dom[b]|, 1
  {
    TopsAt(p, v, b, EntryTops(p, dom, idom, v, b), |p.Body(b)|)
  }

  /** They depend only on what the dominators of the block write. */
  lemma {:induction false} EntryTopsSame(p: Placed, dom: seq<set<nat>>, idom: seq<MaybeBlock>, v: Versions, w: Versions,
                                         b: nat)
    requires TreeOk(p, dom, idom) && Live(p.f.g, b)
    requires forall c: nat :: StrictlyDominates(p.f.g, c, b) ==> SameWrites(v, w, c)
    ensures EntryTops(p, dom, idom, v, b) == EntryTops(p, dom, idom, w, b)
    decreases |dom[b]|
  {
    if b != p.f.g.entry {
      IdomShrinks(p.f.g, dom, idom, b);
      var d := idom[b].block;
      DominatorsChain(p.f.g, idom, d, b);
      DominatesSelf(p.f.g, d);
      forall c: nat | StrictlyDominates(p.f.g, c, d) ensures SameWrites(v, w, c) {
        DominatesTrans(p.f.g, c, d, b);
        NotAboveItself(p.f.g, idom, b, c);
      }
      EntryTopsSame(p, dom, idom, v, w, d);
      TopsSame(p, v, w, d, EntryTops(p, dom, idom, v, d), |p.Body(d)|);
    }
  }

  lemma NotAboveItself(g: Graph, idom: seq<MaybeBlock>, b: nat, c: nat)
    requires g.Valid() && IdomExact(g, idom) && Live(g, b) && b != g.entry && idom[b].Block?
    requires StrictlyDominates(g, c, idom[b].block)
    ensures c != b
  {
    if c == b {
      var es :| g.Walk(g.entry, es, b);
      DominatesAntisym(g, b, idom[b].block, es);
    }
  }

  /** The position of the first incoming edge of `dest` that comes from `src`. */
  ghost predicate FirstEdgeFrom(g: Graph, dest: nat, src: nat, j: nat)
    requires g.Valid() && dest < g.blocks
  {
    && j < |g.preds[dest]| && g.edges[g.preds[dest][j]].src == src
    && forall i :: 0 <= i < j ==> g.edges[g.preds[dest][i]].src != src
  }

  /** The phi operands that belong to the edges out of b carry the versions b leaves. */
  ghost predicate ArgsRenamed(p: Placed, v: Versions, b: nat, out: seq<nat>)
    requires p.Valid() && |out| == p.f.vars
  {
    forall d: nat, j: nat, i: nat ::
      d < p.f.g.blocks && FirstEdgeFrom(p.f.g, d, b, j) && i < |p.phis[d]| ==> Get(v, Arg(d, i, j)) == out[p.phis[d][i]]
  }

  /** What a visit of a block leaves behind. */
  ghost predicate BlockRenamed(p: Placed, dom: seq<set<nat>>, idom: seq<MaybeBlock>, v: Versions, b: nat)
    requires TreeOk(p, dom, idom) && Live(p.f.g, b)
  {
    && Written(p, v, b, |p.Body(b)|)
    && UsesRenamed(p, v, b, EntryTops(p, dom, idom, v, b), |p.Body(b)|)
    && ArgsRenamed(p, v, b, ExitTops(p, dom, idom, v, b))
  }
}
