/** Where phi functions go (insert_phi_nodes of opt/ssa.c): for each variable, a
    worklist of its definition sites is pushed through the dominance frontiers, and
    a phi is placed where the variable is live. */
module PhiPlacement {
  import opened Cfg
  import opened MustFlow
  import opened Liveness

  /** The variables a block writes; a call writes every global. */
  function Kills(insts: seq<Inst>, globals: seq<nat>): set<nat> {
    if insts == [] then {}
    else
      var n := |insts| - 1;
      Kills(insts[..n], globals) + Elems(insts[n].defs) + (if insts[n].call then Elems(globals) else {})
  }

  method ComputeKills(f: Func) returns (kills: seq<set<nat>>)
    requires f.Valid()
    ensures |kills| == f.g.blocks && forall b :: 0 <= b < f.g.blocks ==> kills[b] == Kills(f.code[b], f.globals)
  {
    hide Graph.Valid;
    kills := [];
    while |kills| < f.g.blocks
      invariant |kills| <= f.g.blocks
      invariant forall b :: 0 <= b < |kills| ==> kills[b] == Kills(f.code[b], f.globals)
    {
      var insts := f.code[|kills|];
      var set_: set<nat> := {};
      var i := 0;
      while i < |insts|
        invariant 0 <= i <= |insts| && set_ == Kills(insts[..i], f.globals)
      {
        set_ := set_ + Elems(insts[i].defs);
        if insts[i].call {
          set_ := set_ + Elems(f.globals);
        }
        assert insts[..i + 1][..i] == insts[..i];
        i := i + 1;
      }
      assert insts[..i] == insts;
      kills := kills + [set_];
    }
  }

  /** A phi for v stands in block y. */
  predicate HasPhi(phis: seq<seq<nat>>, y: nat, v: nat) {
    y < |phis| && v in phis[y]
  }

  /** A block that defines v, by an instruction or by a phi. */
  predicate Defines(kills: seq<set<nat>>, phis: seq<seq<nat>>, x: nat, v: nat) {
    (x < |kills| && v in kills[x]) || HasPhi(phis, x, v)
  }

  /** Every frontier block of a defining block in which v is live has its phi. */
  ghost predicate PhiClosed(df: seq<set<nat>>, live: seq<set<nat>>, kills: seq<set<nat>>, phis: seq<seq<nat>>) {
    forall x: nat, y: nat, v: nat ::
      x < |df| && y < |live| && Defines(kills, phis, x, v) && y in df[x] && v in live[y] ==> HasPhi(phis, y, v)
  }

  /** chain leads from a definition site of v through frontiers to its last block, and
      v is live at every block after the first. */
  ghost predicate FrontierChain(df: seq<set<nat>>, live: seq<set<nat>>, kills: seq<set<nat>>, chain: seq<nat>, v: nat) {
    && chain != []
    && if |chain| == 1 then chain[0] < |kills| && v in kills[chain[0]]
       else
         var last, prev := chain[|chain| - 1], chain[|chain| - 2];
         prev < |df| && last in df[prev] && last < |live| && v in live[last]
         && FrontierChain(df, live, kills, chain[..|chain| - 1], v)
  }

  /** No phi without a reason: it lies on a chain of frontiers from a real definition. */
  ghost predicate PhiJustified(df: seq<set<nat>>, live: seq<set<nat>>, kills: seq<set<nat>>, phis: seq<seq<nat>>) {
    forall y: nat, v: nat :: HasPhi(phis, y, v) ==>
      exists chain :: |chain| > 1 && chain[|chain| - 1] == y && FrontierChain(df, live, kills, chain, v)
  }

  ghost predicate NoDoublePhi(phis: seq<seq<nat>>) {
    forall y: nat, i: nat, j: nat :: y < |phis| && i < j < |phis[y]| ==> phis[y][i] != phis[y][j]
  }

  /** What the worklist keeps for the variable v: a defining block that has left the
      list has pushed v through its frontier. */
  ghost predicate Pushed(df: seq<set<nat>>, live: seq<set<nat>>, kills: seq<set<nat>>, phis: seq<seq<nat>>, v: nat,
                         work: set<nat>) {
    forall x: nat, y: nat ::
      x < |df| && y < |live| && Defines(kills, phis, x, v) && x !in work && y in df[x] && v in live[y] ==>
      HasPhi(phis, y, v)
  }

  /** The variables other than v have not been touched. */
  ghost predicate OnlyChanges(phis: seq<seq<nat>>, phis': seq<seq<nat>>, v: nat) {
    |phis| == |phis'| && forall y: nat, u: nat :: u != v ==> (HasPhi(phis', y, u) <==> HasPhi(phis, y, u))
  }

  lemma ExtendChain(df: seq<set<nat>>, live: seq<set<nat>>, kills: seq<set<nat>>, phis: seq<seq<nat>>, x: nat, y: nat,
                    v: nat)
    requires PhiJustified(df, live, kills, phis) && Defines(kills, phis, x, v)
    requires x < |df| && y in df[x] && y < |live| && v in live[y]
    ensures exists chain :: |chain| > 1 && chain[|chain| - 1] == y && FrontierChain(df, live, kills, chain, v)
  {
    var chain: seq<nat>;
    if x < |kills| && v in kills[x] {
      chain := [x];
    } else {
      chain :| |chain| > 1 && chain[|chain| - 1] == x && FrontierChain(df, live, kills, chain, v);
    }
    assert (chain + [y])[..|chain|] == chain;
    assert FrontierChain(df, live, kills, chain + [y], v);
  }

  /** Blocks of the graph that do not have a phi for v yet. */
  function Without(phis: seq<seq<nat>>, v: nat): set<nat> {
    set y | y in Below(|phis|) && v !in phis[y]
  }

  lemma AddPhi(df: seq<set<nat>>, live: seq<set<nat>>, kills: seq<set<nat>>, phis: seq<seq<nat>>, x: nat, y: nat,
               v: nat)
    requires PhiJustified(df, live, kills, phis) && NoDoublePhi(phis) && Defines(kills, phis, x, v)
    requires x < |df| && y in df[x] && y < |live| == |phis| && v in live[y] && v !in phis[y]
    ensures var phis' := phis[y := [v] + phis[y]];
            && PhiJustified(df, live, kills, phis') && NoDoublePhi(phis') && OnlyChanges(phis, phis', v)
            && Without(phis', v) == Without(phis, v) - {y} && y in Without(phis, v)
            && (forall z: nat :: HasPhi(phis', z, v) <==> z == y || HasPhi(phis, z, v))
  {
    ExtendChain(df, live, kills, phis, x, y, v);
    var phis' := phis[y := [v] + phis[y]];
    assert forall z: nat, u: nat :: HasPhi(phis', z, u) <==> (z == y && u == v) || HasPhi(phis, z, u);
  }

  /** Push v through the frontier of one block. */
  method PushThrough(frontier: set<nat>, ghost df: seq<set<nat>>, live: seq<set<nat>>, kills: seq<set<nat>>,
                     phis: seq<seq<nat>>, 
                     n: nat, v: nat, work: set<nat>) returns (phis': seq<seq<nat>>, work': set<nat>)
    requires |df| == |live| == |kills| == |phis| && n < |df| && frontier == df[n]
    requires forall y :: y in frontier ==> y < |phis|
    requires PhiJustified(df, live, kills, phis) && NoDoublePhi(phis) && Defines(kills, phis, n, v)
    requires Pushed(df, live, kills, phis, v, work + {n})
    ensures |phis'| == |phis| && PhiJustified(df, live, kills, phis') && NoDoublePhi(phis')
    ensures OnlyChanges(phis, phis', v)
    ensures Pushed(df, live, kills, phis', v, work')
    ensures forall z: nat :: z in work' ==> z in work || HasPhi(phis', z, v)
    ensures Without(phis', v) <= Without(phis, v) && (phis' == phis ==> work' == work)
    ensures phis' != phis ==> Without(phis', v) < Without(phis, v)
    ensures forall z: nat :: Defines(kills, phis, z, v) ==> Defines(kills, phis', z, v)
  {
    hide PhiJustified, NoDoublePhi;
    phis', work' := phis, work;
    var todo := frontier;
    while todo != {}
      invariant todo <= frontier && |phis'| == |phis|
      invariant PhiJustified(df, live, kills, phis') && NoDoublePhi(phis') && OnlyChanges(phis, phis', v)
      invariant forall z: nat :: Defines(kills, phis, z, v) ==> Defines(kills, phis', z, v)
      invariant forall z: nat :: z in work' ==> z in work || HasPhi(phis', z, v)
      invariant work <= work' && Without(phis', v) <= Without(phis, v) && (phis' == phis ==> work' == work)
      invariant phis' != phis ==> Without(phis', v) < Without(phis, v)
      invariant Pushed(df, live, kills, phis', v, work' + {n})
      invariant forall y: nat :: y in frontier - todo && v in live[y] ==> HasPhi(phis', y, v)
      decreases todo
    {
      var y :| y in todo;
      todo := todo - {y};
      if v !in phis'[y] && v in live[y] {
        AddPhi(df, live, kills, phis', n, y, v);
        phis' := phis'[y := [v] + phis'[y]];
        if v !in kills[y] {
          work' := work' + {y};
        }
      }
    }
  }

  /** The worklist for one variable. */
  method PlaceVariable(df: seq<set<nat>>, live: seq<set<nat>>, kills: seq<set<nat>>, phis: seq<seq<nat>>, v: nat)
    returns (phis': seq<seq<nat>>)
    requires |df| == |live| == |kills| == |phis|
    requires forall x, y :: 0 <= x < |df| && y in df[x] ==> y < |phis|
    requires PhiJustified(df, live, kills, phis) && NoDoublePhi(phis) && forall y: nat :: !HasPhi(phis, y, v)
    ensures |phis'| == |phis| && PhiJustified(df, live, kills, phis') && NoDoublePhi(phis')
    ensures OnlyChanges(phis, phis', v)
    ensures Pushed(df, live, kills, phis', v, {})
  {
    hide PhiJustified, NoDoublePhi, OnlyChanges;
    assert OnlyChanges(phis, phis, v) by { OnlyRefl(phis, v); }
    phis' := phis;
    var work := set x | x in Below(|kills|) && v in kills[x];
    while work != {}
      invariant |phis'| == |phis| && PhiJustified(df, live, kills, phis') && NoDoublePhi(phis')
      invariant OnlyChanges(phis, phis', v)
      invariant Pushed(df, live, kills, phis', v, work)
      invariant forall x: nat :: x in work ==> Defines(kills, phis', x, v)
      decreases Without(phis', v), work
    {
      var n :| n in work;
      ghost var before := phis';
      work := work - {n};
      PushedWider(df, live, kills, phis', v, work, n);
      phis', work := PushThrough(df[n], df, live, kills, phis', n, v, work);
      OnlyTrans(phis, before, phis', v);
    }
  }

  lemma PushedWider(df: seq<set<nat>>, live: seq<set<nat>>, kills: seq<set<nat>>, phis: seq<seq<nat>>, v: nat,
                    work: set<nat>, n: nat)
    requires Pushed(df, live, kills, phis, v, work) || Pushed(df, live, kills, phis, v, work + {n})
    ensures Pushed(df, live, kills, phis, v, work + {n})
  {
  }

  lemma OnlyRefl(phis: seq<seq<nat>>, v: nat)
    ensures OnlyChanges(phis, phis, v)
  {
  }

  lemma OnlyTrans(a: seq<seq<nat>>, b: seq<seq<nat>>, c: seq<seq<nat>>, v: nat)
    requires OnlyChanges(a, b, v) && OnlyChanges(b, c, v)
    ensures OnlyChanges(a, c, v)
  {
  }

  /** insert_phi_nodes: every variable in turn. */
  method InsertPhis(df: seq<set<nat>>, live: seq<set<nat>>, kills: seq<set<nat>>, vars: nat)
    returns (phis: seq<seq<nat>>)
    requires |df| == |live| == |kills|
    requires forall x, y :: 0 <= x < |df| && y in df[x] ==> y < |df|
    requires forall x, v :: 0 <= x < |kills| && v in kills[x] ==> v < vars
    ensures |phis| == |df| && NoDoublePhi(phis)
    ensures PhiClosed(df, live, kills, phis) && PhiJustified(df, live, kills, phis)
    ensures forall y: nat, v: nat :: HasPhi(phis, y, v) ==> v < vars && v in live[y]
  {
    phis := seq(|df|, i => []);
    var v := 0;
    while v < vars
      invariant 0 <= v <= vars && |phis| == |df| && NoDoublePhi(phis) && PhiJustified(df, live, kills, phis)
      invariant forall y: nat, u: nat :: HasPhi(phis, y, u) ==> u < v
      invariant forall u: nat :: u < v ==> Pushed(df, live, kills, phis, u, {})
    {
      ghost var before := phis;
      phis := PlaceVariable(df, live, kills, phis, v);
      forall u: nat | u < v ensures Pushed(df, live, kills, phis, u, {}) {
        PushedKept(df, live, kills, before, phis, u, v);
      }
      v := v + 1;
    }
    PlacedAll(df, live, kills, phis, vars);
  }

  lemma PushedKept(df: seq<set<nat>>, live: seq<set<nat>>, kills: seq<set<nat>>, phis: seq<seq<nat>>,
                   phis': seq<seq<nat>>, u: nat, v: nat)
    requires OnlyChanges(phis, phis', v) && u != v && Pushed(df, live, kills, phis, u, {})
    ensures Pushed(df, live, kills, phis', u, {})
  {
    forall x: nat ensures Defines(kills, phis', x, u) <==> Defines(kills, phis, x, u) {
      assert HasPhi(phis', x, u) <==> HasPhi(phis, x, u);
    }
  }

  lemma PlacedAll(df: seq<set<nat>>, live: seq<set<nat>>, kills: seq<set<nat>>, phis: seq<seq<nat>>, vars: nat)
    requires PhiJustified(df, live, kills, phis) && forall y: nat, u: nat :: HasPhi(phis, y, u) ==> u < vars
    requires forall u: nat :: u < vars ==> Pushed(df, live, kills, phis, u, {})
    requires forall x, v :: 0 <= x < |kills| && v in kills[x] ==> v < vars
    ensures PhiClosed(df, live, kills, phis)
    ensures forall y: nat, v: nat :: HasPhi(phis, y, v) ==> y < |live| && v in live[y]
  {
    forall y: nat, v: nat | HasPhi(phis, y, v) ensures y < |live| && v in live[y] {
      var chain :| |chain| > 1 && chain[|chain| - 1] == y && FrontierChain(df, live, kills, chain, v);
    }
    forall x: nat, y: nat, v: nat | x < |df| && y < |live| && Defines(kills, phis, x, v) && y in df[x] && v in live[y]
      ensures HasPhi(phis, y, v)
    {
      assert v < vars;
      assert Pushed(df, live, kills, phis, v, {});
    }
  }
}
