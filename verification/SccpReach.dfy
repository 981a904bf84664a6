/** Where the solver of opt/sccp.c looks at more than the executable blocks: what a changed
    variable is read by is evaluated wherever it stands. */
module SccpReach {
  import opened Cfg
  import opened Words
  import opened Sccp
  import opened SccpSolver

  /** The equations of the executable blocks alone. */
  ghost predicate ExecutableOnly(p: Program, q: State) {
    && p.Valid() && Started(p, q.info) && p.g.entry in q.visited
    && (forall s, t :: (s, t) in q.exec ==> t in q.visited)
    && forall r :: r in p.Refs() && r.block in q.visited ==> Satisfied(p, q, r)
  }

  /** Block 2 is never entered, and it reads a variable that block 1 defines. */
  function Bypass(): Graph {
    Graph(5, [Edge(0, 1), Edge(1, 4), Edge(1, 2), Edge(2, 3), Edge(2, 4), Edge(3, 4)],
      [[0], [1, 2], [3, 4], [5], []], [[], [0], [2], [3], [1, 4, 5]], 0, 4)
  }

  function Unentered(): Program {
    Program(Bypass(),
      [Block([], [Goto(1)]), Block([], [Move(0, 1), If(Eq, 1, 1, 4, 2)]), Block([], [If(Eq, 0, 1, 3, 4)]),
       Block([], [Goto(4)]), Block([], [])],
      2, map[1 := 1])
  }

  lemma BypassDistinct()
    ensures Bypass().ListsDistinct()
  {
  }

  lemma BypassListed(e: nat)
    requires e < 6
    ensures var g := Bypass(); e in g.succs[g.edges[e].src] && e in g.preds[g.edges[e].dest]
  {
    var g := Bypass();
    assert g.succs[1][1] == 2 && g.succs[2][1] == 4 && g.preds[4][1] == 4 && g.preds[4][2] == 5;
    assert g.succs[0][0] == 0 && g.succs[1][0] == 1 && g.succs[2][0] == 3 && g.succs[3][0] == 5;
    assert g.preds[1][0] == 0 && g.preds[2][0] == 2 && g.preds[3][0] == 3 && g.preds[4][0] == 1;
  }

  lemma BypassEnds(b: nat)
    requires b < 5
    ensures var g := Bypass();
            && (forall k :: 0 <= k < |g.succs[b]| ==> g.succs[b][k] < 6 && g.edges[g.succs[b][k]].src == b)
            && (forall k :: 0 <= k < |g.preds[b]| ==> g.preds[b][k] < 6 && g.edges[g.preds[b][k]].dest == b)
  {
  }

  lemma BypassShape()
    ensures var g := Bypass();
            && g.blocks == 5 && |g.edges| == 6 && |g.succs| == |g.preds| == 5 && g.entry == 0 && g.exit == 4
            && g.preds[0] == [] && g.succs[4] == []
            && forall e :: 0 <= e < 6 ==> g.edges[e].src < 5 && g.edges[e].dest < 5
  {
  }

  lemma BypassValid()
    ensures Bypass().Valid()
  {
    hide Bypass, Graph.ListsDistinct;
    BypassShape();
    BypassDistinct();
    var g := Bypass();
    forall e: nat | e < 6 ensures e in g.succs[g.edges[e].src] && e in g.preds[g.edges[e].dest] {
      BypassListed(e);
    }
    forall b: nat | b < 5
      ensures (forall k :: 0 <= k < |g.succs[b]| ==> g.succs[b][k] < 6 && g.edges[g.succs[b][k]].src == b)
      ensures (forall k :: 0 <= k < |g.preds[b]| ==> g.preds[b][k] < 6 && g.edges[g.preds[b][k]].dest == b)
    {
      BypassEnds(b);
    }
  }

  lemma UnenteredRefs(r: Ref)
    ensures r in Unentered().Refs() <==>
            r in {InstAt(0, 0), InstAt(1, 0), InstAt(1, 1), InstAt(2, 0), InstAt(3, 0)}
  {
    hide Bypass;
    var p := Unentered();
    var code := p.code;
    assert |code| == 5 && |code[0].phis| == |code[1].phis| == |code[2].phis| == |code[3].phis| == |code[4].phis| == 0;
    assert |code[0].body| == 1 && |code[1].body| == 2 && |code[2].body| == |code[3].body| == 1 && |code[4].body| == 0;
    HasRef(p, 0, 0);
    HasRef(p, 1, 0);
    HasRef(p, 1, 1);
    HasRef(p, 2, 0);
    HasRef(p, 3, 0);
  }

  lemma UnenteredValid()
    ensures Unentered().Valid() && Unentered().Defined(0) && !Unentered().Defined(1)
  {
    hide Program.Refs, Graph.Valid;
    var p := Unentered();
    BypassValid();
    forall r | r in p.Refs() ensures p.RefOk(r) && (p.DefOf(r).Var? ==> r == InstAt(1, 0) && p.DefOf(r).v == 0) {
      UnenteredRefs(r);
    }
    UnenteredRefs(InstAt(1, 0));
    assert p.DefOf(InstAt(1, 0)) == Var(0);
  }

  function Small(): State {
    State([Info(Constant, Word(1)), Info(Constant, Word(1))], {(0, 1), (1, 4)}, {0, 1, 4}, {}, {})
  }

  lemma SmallSolves()
    ensures ExecutableOnly(Unentered(), Small())
  {
    hide Program.Refs, Program.Valid, Program.Defined, Graph.Valid;
    var p, q := Unentered(), Small();
    UnenteredValid();
    assert InitInfo(p, 0).level.Undef? && InitInfo(p, 1) == Info(Constant, Word(1));
    forall r | r in p.Refs() && r.block in q.visited ensures Satisfied(p, q, r) {
      UnenteredRefs(r);
    }
  }

  /** Every solution of the solver's equations, and so what it returns, visits block 3, which
      is entered from block 2 alone; a smaller solution of the executable blocks' equations
      does not. */
  lemma LooksFurther(st: State)
    requires IsSolution(Unentered(), st)
    ensures ExecutableOnly(Unentered(), Small()) && 2 !in Small().visited && 3 !in Small().visited
    ensures 3 in st.visited && !(st.visited <= Small().visited)
  {
    hide Program.Valid, Program.Defined, Program.Refs, Graph.Valid;
    var p := Unentered();
    SmallSolves();
    UnenteredValid();
    UnenteredRefs(InstAt(0, 0));
    UnenteredRefs(InstAt(1, 0));
    UnenteredRefs(InstAt(2, 0));
    assert InitInfo(p, 0).level.Undef? && InitInfo(p, 1) == Info(Constant, Word(1));
    assert Active(p, st.info, st.visited, InstAt(0, 0));
    assert Satisfied(p, st, InstAt(0, 0));
    assert (0, 1) in st.exec;
    assert Satisfied(p, st, InstAt(1, 0));
    assert Leq(Known(1), Vals(st.info, 1)) && Leq(Vals(st.info, 1), Vals(st.info, 0));
    assert 0 in p.Reads(InstAt(2, 0)) by { assert p.Reads(InstAt(2, 0))[0] == 0; }
    assert Raised(p, st.info, InstAt(2, 0));
    assert Satisfied(p, st, InstAt(2, 0));
    assert 3 in JumpTargets(p, st.info, InstAt(2, 0));
    assert (2, 3) in st.exec;
  }
}
