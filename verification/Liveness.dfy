/** Variables, instructions, and the backward liveness analysis of IR/cfg.c. */
module Liveness {
  import opened Cfg
  import opened MustFlow

  /** The variables an instruction reads and writes; a call also reads, and may
      write, every global variable. */
  datatype Inst = Inst(uses: seq<nat>, defs: seq<nat>, call: bool)

  datatype Func = Func(g: Graph, code: seq<seq<Inst>>, vars: nat, globals: seq<nat>)
  {
    ghost predicate Valid() {
      && g.Valid() && |code| == g.blocks
      && (forall k :: 0 <= k < |globals| ==> globals[k] < vars)
      && (forall b, i :: 0 <= b < g.blocks && 0 <= i < |code[b]| ==> InstOk(code[b][i]))
    }

    ghost predicate InstOk(inst: Inst) {
      && (forall k :: 0 <= k < |inst.uses| ==> inst.uses[k] < vars)
      && (forall k :: 0 <= k < |inst.defs| ==> inst.defs[k] < vars)
    }
  }

  function Elems(s: seq<nat>): set<nat> {
    set v | v in s
  }

  /** The live variables before an instruction, from those after it. */
  function Before(inst: Inst, globals: seq<nat>, after: set<nat>): set<nat> {
    (after - Elems(inst.defs)) + Elems(inst.uses) + (if inst.call then Elems(globals) else {})
  }

  /** The live variables before instruction i of a block. */
  function LiveAt(insts: seq<Inst>, globals: seq<nat>, out: set<nat>, i: nat): set<nat>
    requires i <= |insts|
    decreases |insts| - i
  {
    if i == |insts| then out else Before(insts[i], globals, LiveAt(insts, globals, out, i + 1))
  }

  /** The union of what is live into the successors. */
  function LiveOut(g: Graph, livein: seq<set<nat>>, b: nat): set<nat>
    requires g.Valid() && b < g.blocks && |livein| == g.blocks
  {
    set k, v | 0 <= k < |g.succs[b]| && v in livein[g.edges[g.succs[b][k]].dest] :: v
  }

  /** A variable is read, by this instruction or at a call, before it is written. */
  ghost predicate ReadFirst(insts: seq<Inst>, globals: seq<nat>, v: nat, i: nat)
    requires i <= |insts|
    decreases |insts| - i
  {
    i < |insts| &&
    (v in insts[i].uses || (insts[i].call && v in globals)
     || (v !in insts[i].defs && ReadFirst(insts, globals, v, i + 1)))
  }

  ghost predicate NeverWritten(insts: seq<Inst>, v: nat, i: nat) {
    forall k :: i <= k < |insts| ==> v !in insts[k].defs
  }

  /** There is a path from the start of b on which v is read before it is written:
      `blocks` are the blocks it passes through, `b` first. */
  ghost predicate NeededAlong(f: Func, blocks: seq<nat>, v: nat)
    requires f.Valid()
  {
    && blocks != [] && blocks[0] < f.g.blocks
    && if |blocks| == 1 then ReadFirst(f.code[blocks[0]], f.globals, v, 0)
       else NeverWritten(f.code[blocks[0]], v, 0)
            && (exists k :: 0 <= k < |f.g.succs[blocks[0]]| && f.g.edges[f.g.succs[blocks[0]][k]].dest == blocks[1])
            && NeededAlong(f, blocks[1..], v)
  }

  ghost predicate Needed(f: Func, b: nat, v: nat)
    requires f.Valid()
  {
    exists blocks :: NeededAlong(f, blocks, v) && blocks[0] == b
  }

  lemma {:induction false} LiveAtMeaning(insts: seq<Inst>, globals: seq<nat>, out: set<nat>, i: nat, v: nat)
    requires i <= |insts|
    ensures v in LiveAt(insts, globals, out, i) <==>
            ReadFirst(insts, globals, v, i) || (v in out && NeverWritten(insts, v, i))
    decreases |insts| - i
  {
    if i < |insts| {
      LiveAtMeaning(insts, globals, out, i + 1, v);
      assert NeverWritten(insts, v, i) <==> v !in insts[i].defs && NeverWritten(insts, v, i + 1);
    }
  }

  /** Nothing is live without a reason. */
  ghost predicate Justified(f: Func, livein: seq<set<nat>>)
    requires f.Valid() && |livein| == f.g.blocks
  {
    forall b, v :: 0 <= b < f.g.blocks && v in livein[b] ==> v < f.vars && Needed(f, b, v)
  }

  /** The equation of one block. */
  ghost predicate Closed(f: Func, livein: seq<set<nat>>, b: nat)
    requires f.Valid() && |livein| == f.g.blocks && b < f.g.blocks
  {
    LiveAt(f.code[b], f.globals, LiveOut(f.g, livein, b), 0) <= livein[b]
  }

  lemma {:induction false} ReadInRange(f: Func, b: nat, v: nat, i: nat)
    requires f.Valid() && b < f.g.blocks && i <= |f.code[b]| && ReadFirst(f.code[b], f.globals, v, i)
    ensures v < f.vars
    decreases |f.code[b]| - i
  {
    assert f.InstOk(f.code[b][i]);
    if !(v in f.code[b][i].uses || (f.code[b][i].call && v in f.globals)) {
      ReadInRange(f, b, v, i + 1);
    }
  }

  /** Adding what the equation of a block asks for adds nothing unjustified. */
  lemma AddJustified(f: Func, livein: seq<set<nat>>, b: nat)
    requires f.Valid() && |livein| == f.g.blocks && b < f.g.blocks && Justified(f, livein)
    ensures Justified(f, livein[b := livein[b] + LiveAt(f.code[b], f.globals, LiveOut(f.g, livein, b), 0)])
  {
    hide Graph.ListsDistinct;
    var out := LiveOut(f.g, livein, b);
    forall v | v in LiveAt(f.code[b], f.globals, out, 0) ensures v < f.vars && Needed(f, b, v) {
      LiveAtMeaning(f.code[b], f.globals, out, 0, v);
      if ReadFirst(f.code[b], f.globals, v, 0) {
        ReadInRange(f, b, v, 0);
        assert NeededAlong(f, [b], v);
      } else {
        var k :| 0 <= k < |f.g.succs[b]| && v in livein[f.g.edges[f.g.succs[b][k]].dest];
        var d := f.g.edges[f.g.succs[b][k]].dest;
        var rest :| NeededAlong(f, rest, v) && rest[0] == d;
        assert ([b] + rest)[1..] == rest;
        assert NeededAlong(f, [b] + rest, v);
      }
    }
  }

  lemma LiveThrough(f: Func, livein: seq<set<nat>>, b: nat, c: nat, v: nat)
    requires f.Valid() && |livein| == f.g.blocks && b < f.g.blocks && c < f.g.blocks && v in livein[c]
    requires exists k :: 0 <= k < |f.g.succs[b]| && f.g.edges[f.g.succs[b][k]].dest == c
    ensures v in LiveOut(f.g, livein, b)
  {
    hide Graph.ListsDistinct;
    var k :| 0 <= k < |f.g.succs[b]| && f.g.edges[f.g.succs[b][k]].dest == c;
    assert v in livein[f.g.edges[f.g.succs[b][k]].dest];
  }

  lemma {:induction false} ClosedContainsNeeded(f: Func, livein: seq<set<nat>>, blocks: seq<nat>, v: nat)
    requires f.Valid() && |livein| == f.g.blocks && forall b :: 0 <= b < f.g.blocks ==> Closed(f, livein, b)
    requires NeededAlong(f, blocks, v)
    ensures v in livein[blocks[0]]
    decreases |blocks|
  {
    var b := blocks[0];
    LiveAtMeaning(f.code[b], f.globals, LiveOut(f.g, livein, b), 0, v);
    if |blocks| > 1 {
      ClosedContainsNeeded(f, livein, blocks[1..], v);
      LiveThrough(f, livein, b, blocks[1], v);
    }
    assert Closed(f, livein, b);
  }

  /** compute_liveness leaves exactly the variables that some path needs. */
  ghost predicate LivenessExact(f: Func, livein: seq<set<nat>>)
    requires f.Valid()
  {
    && |livein| == f.g.blocks
    && forall b: nat, v: nat :: b < f.g.blocks ==> (v in livein[b] <==> Needed(f, b, v))
  }

  method BlockTransfer(insts: seq<Inst>, globals: seq<nat>, out: set<nat>) returns (work: set<nat>)
    ensures work == LiveAt(insts, globals, out, 0)
  {
    work := out;
    var i := |insts|;
    while i > 0
      invariant 0 <= i <= |insts| && work == LiveAt(insts, globals, out, i)
    {
      i := i - 1;
      var inst := insts[i];
      work := work - Elems(inst.defs);
      work := work + Elems(inst.uses);
      if inst.call {
        work := work + Elems(globals);
      }
    }
  }

  method UnionOfSuccs(g: Graph, livein: array<set<nat>>, b: nat) returns (work: set<nat>)
    requires g.Valid() && b < g.blocks && livein.Length == g.blocks
    ensures work == LiveOut(g, livein[..], b)
  {
    hide Graph.ListsDistinct;
    work := {};
    var k := 0;
    while k < |g.succs[b]|
      invariant 0 <= k <= |g.succs[b]|
      invariant work == set j, v | 0 <= j < k && v in livein[g.edges[g.succs[b][j]].dest] :: v
    {
      work := work + livein[g.edges[g.succs[b][k]].dest];
      k := k + 1;
    }
  }

  /** What could still be added. */
  function Missing(f: Func, livein: seq<set<nat>>): seq<set<nat>> {
    seq(|livein|, b requires 0 <= b < |livein| => Below(f.vars) - livein[b])
  }

  lemma GrowthBounded(f: Func, a: seq<set<nat>>, b: seq<set<nat>>)
    requires f.Valid() && |a| == |b| == f.g.blocks && Justified(f, b)
    requires forall k :: 0 <= k < |a| ==> a[k] <= b[k]
    ensures Size(Missing(f, b)) <= Size(Missing(f, a))
    ensures a != b ==> Size(Missing(f, b)) < Size(Missing(f, a))
  {
    hide Func.Valid, Graph.Valid, Needed;
    SizeShrinks(Missing(f, a), Missing(f, b));
    if a != b {
      var k :| 0 <= k < |a| && a[k] != b[k];
      var v :| v in b[k] && v !in a[k];
      assert v < f.vars;
      assert Missing(f, a)[k] == Below(f.vars) - a[k] && Missing(f, b)[k] == Below(f.vars) - b[k];
      assert v in Missing(f, a)[k] && v !in Missing(f, b)[k];
    }
  }

  /** One round over the blocks, from the last of the list to the first. */
  method LivenessRound(f: Func, order: seq<nat>, livein: array<set<nat>>, liveout: array<set<nat>>)
    returns (changed: bool)
    requires f.Valid() && livein.Length == liveout.Length == f.g.blocks && livein != liveout
    requires forall b: nat :: b < f.g.blocks <==> b in order
    requires Justified(f, livein[..])
    modifies livein, liveout
    ensures Justified(f, livein[..])
    ensures forall b :: 0 <= b < f.g.blocks ==> old(livein[b]) <= livein[b]
    ensures changed <==> livein[..] != old(livein[..])
    ensures !changed ==> forall b: nat :: b < f.g.blocks ==>
              Closed(f, livein[..], b) && liveout[b] == LiveOut(f.g, livein[..], b)
  {
    hide Graph.Valid, Needed, LiveAt, LiveOut, Justified;
    changed := false;
    var i := |order|;
    while i > 0
      invariant 0 <= i <= |order|
      invariant Justified(f, livein[..])
      invariant forall b :: 0 <= b < f.g.blocks ==> old(livein[b]) <= livein[b]
      invariant changed <==> livein[..] != old(livein[..])
      invariant !changed ==> forall b: nat :: b in order[i..] ==>
                  b < f.g.blocks && Closed(f, livein[..], b) && liveout[b] == LiveOut(f.g, livein[..], b)
    {
      i := i - 1;
      var b := order[i];
      assert b in order;
      assert order[i..] == [b] + order[i + 1..];
      var out := UnionOfSuccs(f.g, livein, b);
      liveout[b] := out;
      var work := BlockTransfer(f.code[b], f.globals, out);
      AddJustified(f, livein[..], b);
      ghost var before := livein[..];
      if !(work <= livein[b]) {
        changed := true;
        var v :| v in work && v !in livein[b];
        livein[b] := livein[b] + work;
        assert v in livein[b] && v !in old(livein[b]);
      } else {
        assert livein[b] + work == livein[b];
      }
      assert livein[..] == before[b := before[b] + work];
    }
    assert order[0..] == order;
  }

  /** compute_liveness: rounds over the blocks until a round adds nothing. `order` is
      the list of all blocks that the search gives. */
  method ComputeLiveness(f: Func, order: seq<nat>) returns (live: seq<set<nat>>, liveOut: seq<set<nat>>)
    requires f.Valid()
    requires forall b: nat :: b < f.g.blocks <==> b in order
    ensures LivenessExact(f, live)
    ensures |liveOut| == f.g.blocks && forall b: nat :: b < f.g.blocks ==> liveOut[b] == LiveOut(f.g, live, b)
  {
    hide Graph.Valid, Needed, LiveAt, LiveOut, MustFlow.Size;
    var n := f.g.blocks;
    var livein, liveout := new set<nat>[n](_ => {}), new set<nat>[n](_ => {});
    var changed := true;
    while changed
      invariant Justified(f, livein[..])
      invariant !changed ==> forall b: nat :: b < n ==>
                  Closed(f, livein[..], b) && liveout[b] == LiveOut(f.g, livein[..], b)
      decreases Size(Missing(f, livein[..])), if changed then 1 else 0
    {
      ghost var before := livein[..];
      changed := LivenessRound(f, order, livein, liveout);
      GrowthBounded(f, before, livein[..]);
    }
    live, liveOut := livein[..], liveout[..];
    forall b: nat, v: nat | b < n ensures v in live[b] <==> Needed(f, b, v) {
      NeededIsLive(f, live, b, v);
    }
  }

  lemma NeededIsLive(f: Func, live: seq<set<nat>>, b: nat, v: nat)
    requires f.Valid() && |live| == f.g.blocks && b < f.g.blocks && Justified(f, live)
    requires forall c: nat :: c < f.g.blocks ==> Closed(f, live, c)
    ensures v in live[b] <==> Needed(f, b, v)
  {
    if Needed(f, b, v) {
      var blocks :| NeededAlong(f, blocks, v) && blocks[0] == b;
      ClosedContainsNeeded(f, live, blocks, v);
    }
  }

  /** The exact result satisfies the equations that the SSA construction uses. */
  lemma ExactIsClosed(f: Func, live: seq<set<nat>>, b: nat)
    requires f.Valid() && LivenessExact(f, live) && b < f.g.blocks
    ensures live[b] == LiveAt(f.code[b], f.globals, LiveOut(f.g, live, b), 0)
  {
    hide Graph.ListsDistinct;
    var all := LiveAt(f.code[b], f.globals, LiveOut(f.g, live, b), 0);
    assert Justified(f, live) by {
      forall c, v | 0 <= c < f.g.blocks && v in live[c] ensures v < f.vars && Needed(f, c, v) {
        var blocks :| NeededAlong(f, blocks, v) && blocks[0] == c;
        NeededInRange(f, blocks, v);
      }
    }
    AddJustified(f, live, b);
    forall v | v in live[b] ensures v in all {
      var blocks :| NeededAlong(f, blocks, v) && blocks[0] == b;
      LiveAtMeaning(f.code[b], f.globals, LiveOut(f.g, live, b), 0, v);
      if |blocks| > 1 {
        assert NeededAlong(f, blocks[1..], v) && Needed(f, blocks[1], v);
        LiveThrough(f, live, b, blocks[1], v);
      }
    }
    forall v | v in all ensures v in live[b] {
      assert v in live[b := live[b] + all][b];
    }
  }

  lemma {:induction false} NeededInRange(f: Func, blocks: seq<nat>, v: nat)
    requires f.Valid() && NeededAlong(f, blocks, v)
    ensures v < f.vars
    decreases |blocks|
  {
    if |blocks| == 1 {
      ReadInRange(f, blocks[0], v, 0);
    } else {
      NeededInRange(f, blocks[1..], v);
    }
  }
}
