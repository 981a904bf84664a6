/** Lazy code motion (opt/lcm.c): the four data-flow problems, solved in place on
    vectors of bit sets, and the insertion and deletion sets they yield. */
module Lcm {
  import opened Cfg
  import opened Dfs
  import opened MustFlow
  import opened WorkRing

  /** The local properties of the blocks. Candidate expressions are instruction uids. */
  datatype Local = Local(ones: Bits, transp: seq<Bits>, antloc: seq<Bits>, avloc: seq<Bits>)
  {
    /** `antloc` and `transp` together imply `avloc`; the entry and exit blocks hold
        no candidate (their instructions are skipped). */
    ghost predicate Valid(g: Graph) {
      && |transp| == |antloc| == |avloc| == g.blocks
      && g.entry < g.blocks && g.exit < g.blocks
      && (forall b :: 0 <= b < g.blocks ==> transp[b] <= ones && antloc[b] <= ones && avloc[b] <= ones)
      && (forall b :: 0 <= b < g.blocks ==> antloc[b] * transp[b] <= avloc[b])
      && antloc[g.entry] == {} && antloc[g.exit] == {} && avloc[g.entry] == {}
    }
  }

  ghost predicate EntrySucc(g: Graph, b: nat)
    requires g.Valid() && b < g.blocks
  {
    exists k :: 0 <= k < |g.preds[b]| && g.edges[g.preds[b][k]].src == g.entry
  }

  ghost predicate ExitPred(g: Graph, b: nat)
    requires g.Valid() && b < g.blocks
  {
    exists k :: 0 <= k < |g.succs[b]| && g.edges[g.succs[b][k]].dest == g.exit
  }

  function PredBlocks(g: Graph, b: nat): (r: seq<nat>)
    requires g.Valid() && b < g.blocks
    ensures forall k :: 0 <= k < |r| ==> r[k] < g.blocks
  {
    seq(|g.preds[b]|, k requires 0 <= k < |g.preds[b]| => g.edges[g.preds[b][k]].src)
  }

  function SuccBlocks(g: Graph, b: nat): (r: seq<nat>)
    requires g.Valid() && b < g.blocks
    ensures forall k :: 0 <= k < |r| ==> r[k] < g.blocks
  {
    seq(|g.succs[b]|, k requires 0 <= k < |g.succs[b]| => g.edges[g.succs[b][k]].dest)
  }

  /** Availability: computed in the block, or coming in on every edge and not killed. */
  ghost function AvailProblem(g: Graph, ones: Bits, avloc: seq<Bits>, kill: seq<Bits>): Problem
    requires g.Valid() && |avloc| == |kill| == g.blocks
  {
    Problem(ones, g.NormalBlocks(),
            seq(g.blocks, b requires 0 <= b < g.blocks => PredBlocks(g, b)),
            seq(g.blocks, b requires 0 <= b < g.blocks => EntrySucc(g, b)),
            avloc, seq(g.blocks, b requires 0 <= b < g.blocks => ones - kill[b]))
  }

  /** Anticipability: computed first in the block, or needed on every way out and not disturbed. */
  ghost function AntProblem(g: Graph, ones: Bits, antloc: seq<Bits>, transp: seq<Bits>): Problem
    requires g.Valid() && |antloc| == |transp| == g.blocks
  {
    Problem(ones, g.NormalBlocks(),
            seq(g.blocks, b requires 0 <= b < g.blocks => SuccBlocks(g, b)),
            seq(g.blocks, b requires 0 <= b < g.blocks => ExitPred(g, b)),
            antloc, transp)
  }

  /** Delayability, over edges: earliest here, or delayable on every edge into the
      source block, which does not compute the expression itself. */
  ghost function LaterProblem(g: Graph, ones: Bits, earliest: seq<Bits>, antloc: seq<Bits>): Problem
    requires g.Valid() && |earliest| == |g.edges| && |antloc| == g.blocks
  {
    Problem(ones, Below(|g.edges|),
            seq(|g.edges|, e requires 0 <= e < |g.edges| => g.preds[g.edges[e].src]),
            seq(|g.edges|, e requires 0 <= e < |g.edges| => g.edges[e].src == g.entry),
            earliest, seq(|g.edges|, e requires 0 <= e < |g.edges| => ones - antloc[g.edges[e].src]))
  }

  /** bitmap_intersection_of_preds / _of_succs: copy the first neighbour that is not
      the boundary block, then intersect with the rest. */
  method Intersection(ones: Bits, vals: array<Bits>, neighbours: seq<nat>, skip: nat) returns (dst: Bits)
    requires forall k :: 0 <= k < |neighbours| ==> neighbours[k] < vals.Length
    requires neighbours != [] ==> exists k :: 0 <= k < |neighbours| && neighbours[k] != skip
    ensures neighbours == [] ==> dst == ones
    ensures neighbours != [] ==> forall x :: x in dst <==>
              (forall k :: 0 <= k < |neighbours| && neighbours[k] != skip ==> x in vals[neighbours[k]])
  {
    if neighbours == [] {
      dst := ones;
      return;
    }
    var i := 0;
    while neighbours[i] == skip
      invariant 0 <= i < |neighbours|
      invariant forall k :: 0 <= k < i ==> neighbours[k] == skip
      decreases |neighbours| - i
    {
      i := i + 1;
      if i == |neighbours| { assert false; }
    }
    dst := vals[neighbours[i]];
    i := i + 1;
    while i < |neighbours|
      invariant 0 < i <= |neighbours|
      invariant exists k :: 0 <= k < i && neighbours[k] != skip
      invariant forall x :: x in dst <==>
                  (forall k :: 0 <= k < i && neighbours[k] != skip ==> x in vals[neighbours[k]])
    {
      if neighbours[i] != skip {
        dst := dst * vals[neighbours[i]];
      }
      i := i + 1;
    }
  }

  lemma AvailValid(g: Graph, ones: Bits, avloc: seq<Bits>, kill: seq<Bits>)
    requires g.Valid() && |avloc| == |kill| == g.blocks
    requires forall b :: 0 <= b < g.blocks ==> avloc[b] <= ones
    ensures var p := AvailProblem(g, ones, avloc, kill);
            p.Valid() && |p.srcs| == g.blocks && p.active == g.NormalBlocks() && p.ones == ones
  {
    var p := AvailProblem(g, ones, avloc, kill);
    forall n, k | n in p.active && !p.boundary[n] && 0 <= k < |p.srcs[n]| ensures p.srcs[n][k] in p.active {
      var e := g.preds[n][k];
      assert g.succs[g.exit] == [];
      assert g.edges[e].src != g.exit;
    }
  }

  lemma AntValid(g: Graph, ones: Bits, antloc: seq<Bits>, transp: seq<Bits>)
    requires g.Valid() && |antloc| == |transp| == g.blocks
    requires forall b :: 0 <= b < g.blocks ==> antloc[b] <= ones
    ensures var p := AntProblem(g, ones, antloc, transp);
            p.Valid() && |p.srcs| == g.blocks && p.active == g.NormalBlocks() && p.ones == ones
  {
    var p := AntProblem(g, ones, antloc, transp);
    forall n, k | n in p.active && !p.boundary[n] && 0 <= k < |p.srcs[n]| ensures p.srcs[n][k] in p.active {
      var e := g.succs[n][k];
      assert g.preds[g.entry] == [];
      assert g.edges[e].dest != g.entry;
    }
  }

  /** The state of a block-indexed solver between two iterations. */
  ghost predicate BlockInv(g: Graph, p: Problem, contents: seq<nat>, marks: seq<Mark>, vals: seq<Bits>,
                           incoming: seq<Bits>)
    requires g.Valid()
  {
    && |vals| == |incoming| == g.blocks == |p.srcs|
    && p.active == g.NormalBlocks()
    && QueueOk(g, contents, marks)
    && p.Inv(vals, set b | b in contents)
    && (forall b: nat :: g.Normal(b) ==> (marks[b] == Boundary <==> p.boundary[b]))
    && (forall b: nat :: g.Normal(b) && b !in contents ==> incoming[b] == p.Meet(vals, b))
  }

  lemma BlockStart(g: Graph, p: Problem, order: seq<nat>, marks: seq<Mark>, vals: seq<Bits>, incoming: seq<Bits>)
    requires g.Valid() && p.Valid() && |p.srcs| == g.blocks && p.active == g.NormalBlocks()
    requires |vals| == |incoming| == g.blocks == |marks|
    requires forall b :: 0 <= b < g.blocks ==> vals[b] == p.ones
    requires NoDuplicates(order) && forall b: nat :: b in order <==> g.Normal(b)
    requires forall b: nat :: g.Normal(b) ==> marks[b] == if p.boundary[b] then Boundary else Queued
    ensures BlockInv(g, p, order, marks, vals, incoming)
  {
    p.Start(vals, set b | b in order);
  }

  /** One visit of a block keeps the invariant, once the blocks that depend on a changed value are queued. */
  lemma BlockStep(g: Graph, p: Problem, contents: seq<nat>, marks: seq<Mark>, vals: seq<Bits>, incoming: seq<Bits>,
                  b: nat, contents': seq<nat>, marks': seq<Mark>, vals': seq<Bits>, incoming': seq<Bits>)
    requires g.Valid() && BlockInv(g, p, contents, marks, vals, incoming)
    requires contents != [] && b == contents[0] && g.Normal(b)
    requires vals' == vals[b := p.Transfer(vals, b)] && incoming' == incoming[b := p.Meet(vals, b)]
    requires QueueOk(g, contents', marks')
    requires forall m: nat :: g.Normal(m) ==> (marks'[m] == Boundary <==> p.boundary[m])
    requires forall m: nat :: g.Normal(m) && m in contents && m != b ==> m in contents'
    requires vals'[b] != vals[b] ==>
               forall m: nat :: g.Normal(m) && !p.boundary[m] && b in p.srcs[m] ==> m in contents'
    ensures BlockInv(g, p, contents', marks', vals', incoming')
    ensures MustFlow.Size(vals') <= MustFlow.Size(vals)
    ensures vals'[b] != vals[b] ==> MustFlow.Size(vals') < MustFlow.Size(vals)
  {
    p.Step(vals, set m | m in contents, {b}, vals', set m | m in contents');
    forall m: nat | g.Normal(m) && m !in contents' ensures incoming'[m] == p.Meet(vals', m) {
      p.TransferSame(vals, vals', m);
    }
    assert forall n :: 0 <= n < |vals| ==> vals'[n] <= vals[n];
    SizeShrinks(vals, vals');
  }

  /** The neighbours of an ordinary block that is not marked are ordinary blocks. */
  lemma MeetIsIntersection(g: Graph, p: Problem, vals: seq<Bits>, b: nat, dst: Bits, skip: nat)
    requires g.Valid() && p.Valid() && |p.srcs| == g.blocks == |vals| && p.active == g.NormalBlocks() && !g.Normal(skip)
    requires g.Normal(b) && !p.boundary[b] && p.Inv(vals, p.active)
    requires forall k :: 0 <= k < |p.srcs[b]| ==> p.srcs[b][k] < g.blocks
    requires p.srcs[b] == [] ==> dst == p.ones
    requires p.srcs[b] != [] ==> forall x :: x in dst <==>
               (forall k :: 0 <= k < |p.srcs[b]| && p.srcs[b][k] != skip ==> x in vals[p.srcs[b][k]])
    ensures dst == p.Meet(vals, b)
  {
    assert forall k :: 0 <= k < |p.srcs[b]| ==> p.srcs[b][k] in p.active && p.srcs[b][k] != skip;
    assert p.srcs[b] != [] ==> vals[p.srcs[b][0]] <= p.ones;
  }

  method MarkBlocks(g: Graph, marks: array<Mark>, targets: seq<nat>)
    requires marks.Length == g.blocks && forall k :: 0 <= k < |targets| ==> targets[k] < g.blocks
    modifies marks
    ensures forall b :: 0 <= b < g.blocks ==>
              marks[b] == if b in targets then Boundary else old(marks[b])
  {
    var k := 0;
    while k < |targets|
      invariant 0 <= k <= |targets|
      invariant forall b :: 0 <= b < g.blocks ==>
                  marks[b] == if b in targets[..k] then Boundary else old(marks[b])
    {
      marks[targets[k]] := Boundary;
      assert targets[..k + 1] == targets[..k] + [targets[k]];
      k := k + 1;
    }
    assert targets[..k] == targets;
  }

  /** Every queued block is marked, and the neighbours of the boundary block get the special mark. */
  method InitMarks(g: Graph, order: seq<nat>, boundary: seq<nat>) returns (marks: array<Mark>)
    requires forall k :: 0 <= k < |order| ==> order[k] < g.blocks
    requires forall k :: 0 <= k < |boundary| ==> boundary[k] < g.blocks
    ensures fresh(marks) && marks.Length == g.blocks
    ensures forall b :: 0 <= b < g.blocks ==>
              marks[b] == if b in boundary then Boundary else if b in order then Queued else Free
  {
    marks := new Mark[g.blocks](_ => Free);
    var i := 0;
    while i < |order|
      invariant 0 <= i <= |order|
      invariant forall b :: 0 <= b < g.blocks ==> marks[b] == if b in order[..i] then Queued else Free
    {
      marks[order[i]] := Queued;
      assert order[..i + 1] == order[..i] + [order[i]];
      i := i + 1;
    }
    assert order[..i] == order;
    MarkBlocks(g, marks, boundary);
  }

  lemma EntrySuccMarked(g: Graph, b: nat)
    requires g.Valid() && b < g.blocks
    ensures b in SuccBlocks(g, g.entry) <==> EntrySucc(g, b)
  {
    hide Graph.ListsDistinct;
    if b in SuccBlocks(g, g.entry) {
      var k :| 0 <= k < |g.succs[g.entry]| && g.edges[g.succs[g.entry][k]].dest == b;
      assert g.succs[g.entry][k] in g.preds[b];
    }
    if EntrySucc(g, b) {
      var k :| 0 <= k < |g.preds[b]| && g.edges[g.preds[b][k]].src == g.entry;
      assert g.preds[b][k] in g.succs[g.entry];
      var j :| 0 <= j < |g.succs[g.entry]| && g.succs[g.entry][j] == g.preds[b][k];
      assert SuccBlocks(g, g.entry)[j] == b;
    }
  }

  lemma DependentsOfSucc(g: Graph, b: nat, m: nat)
    requires g.Valid() && b < g.blocks && m < g.blocks
    ensures b in PredBlocks(g, m) <==> m in SuccBlocks(g, b)
  {
    hide Graph.ListsDistinct;
    if b in PredBlocks(g, m) {
      var k :| 0 <= k < |g.preds[m]| && g.edges[g.preds[m][k]].src == b;
      assert g.preds[m][k] in g.succs[b];
      var j :| 0 <= j < |g.succs[b]| && g.succs[b][j] == g.preds[m][k];
      assert SuccBlocks(g, b)[j] == m;
    }
    if m in SuccBlocks(g, b) {
      var k :| 0 <= k < |g.succs[b]| && g.edges[g.succs[b][k]].dest == m;
      assert g.succs[b][k] in g.preds[m];
      var j :| 0 <= j < |g.preds[m]| && g.preds[m][j] == g.succs[b][k];
      assert PredBlocks(g, m)[j] == b;
    }
  }

  lemma BlockDone(g: Graph, p: Problem, marks: seq<Mark>, vals: seq<Bits>, incoming: seq<Bits>)
    requires g.Valid() && BlockInv(g, p, [], marks, vals, incoming)
    ensures p.Fixpoint(vals) && p.Greatest(vals)
    ensures forall b: nat :: g.Normal(b) ==> incoming[b] == p.Meet(vals, b)
  {
    var none: seq<nat> := [];
    assert (set b | b in none) == {};
    p.Done(vals);
  }

  lemma AvailStart(g: Graph, ones: Bits, avloc: seq<Bits>, kill: seq<Bits>,
                   order: seq<nat>, marks: seq<Mark>, avout: seq<Bits>, avin: seq<Bits>)
    requires g.Valid() && |avloc| == |kill| == |avout| == |avin| == |marks| == g.blocks
    requires forall b :: 0 <= b < g.blocks ==> avloc[b] <= ones && avout[b] == ones
    requires NoDuplicates(order) && forall b: nat :: b in order <==> g.Normal(b)
    requires forall b :: 0 <= b < g.blocks ==>
               marks[b] == if b in SuccBlocks(g, g.entry) then Boundary else if b in order then Queued else Free
    ensures BlockInv(g, AvailProblem(g, ones, avloc, kill), order, marks, avout, avin)
  {
    var p := AvailProblem(g, ones, avloc, kill);
    AvailValid(g, ones, avloc, kill);
    forall b: nat | g.Normal(b) ensures marks[b] == if p.boundary[b] then Boundary else Queued {
      EntrySuccMarked(g, b);
    }
    BlockStart(g, p, order, marks, avout, avin);
  }

  /** What taking the first block from the ring may rely on. */
  lemma AvailFacts(g: Graph, ones: Bits, avloc: seq<Bits>, kill: seq<Bits>,
                   contents: seq<nat>, marks: seq<Mark>, avout: seq<Bits>, avin: seq<Bits>)
    requires g.Valid() && |avloc| == |kill| == g.blocks
    requires BlockInv(g, AvailProblem(g, ones, avloc, kill), contents, marks, avout, avin) && contents != []
    ensures var p, b := AvailProblem(g, ones, avloc, kill), contents[0];
            && p.Valid() && |p.srcs| == g.blocks && p.ones == ones && p.active == g.NormalBlocks()
            && p.Inv(avout, p.active) && |marks| == g.blocks
            && g.Normal(b) && b in p.active && (marks[b] == Boundary <==> p.boundary[b])
            && p.srcs[b] == PredBlocks(g, b)
            && (p.boundary[b] ==> p.Meet(avout, b) == {})
            && (!p.boundary[b] && PredBlocks(g, b) != [] ==> PredBlocks(g, b)[0] != g.entry)
            && (forall m :: m in SuccBlocks(g, b) ==> g.Normal(m) || m == g.exit)
            && p.Transfer(avout, b) == avloc[b] + (p.Meet(avout, b) - kill[b])
            && QueueOk(g, contents[1..], if p.boundary[b] then marks else marks[b := Free])
            && (forall m: nat :: g.Normal(m) ==>
                  (marks[m] == Boundary <==> p.boundary[m]) && (b in p.srcs[m] <==> m in SuccBlocks(g, b)))
  {
    var p, b := AvailProblem(g, ones, avloc, kill), contents[0];
    assert b in contents;
    assert g.preds[g.entry] == [];
    forall m: nat | g.Normal(m) ensures b in p.srcs[m] <==> m in SuccBlocks(g, b) {
      DependentsOfSucc(g, b, m);
    }
  }

  /** Recompute the vectors of one block: empty below the entry block, else the
      intersection over the predecessors, then bitmap_ior_and_compl. */
  method AvailableTransfer(g: Graph, ghost p: Problem, ones: Bits, avloc: Bits, kill: Bits, avout: array<Bits>,
                           avin: array<Bits>, 
                           b: nat, atBoundary: bool) returns (changed: bool)
    requires g.Valid() && g.Normal(b) && avout.Length == avin.Length == g.blocks && avout != avin
    requires p.Valid() && |p.srcs| == g.blocks && p.active == g.NormalBlocks() && p.Inv(avout[..], p.active)
    requires p.srcs[b] == PredBlocks(g, b) && (atBoundary <==> p.boundary[b])
    requires p.boundary[b] ==> p.Meet(avout[..], b) == {}
    requires p.ones == ones && (!p.boundary[b] && PredBlocks(g, b) != [] ==> PredBlocks(g, b)[0] != g.entry)
    requires p.Transfer(avout[..], b) == avloc + (p.Meet(avout[..], b) - kill)
    modifies avout, avin
    ensures avin[..] == old(avin[..])[b := old(p.Meet(avout[..], b))]
    ensures avout[..] == old(avout[..])[b := old(p.Transfer(avout[..], b))]
    ensures changed <==> avout[b] != old(avout[b])
  {
    hide Graph.Valid, Problem.Valid, Problem.Inv, Problem.Meet, Problem.Transfer, PredBlocks;
    ghost var vals0, incoming0 := avout[..], avin[..];
    if atBoundary {
      avin[b] := {};
    } else {
      var dst := Intersection(ones, avout, PredBlocks(g, b), g.entry);
      MeetIsIntersection(g, p, vals0, b, dst, g.entry);
      avin[b] := dst;
    }
    assert avin[..] == incoming0[b := p.Meet(vals0, b)];
    var updated := avloc + (avin[b] - kill);
    changed := updated != avout[b];
    avout[b] := updated;
    assert avout[..] == vals0[b := p.Transfer(vals0, b)];
  }

  /** One round of the worklist of compute_available: a block leaves the ring, its
      vectors are recomputed, and a change sends its successors back to the ring. */
  method AvailableVisit(g: Graph, ones: Bits, avloc: seq<Bits>, kill: seq<Bits>, avout: array<Bits>, avin: array<Bits>,
                        ring: Ring, marks: array<Mark>)
    requires g.Valid()
    requires |avloc| == |kill| == avout.Length == avin.Length == marks.Length == g.blocks && avout != avin
    requires ring.Valid() && ring.qlen > 0 && ring.slots.Length == g.blocks - 2
    requires BlockInv(g, AvailProblem(g, ones, avloc, kill), ring.Contents, marks[..], avout[..], avin[..])
    modifies avout, avin, ring`qin, ring`qout, ring`qlen, ring`Contents, ring.slots, marks
    ensures ring.Valid() && ring.slots.Length == g.blocks - 2
    ensures BlockInv(g, AvailProblem(g, ones, avloc, kill), ring.Contents, marks[..], avout[..], avin[..])
    ensures MustFlow.Size(avout[..]) < old(MustFlow.Size(avout[..])) ||
            (MustFlow.Size(avout[..]) == old(MustFlow.Size(avout[..])) && ring.qlen < old(ring.qlen))
  {
    hide Graph.Valid, BlockInv, AvailProblem, QueueOk, MustFlow.Size, PredBlocks, SuccBlocks;
    hide Problem.Valid, Problem.Inv, Problem.Meet, Problem.Transfer;
    ghost var p := AvailProblem(g, ones, avloc, kill);
    ghost var contents, marks0, vals0, incoming0 := ring.Contents, marks[..], avout[..], avin[..];
    AvailFacts(g, ones, avloc, kill, contents, marks0, vals0, incoming0);
    var b := ring.Pop();
    if marks[b] != Boundary {
      marks[b] := Free;
    }
    var changed := AvailableTransfer(g, p, ones, avloc[b], kill[b], avout, avin, b, marks[b] == Boundary);
    if changed {
      Requeue(g, ring, marks, SuccBlocks(g, b), g.exit);
    }
    BlockStep(g, p, contents, marks0, vals0, incoming0, b, ring.Contents, marks[..], avout[..], avin[..]);
  }

  /** compute_available. */
  method ComputeAvailable(g: Graph, ones: Bits, avloc: seq<Bits>, kill: seq<Bits>, avout: array<Bits>,
                          avin: array<Bits>)
    requires g.Valid() && g.AllReachable() && g.succs[g.entry] != []
    requires |avloc| == |kill| == avout.Length == avin.Length == g.blocks && avout != avin
    requires forall b :: 0 <= b < g.blocks ==> avloc[b] <= ones
    modifies avout, avin
    ensures var p := AvailProblem(g, ones, avloc, kill);
            && p.Fixpoint(avout[..]) && p.Greatest(avout[..])
            && forall b: nat :: g.Normal(b) ==> avin[b] == p.Meet(avout[..], b)
  {
    hide Graph.Valid, BlockInv, Problem.Fixpoint, Problem.Greatest, AvailProblem, MustFlow.Size, ListsReachable,
         DepthFirstLists;
    ghost var p := AvailProblem(g, ones, avloc, kill);
    AvailValid(g, ones, avloc, kill);
    forall b | 0 <= b < g.blocks { avout[b] := ones; }
    var pre, order := SearchForward(g);
    var ring := new Ring(order);
    OrderCoversBlocks(g, order);
    var marks := InitMarks(g, order, SuccBlocks(g, g.entry));
    AvailStart(g, ones, avloc, kill, order, marks[..], avout[..], avin[..]);
    while ring.qlen > 0
      invariant ring.Valid() && fresh(ring) && fresh(ring.slots) && ring.slots.Length == g.blocks - 2
      invariant BlockInv(g, p, ring.Contents, marks[..], avout[..], avin[..])
      decreases MustFlow.Size(avout[..]), ring.qlen
    {
      AvailableVisit(g, ones, avloc, kill, avout, avin, ring, marks);
    }
    BlockDone(g, p, marks[..], avout[..], avin[..]);
  }

  lemma AntStart(g: Graph, ones: Bits, antloc: seq<Bits>, transp: seq<Bits>,
                 order: seq<nat>, marks: seq<Mark>, antin: seq<Bits>, antout: seq<Bits>)
    requires g.Valid() && |antloc| == |transp| == |antin| == |antout| == |marks| == g.blocks
    requires forall b :: 0 <= b < g.blocks ==> antloc[b] <= ones && antin[b] == ones
    requires NoDuplicates(order) && forall b: nat :: b in order <==> g.Normal(b)
    requires forall b :: 0 <= b < g.blocks ==>
               marks[b] == if b in PredBlocks(g, g.exit) then Boundary else if b in order then Queued else Free
    ensures BlockInv(g, AntProblem(g, ones, antloc, transp), order, marks, antin, antout)
  {
    var p := AntProblem(g, ones, antloc, transp);
    AntValid(g, ones, antloc, transp);
    forall b: nat | g.Normal(b) ensures marks[b] == if p.boundary[b] then Boundary else Queued {
      DependentsOfSucc(g, b, g.exit);
      if g.exit in SuccBlocks(g, b) {
        var k :| 0 <= k < |g.succs[b]| && g.edges[g.succs[b][k]].dest == g.exit;
      }
      if ExitPred(g, b) {
        var k :| 0 <= k < |g.succs[b]| && g.edges[g.succs[b][k]].dest == g.exit;
        assert SuccBlocks(g, b)[k] == g.exit;
      }
    }
    BlockStart(g, p, order, marks, antin, antout);
  }

  lemma AntFacts(g: Graph, ones: Bits, antloc: seq<Bits>, transp: seq<Bits>,
                 contents: seq<nat>, marks: seq<Mark>, antin: seq<Bits>, antout: seq<Bits>)
    requires g.Valid() && |antloc| == |transp| == g.blocks
    requires BlockInv(g, AntProblem(g, ones, antloc, transp), contents, marks, antin, antout) && contents != []
    ensures var p, b := AntProblem(g, ones, antloc, transp), contents[0];
            && p.Valid() && |p.srcs| == g.blocks && p.ones == ones && p.active == g.NormalBlocks()
            && p.Inv(antin, p.active) && |marks| == g.blocks
            && g.Normal(b) && b in p.active && (marks[b] == Boundary <==> p.boundary[b])
            && p.srcs[b] == SuccBlocks(g, b)
            && (p.boundary[b] ==> p.Meet(antin, b) == {})
            && (!p.boundary[b] && SuccBlocks(g, b) != [] ==> SuccBlocks(g, b)[0] != g.exit)
            && (forall m :: m in PredBlocks(g, b) ==> g.Normal(m) || m == g.entry)
            && p.Transfer(antin, b) == (transp[b] * p.Meet(antin, b)) + antloc[b]
            && QueueOk(g, contents[1..], if p.boundary[b] then marks else marks[b := Free])
            && (forall m: nat :: g.Normal(m) ==>
                  (marks[m] == Boundary <==> p.boundary[m]) && (b in p.srcs[m] <==> m in PredBlocks(g, b)))
  {
    var p, b := AntProblem(g, ones, antloc, transp), contents[0];
    assert b in contents;
    assert g.succs[g.exit] == [];
    forall m: nat | g.Normal(m) ensures b in p.srcs[m] <==> m in PredBlocks(g, b) {
      DependentsOfSucc(g, m, b);
    }
  }

  /** Recompute the vectors of one block: empty above the exit block, else the
      intersection over the successors, then (transp and antout) or antloc. */
  method AnticipatedTransfer(g: Graph, ghost p: Problem, ones: Bits, antloc: Bits, transp: Bits, antin: array<Bits>,
                             antout: array<Bits>, 
                             b: nat, atBoundary: bool) returns (changed: bool)
    requires g.Valid() && g.Normal(b) && antin.Length == antout.Length == g.blocks && antin != antout
    requires p.Valid() && |p.srcs| == g.blocks && p.active == g.NormalBlocks() && p.Inv(antin[..], p.active)
    requires p.srcs[b] == SuccBlocks(g, b) && (atBoundary <==> p.boundary[b])
    requires p.boundary[b] ==> p.Meet(antin[..], b) == {}
    requires p.ones == ones && (!p.boundary[b] && SuccBlocks(g, b) != [] ==> SuccBlocks(g, b)[0] != g.exit)
    requires p.Transfer(antin[..], b) == transp * p.Meet(antin[..], b) + antloc
    modifies antin, antout
    ensures antout[..] == old(antout[..])[b := old(p.Meet(antin[..], b))]
    ensures antin[..] == old(antin[..])[b := old(p.Transfer(antin[..], b))]
    ensures changed <==> antin[b] != old(antin[b])
  {
    hide Graph.Valid, Problem.Valid, Problem.Inv, Problem.Meet, Problem.Transfer, SuccBlocks;
    ghost var vals0, incoming0 := antin[..], antout[..];
    if atBoundary {
      antout[b] := {};
    } else {
      var dst := Intersection(ones, antin, SuccBlocks(g, b), g.exit);
      MeetIsIntersection(g, p, vals0, b, dst, g.exit);
      antout[b] := dst;
    }
    assert antout[..] == incoming0[b := p.Meet(vals0, b)];
    var tmp := transp * antout[b];
    var updated := tmp + antloc;
    changed := updated != antin[b];
    antin[b] := updated;
    assert antin[..] == vals0[b := p.Transfer(vals0, b)];
  }

  /** One round of the worklist of compute_antinout. */
  method AnticipatedVisit(g: Graph, ones: Bits, antloc: seq<Bits>, transp: seq<Bits>, antin: array<Bits>,
                          antout: array<Bits>, 
                          ring: Ring, marks: array<Mark>)
    requires g.Valid()
    requires |antloc| == |transp| == antin.Length == antout.Length == marks.Length == g.blocks && antin != antout
    requires ring.Valid() && ring.qlen > 0 && ring.slots.Length == g.blocks - 2
    requires BlockInv(g, AntProblem(g, ones, antloc, transp), ring.Contents, marks[..], antin[..], antout[..])
    modifies antin, antout, ring`qin, ring`qout, ring`qlen, ring`Contents, ring.slots, marks
    ensures ring.Valid() && ring.slots.Length == g.blocks - 2
    ensures BlockInv(g, AntProblem(g, ones, antloc, transp), ring.Contents, marks[..], antin[..], antout[..])
    ensures forall b :: 0 <= b < g.blocks && !g.Normal(b) ==> antin[b] == old(antin[b])
    ensures MustFlow.Size(antin[..]) < old(MustFlow.Size(antin[..])) ||
            (MustFlow.Size(antin[..]) == old(MustFlow.Size(antin[..])) && ring.qlen < old(ring.qlen))
  {
    hide Graph.Valid, BlockInv, AntProblem, QueueOk, MustFlow.Size, PredBlocks, SuccBlocks;
    hide Problem.Valid, Problem.Inv, Problem.Meet, Problem.Transfer;
    ghost var p := AntProblem(g, ones, antloc, transp);
    ghost var contents, marks0, vals0, incoming0 := ring.Contents, marks[..], antin[..], antout[..];
    AntFacts(g, ones, antloc, transp, contents, marks0, vals0, incoming0);
    var b := ring.Pop();
    if marks[b] != Boundary {
      marks[b] := Free;
    }
    var changed := AnticipatedTransfer(g, p, ones, antloc[b], transp[b], antin, antout, b, marks[b] == Boundary);
    if changed {
      Requeue(g, ring, marks, PredBlocks(g, b), g.entry);
    }
    BlockStep(g, p, contents, marks0, vals0, incoming0, b, ring.Contents, marks[..], antin[..], antout[..]);
  }

  /** compute_antinout: the blocks are queued from the last of the list to the first. */
  method ComputeAntinout(g: Graph, ones: Bits, antloc: seq<Bits>, transp: seq<Bits>, antin: array<Bits>,
                         antout: array<Bits>)
    requires g.Valid() && g.AllReachable() && g.succs[g.entry] != []
    requires |antloc| == |transp| == antin.Length == antout.Length == g.blocks && antin != antout
    requires forall b :: 0 <= b < g.blocks ==> antloc[b] <= ones
    modifies antin, antout
    ensures var p := AntProblem(g, ones, antloc, transp);
            && p.Fixpoint(antin[..]) && p.Greatest(antin[..])
            && forall b: nat :: g.Normal(b) ==> antout[b] == p.Meet(antin[..], b)
    ensures forall b :: 0 <= b < g.blocks && !g.Normal(b) ==> antin[b] == ones
  {
    hide Graph.Valid, BlockInv, Problem.Fixpoint, Problem.Greatest, AntProblem, MustFlow.Size, ListsReachable,
         EdgesForwardOrCyclic, NoDuplicates, DepthFirstLists, Graph.AllReachable, Problem.Meet, PredBlocks;
    ghost var p := AntProblem(g, ones, antloc, transp);
    AntValid(g, ones, antloc, transp);
    forall b | 0 <= b < g.blocks { antin[b] := ones; }
    var pre, rpo := SearchForward(g);
    OrderCoversBlocks(g, rpo);
    var order := Backwards(rpo);
    assert forall k :: 0 <= k < |order| ==> order[k] in order;
    var ring := new Ring(order);
    var marks := InitMarks(g, order, PredBlocks(g, g.exit));
    assert forall b :: 0 <= b < g.blocks ==> antin[b] == ones;
    AntStart(g, ones, antloc, transp, order, marks[..], antin[..], antout[..]);
    while ring.qlen > 0
      invariant ring.Valid() && fresh(ring) && fresh(ring.slots) && ring.slots.Length == g.blocks - 2
      invariant BlockInv(g, p, ring.Contents, marks[..], antin[..], antout[..])
      invariant forall b :: 0 <= b < g.blocks && !g.Normal(b) ==> antin[b] == ones
      decreases MustFlow.Size(antin[..]), ring.qlen
    {
      AnticipatedVisit(g, ones, antloc, transp, antin, antout, ring, marks);
    }
    BlockDone(g, p, marks[..], antin[..], antout[..]);
  }

  /** The list from its last element to its first. */
  method Backwards(s: seq<nat>) returns (r: seq<nat>)
    requires NoDuplicates(s)
    ensures NoDuplicates(r) && |r| == |s|
    ensures forall b :: b in r <==> b in s
  {
    r := [];
    var i := |s|;
    while i > 0
      invariant 0 <= i <= |s| && |r| == |s| - i
      invariant forall k :: 0 <= k < |r| ==> r[k] == s[|s| - 1 - k]
    {
      i := i - 1;
      r := r + [s[i]];
    }
    forall b | b in s ensures b in r {
      var k :| 0 <= k < |s| && s[k] == b;
      assert r[|s| - 1 - k] == b;
    }
  }

  lemma OrderCoversBlocks(g: Graph, order: seq<nat>)
    requires g.Valid() && g.AllReachable() && ListsReachable(g, order)
    ensures forall b: nat :: b in order <==> g.Normal(b)
    ensures NoDuplicates(order) && |order| == g.blocks - 2 && forall k :: 0 <= k < |order| ==> order[k] < g.blocks
  {
    assert forall k :: 0 <= k < |order| ==> order[k] in order;
    DistinctFit(order, g.NormalBlocks());
    CoverFits(order, g.NormalBlocks());
  }

  lemma {:induction false} CoverFits(s: seq<nat>, all: set<nat>)
    requires forall b :: b in all ==> b in s
    ensures |all| <= |s|
    decreases |s|
  {
    if s != [] {
      var n := |s| - 1;
      CoverFits(s[..n], all - {s[n]});
      if s[n] in all {
        assert all == all - {s[n]} + {s[n]};
      }
    } else {
      assert all == {};
    }
  }
}
