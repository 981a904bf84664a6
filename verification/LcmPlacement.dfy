/** The second half of lazy code motion: earliest placement, delaying it over the
    edges, and the insertion and deletion sets. */
module LcmPlacement {
  import opened Cfg
  import opened Dfs
  import opened MustFlow
  import opened WorkRing
  import opened Lcm

  /** compute_earliest for one edge. */
  function Earliest(g: Graph, ones: Bits, antin: seq<Bits>, antout: seq<Bits>, avout: seq<Bits>, kill: seq<Bits>,
                    e: nat): Bits
    requires g.Valid() && e < |g.edges| && |antin| == |antout| == |avout| == |kill| == g.blocks
  {
    var edge := g.edges[e];
    if edge.src == g.entry then antin[edge.dest]
    else if edge.dest == g.exit then {}
    else (antin[edge.dest] - avout[edge.src]) * (kill[edge.src] + (ones - antout[edge.src]))
  }

  method ComputeEarliest(g: Graph, ones: Bits, antin: seq<Bits>, antout: seq<Bits>, avout: seq<Bits>, kill: seq<Bits>,
                         earliest: array<Bits>)
    requires g.Valid() && |antin| == |antout| == |avout| == |kill| == g.blocks && earliest.Length == |g.edges|
    modifies earliest
    ensures forall e :: 0 <= e < |g.edges| ==> earliest[e] == Earliest(g, ones, antin, antout, avout, kill, e)
  {
    hide Graph.ListsDistinct, Earliest;
    var b := 0;
    while b < g.blocks
      invariant 0 <= b <= g.blocks
      invariant forall e :: 0 <= e < |g.edges| && g.edges[e].dest < b ==>
                  earliest[e] == Earliest(g, ones, antin, antout, avout, kill, e)
    {
      var k := 0;
      while k < |g.preds[b]|
        invariant 0 <= k <= |g.preds[b]|
        invariant forall e :: 0 <= e < |g.edges| && (g.edges[e].dest < b || e in g.preds[b][..k]) ==>
                    earliest[e] == Earliest(g, ones, antin, antout, avout, kill, e)
      {
        var e := g.preds[b][k];
        EarliestOfEdge(g, ones, antin, antout, avout, kill, e);
        if g.edges[e].src == g.entry {
          earliest[e] := antin[g.edges[e].dest];
        } else if g.edges[e].dest == g.exit {
          earliest[e] := {};
        } else {
          var difference := antin[g.edges[e].dest] - avout[g.edges[e].src];
          var temp := ones - antout[g.edges[e].src];
          earliest[e] := difference * (kill[g.edges[e].src] + temp);
        }
        assert g.preds[b][..k + 1] == g.preds[b][..k] + [e];
        k := k + 1;
      }
      assert g.preds[b][..k] == g.preds[b];
      b := b + 1;
    }
  }

  lemma EarliestOfEdge(g: Graph, ones: Bits, antin: seq<Bits>, antout: seq<Bits>, avout: seq<Bits>, kill: seq<Bits>,
                       e: nat)
    requires g.Valid() && e < |g.edges| && |antin| == |antout| == |avout| == |kill| == g.blocks
    ensures Earliest(g, ones, antin, antout, avout, kill, e) ==
            if g.edges[e].src == g.entry then antin[g.edges[e].dest]
            else if g.edges[e].dest == g.exit then {}
            else (antin[g.edges[e].dest] - avout[g.edges[e].src])
                 * (kill[g.edges[e].src] + (ones - antout[g.edges[e].src]))
  {
  }

  /** The intersection of an edge vector over a list of edges. */
  function EdgeMeet(ones: Bits, later: seq<Bits>, list: seq<nat>): Bits
    requires forall k :: 0 <= k < |list| ==> list[k] < |later|
  {
    set x | x in ones && forall k :: 0 <= k < |list| ==> x in later[list[k]]
  }

  method IntersectEdges(ones: Bits, later: array<Bits>, list: seq<nat>) returns (dst: Bits)
    requires forall k :: 0 <= k < |list| ==> list[k] < later.Length
    ensures dst == EdgeMeet(ones, later[..], list)
  {
    dst := ones;
    var k := 0;
    while k < |list|
      invariant 0 <= k <= |list|
      invariant dst == EdgeMeet(ones, later[..], list[..k])
    {
      dst := dst * later[list[k]];
      assert list[..k + 1] == list[..k] + [list[k]];
      k := k + 1;
    }
    assert list[..k] == list;
  }

  /** The edge problem, field by field. */
  ghost predicate LaterShape(g: Graph, p: Problem)
    requires g.Valid()
  {
    && p.Valid() && |p.srcs| == |g.edges| && p.active == Below(|g.edges|)
    && forall e :: 0 <= e < |g.edges| ==>
         p.srcs[e] == g.preds[g.edges[e].src] && (p.boundary[e] <==> g.edges[e].src == g.entry)
  }

  lemma LaterValid(g: Graph, ones: Bits, earliest: seq<Bits>, antloc: seq<Bits>)
    requires g.Valid() && |earliest| == |g.edges| && |antloc| == g.blocks
    requires forall e :: 0 <= e < |g.edges| ==> earliest[e] <= ones
    ensures var p := LaterProblem(g, ones, earliest, antloc);
            LaterShape(g, p) && p.ones == ones && p.gen == earliest
  {
    hide Graph.ListsDistinct;
  }

  ghost function PendingEdges(g: Graph, contents: seq<nat>): set<nat> {
    set e | e in Below(|g.edges|) && g.edges[e].src in contents
  }

  ghost predicate LaterInv(g: Graph, p: Problem, contents: seq<nat>, marks: seq<Mark>, later: seq<Bits>,
                           laterin: seq<Bits>)
    requires g.Valid()
  {
    && |later| == |g.edges| && |laterin| == g.blocks + 1
    && QueueOk(g, contents, marks)
    && (forall b: nat :: g.Normal(b) ==> marks[b] != Boundary)
    && p.Inv(later, PendingEdges(g, contents))
    && (forall b: nat :: g.Normal(b) && b !in contents ==> laterin[b] == EdgeMeet(p.ones, later, g.preds[b]))
  }

  lemma LaterStart(g: Graph, ones: Bits, earliest: seq<Bits>, antloc: seq<Bits>,
                   order: seq<nat>, marks: seq<Mark>, later: seq<Bits>, laterin: seq<Bits>)
    requires g.Valid() && |earliest| == |later| == |g.edges| && |antloc| == |marks| == g.blocks
    requires |laterin| == g.blocks + 1
    requires forall e :: 0 <= e < |g.edges| ==> earliest[e] <= ones
    requires forall e :: 0 <= e < |g.edges| ==> later[e] == if g.edges[e].src == g.entry then earliest[e] else ones
    requires NoDuplicates(order) && forall b: nat :: b in order <==> g.Normal(b)
    requires forall b :: 0 <= b < g.blocks ==> marks[b] == if b in order then Queued else Free
    ensures LaterInv(g, LaterProblem(g, ones, earliest, antloc), order, marks, later, laterin)
  {
    hide Graph.ListsDistinct, NoDuplicates, Problem.Inv, Problem.Valid, LaterProblem, PendingEdges, EdgeMeet;
    var p := LaterProblem(g, ones, earliest, antloc);
    LaterValid(g, ones, earliest, antloc);
    LaterStartPending(g, order);
    p.Start(later, PendingEdges(g, order));
  }

  lemma LaterStartPending(g: Graph, order: seq<nat>)
    requires g.Valid() && forall b: nat :: b in order <==> g.Normal(b)
    ensures forall e :: 0 <= e < |g.edges| ==> e in PendingEdges(g, order) || g.edges[e].src == g.entry
  {
    hide Graph.ListsDistinct;
    assert g.succs[g.exit] == [];
  }

  /** The loop over the outgoing edges of a block: LATER is recomputed, and the
      target of an edge that changed goes back to the ring unless it is there. */
  method PropagateLater(g: Graph, earliest: seq<Bits>, antloc: Bits, arriving: Bits, later: array<Bits>,
                        ring: Ring, marks: array<Mark>, b: nat)
    requires g.Valid() && g.Normal(b) && |earliest| == later.Length == |g.edges| && marks.Length == g.blocks
    requires ring.Valid() && ring.slots.Length == g.blocks - 2 && QueueOk(g, ring.Contents, marks[..])
    requires forall b: nat {:trigger g.Normal(b)} :: g.Normal(b) ==> marks[b] != Boundary
    modifies later, ring`qin, ring`qlen, ring`Contents, ring.slots, marks
    ensures ring.Valid() && ring.slots.Length == g.blocks - 2 && QueueOk(g, ring.Contents, marks[..])
    ensures forall b: nat :: g.Normal(b) ==> marks[b] != Boundary
    ensures forall e :: 0 <= e < |g.edges| ==>
              later[e] == if e in g.succs[b] then earliest[e] + (arriving - antloc) else old(later[e])
    ensures forall m :: m in old(ring.Contents) ==> m in ring.Contents
    ensures forall e :: 0 <= e < |g.edges| && later[e] != old(later[e]) && g.edges[e].dest != g.exit ==>
              g.edges[e].dest in ring.Contents
    ensures later[..] == old(later[..]) ==> ring.qlen == old(ring.qlen)
  {
    hide Graph.Valid, NoDuplicates, QueueOk;
    OutEdges(g, b);
    var k := 0;
    while k < |g.succs[b]|
      invariant 0 <= k <= |g.succs[b]|
      invariant ring.Valid() && ring.slots == old(ring.slots) && QueueOk(g, ring.Contents, marks[..])
      invariant forall b: nat :: g.Normal(b) ==> marks[b] != Boundary
      invariant forall e :: 0 <= e < |g.edges| ==>
                  later[e] == if e in g.succs[b][..k] then earliest[e] + (arriving - antloc) else old(later[e])
      invariant forall m :: m in old(ring.Contents) ==> m in ring.Contents
      invariant forall e :: 0 <= e < |g.edges| && later[e] != old(later[e]) && g.edges[e].dest != g.exit ==>
                  g.edges[e].dest in ring.Contents
      invariant later[..] == old(later[..]) ==> ring.qlen == old(ring.qlen)
    {
      var e := g.succs[b][k];
      var dest := g.edges[e].dest;
      assert g.succs[b][..k + 1] == g.succs[b][..k] + [e];
      var updated := earliest[e] + (arriving - antloc);
      var changed := updated != later[e];
      if dest != g.exit {
        NotBoundary(g, e);
        QueuedUnlessFree(g, ring.Contents, marks[..], dest);
      }
      later[e] := updated;
      if changed && dest != g.exit && marks[dest] == Free {
        Enqueue(g, ring, marks, dest);
      }
      k := k + 1;
    }
    assert g.succs[b][..k] == g.succs[b];
  }

  lemma OutEdges(g: Graph, b: nat)
    requires g.Valid() && b < g.blocks
    ensures |g.succs| == g.blocks
    ensures forall k :: 0 <= k < |g.succs[b]| ==>
              g.succs[b][k] < |g.edges| && g.edges[g.succs[b][k]].dest < g.blocks
  {
  }

  lemma NotBoundary(g: Graph, e: nat)
    requires g.Valid() && e < |g.edges| && g.edges[e].dest != g.exit
    ensures g.Normal(g.edges[e].dest)
  {
  }

  lemma QueuedUnlessFree(g: Graph, contents: seq<nat>, marks: seq<Mark>, b: nat)
    requires QueueOk(g, contents, marks) && g.Normal(b) && marks[b] != Boundary
    ensures marks[b] == Free || b in contents
  {
  }

  /** One round of the worklist keeps the invariant. */
  lemma LaterStep(g: Graph, p: Problem, contents: seq<nat>, marks: seq<Mark>, later: seq<Bits>, laterin: seq<Bits>,
                  b: nat, contents': seq<nat>, marks': seq<Mark>, later': seq<Bits>)
    requires g.Valid() && LaterInv(g, p, contents, marks, later, laterin)
    requires LaterShape(g, p)
    requires contents != [] && b == contents[0] && g.Normal(b)
    requires QueueOk(g, contents', marks') && (forall m: nat :: g.Normal(m) ==> marks'[m] != Boundary)
    requires forall m :: m in contents[1..] ==> m in contents'
    requires |later'| == |g.edges|
    requires forall e :: 0 <= e < |g.edges| ==>
               later'[e] == if e in g.succs[b] then p.gen[e] + (EdgeMeet(p.ones, later, g.preds[b]) * p.pass[e])
                 else later[e]
    requires forall e :: 0 <= e < |g.edges| && later'[e] != later[e] && g.edges[e].dest != g.exit ==>
               g.edges[e].dest in contents'
    ensures LaterInv(g, p, contents', marks', later', laterin[b := EdgeMeet(p.ones, later, g.preds[b])])
    ensures MustFlow.Size(later') <= MustFlow.Size(later)
    ensures later' != later ==> MustFlow.Size(later') < MustFlow.Size(later)
  {
    hide Graph.ListsDistinct, NoDuplicates, QueueOk, Problem.Inv, Problem.Valid, Problem.Recomputed, EdgeMeet,
         MustFlow.Size, PendingEdges;
    var touched := set e | e in g.succs[b];
    LaterTouched(g, p, later, b, later');
    LaterQueued(g, p, contents, b, contents', later, later');
    p.Step(later, PendingEdges(g, contents), touched, later', PendingEdges(g, contents'));
    SizeShrinks(later, later');
    LaterinKept(g, p.ones, contents, b, contents', later, later', laterin);
  }

  lemma LaterinKept(g: Graph, ones: Bits, contents: seq<nat>, b: nat, contents': seq<nat>,
                    later: seq<Bits>, later': seq<Bits>, laterin: seq<Bits>)
    requires g.Valid() && |later| == |later'| == |g.edges| && |laterin| == g.blocks + 1
    requires contents != [] && b == contents[0] && g.Normal(b)
    requires forall m: nat :: g.Normal(m) && m !in contents ==> laterin[m] == EdgeMeet(ones, later, g.preds[m])
    requires forall m :: m in contents[1..] ==> m in contents'
    requires forall e :: 0 <= e < |g.edges| && later'[e] != later[e] && g.edges[e].dest != g.exit ==>
               g.edges[e].dest in contents'
    ensures var laterin' := laterin[b := EdgeMeet(ones, later, g.preds[b])];
            forall m: nat :: g.Normal(m) && m !in contents' ==> laterin'[m] == EdgeMeet(ones, later', g.preds[m])
  {
    hide Graph.ListsDistinct;
    var laterin' := laterin[b := EdgeMeet(ones, later, g.preds[b])];
    assert contents == [b] + contents[1..];
    forall m: nat | g.Normal(m) && m !in contents' ensures laterin'[m] == EdgeMeet(ones, later', g.preds[m]) {
      assert forall k :: 0 <= k < |g.preds[m]| ==> later'[g.preds[m][k]] == later[g.preds[m][k]];
    }
  }

  lemma LaterTouched(g: Graph, p: Problem, later: seq<Bits>, b: nat, later': seq<Bits>)
    requires g.Valid() && LaterShape(g, p) && g.Normal(b) && |later| == |later'| == |g.edges|
    requires forall e :: 0 <= e < |g.edges| ==>
               later'[e] == if e in g.succs[b] then p.gen[e] + (EdgeMeet(p.ones, later, g.preds[b]) * p.pass[e])
                 else later[e]
    ensures p.Recomputed(later, (set e | e in g.succs[b]), later')
  {
    hide Graph.ListsDistinct;
    forall e | e in g.succs[b] ensures later'[e] == p.Transfer(later, e) {
      assert g.edges[e].src == b;
      assert p.Meet(later, e) == EdgeMeet(p.ones, later, g.preds[b]);
    }
  }

  lemma LaterQueued(g: Graph, p: Problem, contents: seq<nat>, b: nat, contents': seq<nat>, later: seq<Bits>,
                    later': seq<Bits>)
    requires g.Valid() && LaterShape(g, p) && g.Normal(b) && |later| == |later'| == |g.edges|
    requires contents != [] && b == contents[0]
    requires forall m :: m in contents[1..] ==> m in contents'
    requires forall e :: 0 <= e < |g.edges| && later'[e] != later[e] && g.edges[e].dest != g.exit ==>
               g.edges[e].dest in contents'
    ensures PendingEdges(g, contents) - (set e | e in g.succs[b]) <= PendingEdges(g, contents')
    ensures forall m, k :: m in p.active && !p.boundary[m] && 0 <= k < |p.srcs[m]| ==>
              later'[p.srcs[m][k]] == later[p.srcs[m][k]] || m in PendingEdges(g, contents')
  {
    hide Graph.ListsDistinct;
    assert contents == [b] + contents[1..];
    assert g.succs[g.exit] == [];
    forall m, k | m in p.active && !p.boundary[m] && 0 <= k < |p.srcs[m]|
      ensures later'[p.srcs[m][k]] == later[p.srcs[m][k]] || m in PendingEdges(g, contents')
    {
      var e := p.srcs[m][k];
      assert g.edges[e].dest == g.edges[m].src;
      assert m in g.succs[g.edges[m].src];
      assert g.edges[m].src != g.exit;
    }
  }

  /** compute_laterin; the entry of `laterin` past the last block belongs to the exit block. */
  method ComputeLaterin(g: Graph, ones: Bits, earliest: seq<Bits>, antloc: seq<Bits>, later: array<Bits>,
                        laterin: array<Bits>)
    requires g.Valid() && g.AllReachable() && g.succs[g.entry] != []
    requires |earliest| == later.Length == |g.edges| && |antloc| == g.blocks && laterin.Length == g.blocks + 1
    requires later != laterin
    requires forall e :: 0 <= e < |g.edges| ==> earliest[e] <= ones
    modifies later, laterin
    ensures var p := LaterProblem(g, ones, earliest, antloc); p.Fixpoint(later[..]) && p.Greatest(later[..])
    ensures forall b: nat :: g.Normal(b) ==> laterin[b] == EdgeMeet(ones, later[..], g.preds[b])
    ensures laterin[g.blocks] == EdgeMeet(ones, later[..], g.preds[g.exit])
  {
    hide Graph.Valid, Problem.Fixpoint, Problem.Greatest, LaterProblem, LaterInv, MustFlow.Size, ListsReachable,
         EdgesForwardOrCyclic, EdgeMeet, NoDuplicates, DepthFirstLists, Graph.AllReachable;
    ghost var p := LaterProblem(g, ones, earliest, antloc);
    LaterValid(g, ones, earliest, antloc);
    InitLater(g, ones, earliest, later);
    var pre, order := SearchForward(g);
    OrderCoversBlocks(g, order);
    var ring := new Ring(order);
    var marks := InitMarks(g, order, []);
    LaterStart(g, ones, earliest, antloc, order, marks[..], later[..], laterin[..]);
    while ring.qlen > 0
      invariant ring.Valid() && fresh(ring) && fresh(ring.slots) && ring.slots.Length == g.blocks - 2
      invariant LaterInv(g, p, ring.Contents, marks[..], later[..], laterin[..])
      decreases MustFlow.Size(later[..]), ring.qlen
    {
      LaterVisit(g, ones, earliest, antloc, later, laterin, ring, marks);
    }
    LaterDone(g, p, marks[..], later[..], laterin[..]);
    ExitListed(g);
    laterin[g.blocks] := IntersectEdges(ones, later, g.preds[g.exit]);
  }

  lemma ExitListed(g: Graph)
    requires g.Valid()
    ensures |g.preds| == g.blocks && g.exit < g.blocks
    ensures forall k :: 0 <= k < |g.preds[g.exit]| ==> g.preds[g.exit][k] < |g.edges|
  {
  }

  lemma LaterDone(g: Graph, p: Problem, marks: seq<Mark>, later: seq<Bits>, laterin: seq<Bits>)
    requires g.Valid() && LaterInv(g, p, [], marks, later, laterin)
    ensures p.Fixpoint(later) && p.Greatest(later)
    ensures forall b: nat :: g.Normal(b) ==> laterin[b] == EdgeMeet(p.ones, later, g.preds[b])
  {
    assert PendingEdges(g, []) == {};
    p.Done(later);
  }

  method InitLater(g: Graph, ones: Bits, earliest: seq<Bits>, later: array<Bits>)
    requires g.Valid() && |earliest| == later.Length == |g.edges|
    modifies later
    ensures forall e :: 0 <= e < |g.edges| ==> later[e] == if g.edges[e].src == g.entry then earliest[e] else ones
  {
    hide Graph.ListsDistinct;
    forall e | 0 <= e < |g.edges| { later[e] := ones; }
    var k := 0;
    while k < |g.succs[g.entry]|
      invariant 0 <= k <= |g.succs[g.entry]|
      invariant forall e :: 0 <= e < |g.edges| ==>
                  later[e] == if e in g.succs[g.entry][..k] then earliest[e] else ones
    {
      var e := g.succs[g.entry][k];
      assert g.succs[g.entry][..k + 1] == g.succs[g.entry][..k] + [e];
      later[e] := earliest[e];
      k := k + 1;
    }
    assert g.succs[g.entry][..k] == g.succs[g.entry];
  }

  /** One round of the worklist of compute_laterin. */
  method LaterVisit(g: Graph, ones: Bits, earliest: seq<Bits>, antloc: seq<Bits>, later: array<Bits>,
                    laterin: array<Bits>, 
                    ring: Ring, marks: array<Mark>)
    requires g.Valid() && |earliest| == later.Length == |g.edges| && |antloc| == marks.Length == g.blocks
    requires laterin.Length == g.blocks + 1 && later != laterin
    requires forall e :: 0 <= e < |g.edges| ==> earliest[e] <= ones
    requires ring.Valid() && ring.qlen > 0 && ring.slots.Length == g.blocks - 2
    requires LaterInv(g, LaterProblem(g, ones, earliest, antloc), ring.Contents, marks[..], later[..], laterin[..])
    modifies later, laterin, ring`qin, ring`qout, ring`qlen, ring`Contents, ring.slots, marks
    ensures ring.Valid() && ring.slots.Length == g.blocks - 2
    ensures LaterInv(g, LaterProblem(g, ones, earliest, antloc), ring.Contents, marks[..], later[..], laterin[..])
    ensures MustFlow.Size(later[..]) < old(MustFlow.Size(later[..])) ||
            (MustFlow.Size(later[..]) == old(MustFlow.Size(later[..])) && ring.qlen < old(ring.qlen))
  {
    hide Graph.Valid, LaterInv, MustFlow.Size, NoDuplicates, QueueOk, LaterProblem, LaterShape;
    ghost var p := LaterProblem(g, ones, earliest, antloc);
    ghost var contents, marks0, later0, laterin0 := ring.Contents, marks[..], later[..], laterin[..];
    LaterFacts(g, ones, earliest, antloc, contents, marks0, later0, laterin0);
    var b := ring.Pop();
    marks[b] := Free;
    laterin[b] := IntersectEdges(ones, later, g.preds[b]);
    PropagateLater(g, earliest, antloc[b], laterin[b], later, ring, marks, b);
    LaterValues(g, ones, earliest, antloc, b, later0, later[..]);
    LaterStep(g, p, contents, marks0, later0, laterin0, b, ring.Contents, marks[..], later[..]);
  }

  lemma LaterFacts(g: Graph, ones: Bits, earliest: seq<Bits>, antloc: seq<Bits>,
                   contents: seq<nat>, marks: seq<Mark>, later: seq<Bits>, laterin: seq<Bits>)
    requires g.Valid() && |earliest| == |g.edges| && |antloc| == g.blocks
    requires forall e :: 0 <= e < |g.edges| ==> earliest[e] <= ones
    requires LaterInv(g, LaterProblem(g, ones, earliest, antloc), contents, marks, later, laterin) && contents != []
    ensures var b := contents[0];
            && g.Normal(b) && LaterShape(g, LaterProblem(g, ones, earliest, antloc)) && |marks| == g.blocks
            && LaterProblem(g, ones, earliest, antloc).ones == ones
            && |g.preds| == g.blocks && (forall k :: 0 <= k < |g.preds[b]| ==> g.preds[b][k] < |g.edges|)
            && QueueOk(g, contents[1..], marks[b := Free])
            && (forall m: nat :: g.Normal(m) ==> marks[m] != Boundary)
  {
    hide Graph.ListsDistinct, Problem.Inv, Problem.Valid, LaterProblem, LaterShape;
    assert contents[0] in contents;
    LaterValid(g, ones, earliest, antloc);
  }

  lemma LaterValues(g: Graph, ones: Bits, earliest: seq<Bits>, antloc: seq<Bits>, b: nat, later: seq<Bits>,
                    later': seq<Bits>)
    requires g.Valid() && |earliest| == |later| == |later'| == |g.edges| && |antloc| == g.blocks && g.Normal(b)
    requires forall e :: 0 <= e < |g.edges| ==>
               later'[e] == if e in g.succs[b] then earliest[e] + (EdgeMeet(ones, later, g.preds[b]) - antloc[b])
                 else later[e]
    ensures var p := LaterProblem(g, ones, earliest, antloc);
            forall e :: 0 <= e < |g.edges| ==>
               later'[e] == if e in g.succs[b] then p.gen[e] + (EdgeMeet(p.ones, later, g.preds[b]) * p.pass[e])
                 else later[e]
  {
    hide Graph.ListsDistinct;
    var p := LaterProblem(g, ones, earliest, antloc);
    forall e | e in g.succs[b]
      ensures EdgeMeet(ones, later, g.preds[b]) - antloc[b] == EdgeMeet(p.ones, later, g.preds[b]) * p.pass[e]
    {
      assert g.edges[e].src == b;
    }
  }

  /** compute_insert_delete. */
  method ComputeInsertDelete(g: Graph, antloc: seq<Bits>, later: seq<Bits>, laterin: seq<Bits>, ins: array<Bits>,
                             del: array<Bits>)
    requires g.Valid() && |antloc| == del.Length == g.blocks && |laterin| == g.blocks + 1
    requires |later| == ins.Length == |g.edges| && ins != del
    modifies ins, del
    ensures forall b :: 0 <= b < g.blocks ==> del[b] == antloc[b] - laterin[b]
    ensures forall e :: 0 <= e < |g.edges| ==>
              ins[e] == later[e] - laterin[if g.edges[e].dest == g.exit then g.blocks else g.edges[e].dest]
  {
    hide Graph.ListsDistinct;
    var b := 0;
    while b < g.blocks
      invariant 0 <= b <= g.blocks
      invariant forall c :: 0 <= c < b ==> del[c] == antloc[c] - laterin[c]
    {
      del[b] := antloc[b] - laterin[b];
      b := b + 1;
    }
    b := 0;
    while b < g.blocks
      invariant 0 <= b <= g.blocks
      invariant forall c :: 0 <= c < g.blocks ==> del[c] == antloc[c] - laterin[c]
      invariant InsertedBelow(g, later, laterin, ins[..], b)
    {
      InsertAround(g, later, laterin, ins, b);
      b := b + 1;
    }
  }

  /** The edges into blocks before b have their insertions. */
  ghost predicate InsertedBelow(g: Graph, later: seq<Bits>, laterin: seq<Bits>, ins: seq<Bits>, b: nat)
    requires |later| == |ins| == |g.edges| && |laterin| == g.blocks + 1 && g.Valid()
  {
    forall e :: 0 <= e < |g.edges| && g.edges[e].dest < b ==>
      ins[e] == later[e] - laterin[if g.edges[e].dest == g.exit then g.blocks else g.edges[e].dest]
  }

  /** The insertions of the edges into one block. */
  method InsertAround(g: Graph, later: seq<Bits>, laterin: seq<Bits>, ins: array<Bits>, b: nat)
    requires g.Valid() && b < g.blocks && |laterin| == g.blocks + 1 && |later| == ins.Length == |g.edges|
    requires InsertedBelow(g, later, laterin, ins[..], b)
    modifies ins
    ensures InsertedBelow(g, later, laterin, ins[..], b + 1)
  {
    hide Graph.ListsDistinct;
    var k := 0;
    while k < |g.preds[b]|
      invariant 0 <= k <= |g.preds[b]|
      invariant forall e :: 0 <= e < |g.edges| && (g.edges[e].dest < b || e in g.preds[b][..k]) ==>
                  ins[e] == later[e] - laterin[if g.edges[e].dest == g.exit then g.blocks else g.edges[e].dest]
    {
      var e := g.preds[b][k];
      ins[e] := later[e] - laterin[if b == g.exit then g.blocks else b];
      assert g.preds[b][..k + 1] == g.preds[b][..k] + [e];
      k := k + 1;
    }
    assert g.preds[b][..k] == g.preds[b];
  }
}
