/** The recursion over the dominator tree, and what it leaves recorded. */
module Rewrite {
  import opened Cfg
  import opened MustFlow
  import opened Dominance
  import opened Frontier
  import opened Liveness
  import opened Renaming
  import opened Renamer

  /** c is b or lies below it in the dominator tree. */
  ghost predicate Under(g: Graph, b: nat, c: nat) {
    Live(g, c) && Dominates(g, b, c)
  }

  /** The places a visit of b's subtree may change. */
  ghost predicate Inside(p: Placed, s: Slot, b: nat)
    requires p.f.g.Valid()
  {
    if s.Arg? then
      s.block < p.f.g.blocks && s.edge < |p.f.g.preds[s.block]|
        && Under(p.f.g, b, p.f.g.edges[p.f.g.preds[s.block][s.edge]].src)
    else Under(p.f.g, b, s.block)
  }

  ghost predicate TreeFrame(p: Placed, v: Versions, w: Versions, b: nat)
    requires p.f.g.Valid()
  {
    forall s: Slot :: !Inside(p, s, b) ==> (s in w <==> s in v) && Get(w, s) == Get(v, s)
  }

  /** No block of b's subtree has been renamed yet. */
  ghost predicate Untouched(p: Placed, v: Versions, b: nat)
    requires p.f.g.Valid()
  {
    forall s: Slot :: (s.Def? || s.Implicit?) && Under(p.f.g, b, s.block) ==> s !in v
  }

  ghost predicate SubtreeRenamed(p: Placed, dom: seq<set<nat>>, idom: seq<MaybeBlock>, v: Versions, b: nat)
    requires TreeOk(p, dom, idom)
  {
    forall c: nat :: Under(p.f.g, b, c) ==> BlockRenamed(p, dom, idom, v, c)
  }

  /** A block keeps its renaming when the places it depends on keep their versions. */
  lemma RenamedKept(p: Placed, dom: seq<set<nat>>, idom: seq<MaybeBlock>, v: Versions, w: Versions, c: nat)
    requires TreeOk(p, dom, idom) && Live(p.f.g, c) && BlockRenamed(p, dom, idom, v, c)
    requires forall d: nat :: Dominates(p.f.g, d, c) ==> SameWrites(v, w, d)
    requires forall i, k :: Get(w, Use(c, i, k)) == Get(v, Use(c, i, k))
    requires forall d: nat, j: nat, i: nat :: d < p.f.g.blocks && FirstEdgeFrom(p.f.g, d, c, j) ==>
               Get(w, Arg(d, i, j)) == Get(v, Arg(d, i, j))
    ensures BlockRenamed(p, dom, idom, w, c)
  {
    hide Graph.Valid, DomExact, IdomExact, Placed.Body, AfterInst;
    EntryTopsSame(p, dom, idom, v, w, c);
    DominatesSelf(p.f.g, c);
    assert SameWrites(v, w, c);
    var tops := EntryTops(p, dom, idom, v, c);
    TopsSame(p, v, w, c, tops, |p.Body(c)|);
    UsesSame(p, v, w, c, tops);
  }

  /** A visit to the subtree of another child of b does not disturb a block that is
      not under that child. */
  lemma RenamedOutside(p: Placed, dom: seq<set<nat>>, idom: seq<MaybeBlock>, v: Versions, w: Versions, x: nat, c: nat)
    requires TreeOk(p, dom, idom) && Live(p.f.g, c) && BlockRenamed(p, dom, idom, v, c)
    requires TreeFrame(p, v, w, x) && !Dominates(p.f.g, x, c)
    ensures BlockRenamed(p, dom, idom, w, c)
  {
    hide BlockRenamed, DomExact, IdomExact, Graph.ListsDistinct;
    var g := p.f.g;
    forall d: nat | Dominates(g, d, c) ensures SameWrites(v, w, d) {
      if Dominates(g, x, d) {
        DominatesTrans(g, x, d, c);
      }
      assert forall i, k :: !Inside(p, Def(d, i, k), x) && !Inside(p, Implicit(d, i, k), x);
    }
    assert forall i, k :: !Inside(p, Use(c, i, k), x);
    forall d: nat, j: nat, i: nat | d < g.blocks && FirstEdgeFrom(g, d, c, j)
      ensures Get(w, Arg(d, i, j)) == Get(v, Arg(d, i, j))
    {
      assert !Inside(p, Arg(d, i, j), x);
    }
    RenamedKept(p, dom, idom, v, w, c);
  }

  /** Two different children of a block have no block under both. */
  lemma ChildrenApart(g: Graph, idom: seq<MaybeBlock>, b: nat, x: nat, y: nat, c: nat)
    requires g.Valid() && IdomExact(g, idom) && Live(g, x) && Live(g, y) && Live(g, c)
    requires idom[x] == Block(b) && idom[y] == Block(b) && x != y
    requires Dominates(g, x, c)
    ensures !Dominates(g, y, c)
  {
    if Dominates(g, y, c) {
      Comparable(g, x, y, c);
      if Dominates(g, x, y) {
        OneUnderOther(g, idom, b, x, y);
      } else {
        OneUnderOther(g, idom, b, y, x);
      }
    }
  }

  lemma OneUnderOther(g: Graph, idom: seq<MaybeBlock>, b: nat, x: nat, y: nat)
    requires g.Valid() && IdomExact(g, idom) && Live(g, x) && Live(g, y)
    requires idom[x] == Block(b) && idom[y] == Block(b) && x != y
    ensures !Dominates(g, x, y)
  {
    if Dominates(g, x, y) {
      assert Dominates(g, x, b);
      var es :| g.Walk(g.entry, es, x);
      DominatesAntisym(g, x, b, es);
    }
  }

  /** What lies strictly below b lies under one of its children. */
  lemma {:induction false} ChildAbove(g: Graph, dom: seq<set<nat>>, idom: seq<MaybeBlock>, b: nat, c: nat)
    returns (x: nat)
    requires g.Valid() && DomExact(g, dom) && IdomExact(g, idom) && Live(g, c) && c != g.entry
    requires StrictlyDominates(g, b, c)
    ensures x < g.blocks && Live(g, x) && idom[x] == Block(b) && Dominates(g, x, c)
    decreases |dom[c]|
  {
    IdomShrinks(g, dom, idom, c);
    DominatorsChain(g, idom, b, c);
    var d := idom[c].block;
    if d == b {
      x := c;
      DominatesSelf(g, c);
    } else {
      if d == g.entry {
        EntryHasNoDominator(g, b);
      }
      x := ChildAbove(g, dom, idom, b, d);
      DominatesTrans(g, x, d, c);
    }
  }

  lemma ChildDeeper(g: Graph, dom: seq<set<nat>>, idom: seq<MaybeBlock>, b: nat, c: nat)
    requires g.Valid() && DomExact(g, dom) && IdomExact(g, idom) && c < g.blocks && Live(g, c) && c != g.entry
    requires idom[c] == Block(b)
    ensures Live(g, b) && |dom[b]| < |dom[c]| <= g.blocks && StrictlyDominates(g, b, c) && !Dominates(g, c, b)
  {
    IdomShrinks(g, dom, idom, c);
    forall d | d in dom[c] ensures d < g.blocks {
      DominatorIsLive(g, d, c);
    }
    CardinalityMonotone(dom[c], Below(g.blocks));
    if Dominates(g, c, b) {
      var es :| g.Walk(g.entry, es, b);
      DominatesAntisym(g, b, c, es);
    }
  }

  /** The visit of the block itself: body, then phi operands of the successors. */
  /** Renaming a block changes no write of a block that strictly dominates it, and filling in
      phi operands changes none at all. */
  lemma OwnWrites(p: Placed, dom: seq<set<nat>>, idom: seq<MaybeBlock>, v0: Versions, v1: Versions, v2: Versions,
                  b: nat,
                  tops: seq<nat>)
    requires TreeOk(p, dom, idom) && b < p.f.g.blocks && Live(p.f.g, b) && |tops| == p.f.vars
    requires BodyDone(p, v0, v1, b, tops, |p.Body(b)|) && ArgFrame(p, v1, v2, b)
    ensures SameWrites(v1, v2, b)
    ensures forall c: nat :: StrictlyDominates(p.f.g, c, b) ==> SameWrites(v0, v2, c)
  {
    hide DomExact, IdomExact, Graph.Valid, Placed.Body, UsesRenamed, Written;
    forall c: nat | StrictlyDominates(p.f.g, c, b) ensures SameWrites(v0, v2, c) {
      assert SameWrites(v0, v1, c);
      assert SameWrites(v1, v2, c);
    }
  }

  lemma OwnBlock(p: Placed, dom: seq<set<nat>>, idom: seq<MaybeBlock>, v0: Versions, v1: Versions, v2: Versions, b: nat,
                 tops: seq<nat>, out: seq<nat>)
    requires TreeOk(p, dom, idom) && b < p.f.g.blocks && Live(p.f.g, b) && |tops| == |out| == p.f.vars
    requires tops == EntryTops(p, dom, idom, v0, b)
    requires BodyDone(p, v0, v1, b, tops, |p.Body(b)|) && out == TopsAt(p, v1, b, tops, |p.Body(b)|)
    requires ArgsRenamed(p, v2, b, out) && ArgFrame(p, v1, v2, b)
    ensures BlockRenamed(p, dom, idom, v2, b) && TreeFrame(p, v0, v2, b)
    ensures ExitTops(p, dom, idom, v2, b) == out
  {
    hide DomExact, IdomExact, Graph.Valid, Placed.Body, UsesRenamed, ArgsRenamed, TreeFrame;
    OwnWrites(p, dom, idom, v0, v1, v2, b, tops);
    EntryTopsSame(p, dom, idom, v0, v2, b);
    TopsSame(p, v1, v2, b, tops, |p.Body(b)|);
    UsesSame(p, v1, v2, b, tops);
    OwnFrame(p, v0, v1, v2, b);
  }

  lemma UsesSame(p: Placed, v: Versions, w: Versions, b: nat, tops: seq<nat>)
    requires p.Valid() && b < p.f.g.blocks && |tops| == p.f.vars && UsesRenamed(p, v, b, tops, |p.Body(b)|)
    requires SameWrites(v, w, b) && forall i, k :: Get(w, Use(b, i, k)) == Get(v, Use(b, i, k))
    ensures UsesRenamed(p, w, b, tops, |p.Body(b)|)
  {
    hide Placed.Valid, Placed.Body;
    BodyShape(p, b);
    forall i, k | 0 <= i < |p.Body(b)| && 0 <= k < |p.Body(b)[i].uses|
      ensures p.Body(b)[i].uses[k] < p.f.vars
      ensures Get(w, Use(b, i, k)) == TopsAt(p, w, b, tops, i)[p.Body(b)[i].uses[k]]
    {
      DefsInRange(p, b, i);
      TopsSame(p, v, w, b, tops, i);
    }
  }

  lemma OwnFrame(p: Placed, v0: Versions, v1: Versions, v2: Versions, b: nat)
    requires p.Valid() && b < p.f.g.blocks && Live(p.f.g, b) && ArgFrame(p, v1, v2, b)
    requires forall s: Slot :: s.Arg? || s.block != b || s.inst >= |p.Body(b)| ==>
               (s in v1 <==> s in v0) && Get(v1, s) == Get(v0, s)
    ensures TreeFrame(p, v0, v2, b)
  {
    hide Graph.ListsDistinct, Placed.Body;
    DominatesSelf(p.f.g, b);
  }

  lemma FrameTrans(p: Placed, u: Versions, v: Versions, w: Versions, b: nat, c: nat)
    requires p.f.g.Valid() && TreeFrame(p, u, v, b) && TreeFrame(p, v, w, c) && Dominates(p.f.g, b, c)
    ensures TreeFrame(p, u, w, b)
  {
    forall s: Slot | !Inside(p, s, b) ensures !Inside(p, s, c) {
      if Inside(p, s, c) {
        var x := if s.Arg? then p.f.g.edges[p.f.g.preds[s.block][s.edge]].src else s.block;
        DominatesTrans(p.f.g, b, c, x);
      }
    }
  }

  lemma UntouchedChild(p: Placed, idom: seq<MaybeBlock>, v: Versions, w: Versions, b: nat, x: nat, y: nat)
    requires p.f.g.Valid() && IdomExact(p.f.g, idom) && Live(p.f.g, x) && Live(p.f.g, y) && x != y
    requires idom[x] == Block(b) && idom[y] == Block(b)
    requires Untouched(p, v, y) && TreeFrame(p, v, w, x)
    ensures Untouched(p, w, y)
  {
    forall s: Slot | (s.Def? || s.Implicit?) && Under(p.f.g, y, s.block) ensures s !in w {
      ChildrenApart(p.f.g, idom, b, y, x, s.block);
      assert !Inside(p, s, x);
    }
  }

  /** The loop over the blocks, in front of block c: the children before c are done, the
      others have not been touched. */
  ghost predicate Visiting(p: Placed, dom: seq<set<nat>>, idom: seq<MaybeBlock>, v0: Versions, v: Versions, b: nat,
                           c: nat)
    requires TreeOk(p, dom, idom) && b < p.f.g.blocks && Live(p.f.g, b)
  {
    && BlockRenamed(p, dom, idom, v, b) && TreeFrame(p, v0, v, b)
    && (forall x: nat :: x < c && x < |idom| && idom[x] == Block(b) ==> SubtreeRenamed(p, dom, idom, v, x))
    && (forall x: nat :: c <= x < |idom| && idom[x] == Block(b) ==> Untouched(p, v, x))
  }

  lemma VisitingStart(p: Placed, dom: seq<set<nat>>, idom: seq<MaybeBlock>, v0: Versions, v1: Versions, v2: Versions,
                      b: nat)
    requires TreeOk(p, dom, idom) && Rooted(p.f.g, idom) && b < p.f.g.blocks && Live(p.f.g, b)
    requires BlockRenamed(p, dom, idom, v2, b) && TreeFrame(p, v0, v2, b) && Untouched(p, v0, b)
    requires ArgFrame(p, v1, v2, b)
    requires forall s: Slot :: s.Arg? || s.block != b || s.inst >= |p.Body(b)| ==>
               (s in v1 <==> s in v0) && Get(v1, s) == Get(v0, s)
    ensures Visiting(p, dom, idom, v0, v2, b, 0)
  {
    hide BlockRenamed, DomExact, Graph.Valid, Placed.Body, TreeFrame, IdomExact;
    var g := p.f.g;
    forall x: nat | x < |idom| && idom[x] == Block(b) ensures Untouched(p, v2, x) {
      IdomLength(g, idom);
      ChildDeeper(g, dom, idom, b, x);
      forall s: Slot | (s.Def? || s.Implicit?) && Under(g, x, s.block) ensures s !in v2 {
        DominatesTrans(g, b, x, s.block);
        assert s !in v0 && s.block != b;
        assert s !in v1;
      }
    }
  }

  lemma IdomLength(g: Graph, idom: seq<MaybeBlock>)
    requires IdomExact(g, idom)
    ensures |idom| == g.blocks
  {
  }

  lemma VisitingStep(p: Placed, dom: seq<set<nat>>, idom: seq<MaybeBlock>, v0: Versions, v: Versions, w: Versions,
                     b: nat, c: nat)
    requires TreeOk(p, dom, idom) && Rooted(p.f.g, idom) && b < p.f.g.blocks && Live(p.f.g, b)
    requires Visiting(p, dom, idom, v0, v, b, c) && c < |idom| && idom[c] == Block(b)
    requires TreeFrame(p, v, w, c) && SubtreeRenamed(p, dom, idom, w, c)
    ensures Visiting(p, dom, idom, v0, w, b, c + 1)
    ensures ExitTops(p, dom, idom, w, b) == ExitTops(p, dom, idom, v, b)
  {
    hide BlockRenamed, DomExact, Graph.Valid, Placed.Body, IdomExact, Untouched, TreeFrame;
    var g := p.f.g;
    IdomLength(g, idom);
    ChildDeeper(g, dom, idom, b, c);
    RenamedOutside(p, dom, idom, v, w, c, b);
    ExitOutside(p, dom, idom, v, w, c, b);
    FrameTrans(p, v0, v, w, b, c);
    forall x: nat | x < c && idom[x] == Block(b) ensures SubtreeRenamed(p, dom, idom, w, x) {
      forall y: nat | Under(g, x, y) ensures BlockRenamed(p, dom, idom, w, y) {
        ChildrenApart(g, idom, b, x, c, y);
        RenamedOutside(p, dom, idom, v, w, c, y);
      }
    }
    forall x: nat | c < x < |idom| && idom[x] == Block(b) ensures Untouched(p, w, x) {
      UntouchedChild(p, idom, v, w, b, c, x);
    }
  }

  lemma ExitOutside(p: Placed, dom: seq<set<nat>>, idom: seq<MaybeBlock>, v: Versions, w: Versions, x: nat, b: nat)
    requires TreeOk(p, dom, idom) && b < p.f.g.blocks && Live(p.f.g, b) && TreeFrame(p, v, w, x)
    requires !Dominates(p.f.g, x, b)
    ensures ExitTops(p, dom, idom, w, b) == ExitTops(p, dom, idom, v, b)
  {
    hide DomExact, Graph.Valid, Placed.Body, IdomExact;
    forall d: nat | Dominates(p.f.g, d, b) ensures SameWrites(v, w, d) {
      if Dominates(p.f.g, x, d) {
        DominatesTrans(p.f.g, x, d, b);
      }
      assert forall i, k :: !Inside(p, Def(d, i, k), x) && !Inside(p, Implicit(d, i, k), x);
    }
    EntryTopsSame(p, dom, idom, v, w, b);
    DominatesSelf(p.f.g, b);
    TopsSame(p, v, w, b, EntryTops(p, dom, idom, v, b), |p.Body(b)|);
  }

  lemma VisitingDone(p: Placed, dom: seq<set<nat>>, idom: seq<MaybeBlock>, v0: Versions, v: Versions, b: nat)
    requires TreeOk(p, dom, idom) && b < p.f.g.blocks && Live(p.f.g, b) && Visiting(p, dom, idom, v0, v, b, |idom|)
    ensures SubtreeRenamed(p, dom, idom, v, b)
  {
    hide BlockRenamed, DomExact, Graph.Valid, Placed.Body, IdomExact, Untouched;
    forall c: nat | Under(p.f.g, b, c) ensures BlockRenamed(p, dom, idom, v, c) {
      if c != b {
        if c == p.f.g.entry {
          EntryHasNoDominator(p.f.g, b);
        }
        var x := ChildAbove(p.f.g, dom, idom, b, c);
        IdomLength(p.f.g, idom);
        assert SubtreeRenamed(p, dom, idom, v, x);
      }
    }
  }

  /** rewrite_blocks: the block, the operands its successors' phis have for it, its
      children, and the stacks back to what they were. */
  method RewriteBlock(p: Placed, ghost dom: seq<set<nat>>, idom: seq<MaybeBlock>, st: State, b: nat)
    requires TreeOk(p, dom, idom) && Rooted(p.f.g, idom) && b < p.f.g.blocks && Live(p.f.g, b) && |idom| == p.f.g.blocks
    requires Stacked(p, st.stacks) && Distinct(p, st.versions, st.counts) && Untouched(p, st.versions, b)
    requires Tops(st.stacks) == EntryTops(p, dom, idom, st.versions, b)
    requires |dom| == p.f.g.blocks && |dom[b]| <= p.f.g.blocks
    modifies st
    ensures st.stacks == old(st.stacks) && Distinct(p, st.versions, st.counts)
    ensures SubtreeRenamed(p, dom, idom, st.versions, b)
    ensures TreeFrame(p, old(st.versions), st.versions, b)
    decreases p.f.g.blocks - |dom[b]|
  {
    hide Placed.Valid, Graph.Valid, DomExact, IdomExact, Distinct, Placed.Body, BodyWrites, Grown, BlockRenamed,
         SubtreeRenamed,
         TreeFrame, Untouched, Visiting, BodyDone, UsesRenamed, ArgsRenamed, ArgFrame, Rooted, EntryTops, ExitTops;
    ghost var stacks0, v0 := st.stacks, st.versions;
    Fresh(p, v0, b);
    st.RenameBody(p, b);
    ghost var stacks1, v1 := st.stacks, st.versions;
    st.FillArgs(p, b);
    OwnBlock(p, dom, idom, v0, v1, st.versions, b, Tops(stacks0), Tops(stacks1));
    BodyKeeps(p, v0, v1, b, Tops(stacks0));
    VisitingStart(p, dom, idom, v0, v1, st.versions, b);
    var c := 0;
    while c < p.f.g.blocks
      invariant 0 <= c <= p.f.g.blocks && st.stacks == stacks1 && Distinct(p, st.versions, st.counts)
      invariant Visiting(p, dom, idom, v0, st.versions, b, c)
      invariant ExitTops(p, dom, idom, st.versions, b) == Tops(stacks1)
    {
      if idom[c] == Block(b) {
        ghost var v := st.versions;
        ChildStart(p, dom, idom, v0, v, b, c);
        RewriteBlock(p, dom, idom, st, c);
        VisitingStep(p, dom, idom, v0, v, st.versions, b, c);
      } else {
        VisitingSkip(p, dom, idom, v0, st.versions, b, c);
      }
      c := c + 1;
    }
    VisitingDone(p, dom, idom, v0, st.versions, b);
    FrameOf(p, dom, idom, v0, st.versions, b, c);
    st.PopWrites(p, b, stacks0);
  }

  lemma FrameOf(p: Placed, dom: seq<set<nat>>, idom: seq<MaybeBlock>, v0: Versions, v: Versions, b: nat, c: nat)
    requires TreeOk(p, dom, idom) && b < p.f.g.blocks && Live(p.f.g, b) && Visiting(p, dom, idom, v0, v, b, c)
    ensures TreeFrame(p, v0, v, b)
  {
  }

  lemma VisitingSkip(p: Placed, dom: seq<set<nat>>, idom: seq<MaybeBlock>, v0: Versions, v: Versions, b: nat, c: nat)
    requires TreeOk(p, dom, idom) && b < p.f.g.blocks && Live(p.f.g, b) && Visiting(p, dom, idom, v0, v, b, c)
    requires c < |idom| && idom[c] != Block(b)
    ensures Visiting(p, dom, idom, v0, v, b, c + 1)
  {
    hide BlockRenamed, TreeFrame, SubtreeRenamed, Untouched, TreeOk;
  }

  lemma Fresh(p: Placed, v: Versions, b: nat)
    requires p.Valid() && b < p.f.g.blocks && Live(p.f.g, b) && Untouched(p, v, b)
    ensures forall i, k :: Def(b, i, k) !in v && Implicit(b, i, k) !in v
  {
    hide Graph.Valid;
    DominatesSelf(p.f.g, b);
  }

  lemma BodyKeeps(p: Placed, v0: Versions, v1: Versions, b: nat, tops: seq<nat>)
    requires p.Valid() && b < p.f.g.blocks && |tops| == p.f.vars && BodyDone(p, v0, v1, b, tops, |p.Body(b)|)
    ensures forall s: Slot :: s.Arg? || s.block != b || s.inst >= |p.Body(b)| ==>
              (s in v1 <==> s in v0) && Get(v1, s) == Get(v0, s)
  {
  }

  lemma ChildStart(p: Placed, dom: seq<set<nat>>, idom: seq<MaybeBlock>, v0: Versions, v: Versions, b: nat, c: nat)
    requires TreeOk(p, dom, idom) && Rooted(p.f.g, idom) && b < p.f.g.blocks && Live(p.f.g, b)
    requires Visiting(p, dom, idom, v0, v, b, c) && c < p.f.g.blocks == |idom| && idom[c] == Block(b)
    requires |dom| == p.f.g.blocks
    ensures Live(p.f.g, c) && Untouched(p, v, c) && |dom[b]| < |dom[c]| <= p.f.g.blocks
    ensures EntryTops(p, dom, idom, v, c) == ExitTops(p, dom, idom, v, b)
  {
    hide BlockRenamed, TreeFrame, SubtreeRenamed, Untouched, Graph.Valid, DomExact, IdomExact;
    ChildDeeper(p.f.g, dom, idom, b, c);
  }
}
