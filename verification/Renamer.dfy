/** The recursive renaming itself: counters, stacks and recorded versions, changed in
    place while the dominator tree is walked. */
module Renamer {
  import opened Cfg
  import opened MustFlow
  import opened Dominance
  import opened Frontier
  import opened Liveness
  import opened Renaming

  predicate SlotOf(s: Slot, b: nat, i: nat) {
    !s.Arg? && s.block == b && s.inst == i
  }

  /** A place where variable x is written. */
  ghost predicate WritePlace(p: Placed, s: Slot, x: nat)
    requires p.Valid()
  {
    match s
    case Def(b, i, k) => b < p.f.g.blocks && i < |p.Body(b)| && k < |p.Body(b)[i].defs| && x == p.Body(b)[i].defs[k]
    case Implicit(b, i, k) => b < p.f.g.blocks && i < |p.Body(b)| && p.Body(b)[i].call && k < |p.f.globals|
      && x == p.f.globals[k]
    case _ => false
  }

  function CountOf(counts: map<nat, nat>, base: nat): nat {
    if base in counts then counts[base] else 0
  }

  /** No two places that write variables of the same source variable carry the same
      version; and every version given out is positive and already counted. */
  ghost predicate Distinct(p: Placed, v: Versions, counts: map<nat, nat>)
    requires p.Valid()
  {
    && (forall s, x: nat :: s in v && WritePlace(p, s, x) ==> x < p.f.vars && 1 <= v[s] <= CountOf(counts, p.base[x]))
    && (forall s, t, x: nat, y: nat ::
           s in v && t in v && s != t && WritePlace(p, s, x) && WritePlace(p, t, y) && p.base[x] == p.base[y] ==>
          v[s] != v[t])
  }

  /** All stacks keep what they had and hold one more element per listed variable. */
  ghost predicate Grown(before: seq<seq<nat>>, after: seq<seq<nat>>, list: seq<nat>) {
    && |before| == |after|
    && forall x :: 0 <= x < |before| ==>
         |after[x]| == |before[x]| + multiset(list)[x] && after[x][..|before[x]|] == before[x]
  }

  function Tops(stacks: seq<seq<nat>>): (r: seq<nat>)
    requires forall x :: 0 <= x < |stacks| ==> stacks[x] != []
    ensures |r| == |stacks|
  {
    seq(|stacks|, x requires 0 <= x < |stacks| => stacks[x][|stacks[x]| - 1])
  }

  ghost predicate Stacked(p: Placed, stacks: seq<seq<nat>>) {
    |stacks| == p.f.vars && forall x :: 0 <= x < |stacks| ==> stacks[x] != []
  }

  /** Only the places of instruction i of block b have changed. */
  ghost predicate OnlyInst(v: Versions, w: Versions, b: nat, i: nat) {
    forall s :: !SlotOf(s, b, i) ==> (s in v <==> s in w) && Get(v, s) == Get(w, s)
  }

  function Writes(inst: Inst, globals: seq<nat>): seq<nat> {
    inst.defs + (if inst.call then globals else [])
  }

  lemma GrownMore(before: seq<seq<nat>>, after: seq<seq<nat>>, list: seq<nat>, x: nat, n: nat)
    requires Grown(before, after, list) && x < |after|
    ensures Grown(before, after[x := after[x] + [n]], list + [x])
  {
    var after' := after[x := after[x] + [n]];
    forall y | 0 <= y < |before|
      ensures |after'[y]| == |before[y]| + multiset(list + [x])[y] && after'[y][..|before[y]|] == before[y]
    {
      assert multiset(list + [x]) == multiset(list) + multiset{x};
    }
  }

  lemma DistinctAfterWrite(p: Placed, v: Versions, counts: map<nat, nat>, s: Slot, x: nat)
    requires p.Valid() && Distinct(p, v, counts) && s !in v && WritePlace(p, s, x) && x < p.f.vars
    ensures var n := CountOf(counts, p.base[x]) + 1;
            Distinct(p, v[s := n], counts[p.base[x] := n])
  {
    var n := CountOf(counts, p.base[x]) + 1;
    var v', counts' := v[s := n], counts[p.base[x] := n];
    forall t, y: nat | t in v' && WritePlace(p, t, y)
      ensures y < p.f.vars && 1 <= v'[t] <= CountOf(counts', p.base[y])
      ensures t != s ==> t in v && v[t] == v'[t]
      ensures t != s && p.base[y] == p.base[x] ==> v'[t] < n
    {
      if t == s {
        assert y == x;
      }
    }
  }

  lemma DistinctAfterOther(p: Placed, v: Versions, counts: map<nat, nat>, s: Slot, n: nat)
    requires p.Valid() && Distinct(p, v, counts) && (s.Use? || s.Arg?)
    ensures Distinct(p, v[s := n], counts)
  {
  }

  class State {
    var counts: map<nat, nat>
    var stacks: seq<seq<nat>>
    var versions: Versions

    constructor (vars: nat)
      ensures counts == map[] && versions == map[] && stacks == seq(vars, x => [0])
    {
      counts, versions := map[], map[];
      stacks := seq(vars, x => [0]);
    }

    /** A new version for x: count it, push it, and record it at the place that is written. */
    method Write(p: Placed, s: Slot, x: nat)
      requires p.Valid() && Stacked(p, stacks) && x < p.f.vars == |p.base|
      requires Distinct(p, versions, counts) && s !in versions && WritePlace(p, s, x)
      modifies this
      ensures Stacked(p, stacks) && Distinct(p, versions, counts)
      ensures s in versions && versions == old(versions)[s := versions[s]]
      ensures Tops(stacks) == old(Tops(stacks))[x := versions[s]]
      ensures stacks == old(stacks)[x := old(stacks)[x] + [versions[s]]]
    {
      hide Placed.Valid, Distinct, WritePlace;
      DistinctAfterWrite(p, versions, counts, s, x);
      var n := CountOf(counts, p.base[x]) + 1;
      counts := counts[p.base[x] := n];
      stacks := stacks[x := stacks[x] + [n]];
      versions := versions[s := n];
    }
  
    /** The written operands of an instruction, one after the other. */
    method WriteDefs(p: Placed, b: nat, i: nat)
      requires p.Valid() && Stacked(p, stacks) && b < p.f.g.blocks && i < |p.Body(b)|
      requires Distinct(p, versions, counts) && forall k :: Def(b, i, k) !in versions
      modifies this
      ensures Stacked(p, stacks) && Distinct(p, versions, counts)
      ensures forall k :: 0 <= k < |p.Body(b)[i].defs| ==> p.Body(b)[i].defs[k] < p.f.vars
      ensures Tops(stacks) == Assign(old(Tops(stacks)), p.Body(b)[i].defs, DefVals(versions, b, i, |p.Body(b)[i].defs|))
      ensures Grown(old(stacks), stacks, p.Body(b)[i].defs)
      ensures forall k :: 0 <= k < |p.Body(b)[i].defs| ==> Def(b, i, k) in versions
      ensures forall s: Slot :: !(s.Def? && SlotOf(s, b, i)) ==>
                (s in versions <==> s in old(versions)) && Get(versions, s) == Get(old(versions), s)
    {
      hide Placed.Valid, Distinct, WritePlace, Func.InstOk, Grown, Assign, DefVals, Placed.Body;
      DefsInRange(p, b, i);
      GrownNothing(stacks);
      ghost var tops0, stacks0 := Tops(stacks), stacks;
      var defs := p.Body(b)[i].defs;
      var k := 0;
      while k < |defs|
        invariant 0 <= k <= |defs| && Stacked(p, stacks) && Distinct(p, versions, counts)
        invariant Tops(stacks) == Assign(tops0, defs[..k], DefVals(versions, b, i, k))
        invariant Grown(stacks0, stacks, defs[..k])
        invariant forall s: Slot :: !(s.Def? && SlotOf(s, b, i)) ==>
                    (s in versions <==> s in old(versions)) && Get(versions, s) == Get(old(versions), s)
        invariant forall j :: j >= k ==> Def(b, i, j) !in versions
        invariant forall j :: 0 <= j < k ==> Def(b, i, j) in versions
      {
        ghost var v0 := versions;
        DefIsPlace(p, b, i, k);
        ghost var stacks1 := stacks;
        Write(p, Def(b, i, k), defs[k]);
        GrownMore(stacks0, stacks1, defs[..k], defs[k], versions[Def(b, i, k)]);
        assert defs[..k + 1] == defs[..k] + [defs[k]];
        DefValsMore(v0, versions, b, i, k);
        AssignMore(tops0, defs[..k], DefVals(v0, b, i, k), defs[k], versions[Def(b, i, k)]);
        k := k + 1;
      }
      assert defs[..k] == defs;
    }

    /** A call writes every global; the new versions are pushed but belong to no operand. */
    method WriteGlobals(p: Placed, b: nat, i: nat)
      requires p.Valid() && Stacked(p, stacks) && b < p.f.g.blocks && i < |p.Body(b)| && p.Body(b)[i].call
      requires Distinct(p, versions, counts) && forall k :: Implicit(b, i, k) !in versions
      modifies this
      ensures Stacked(p, stacks) && Distinct(p, versions, counts)
      ensures forall k :: 0 <= k < |p.f.globals| ==> p.f.globals[k] < p.f.vars
      ensures Tops(stacks) == Assign(old(Tops(stacks)), p.f.globals, ImplicitVals(versions, b, i, |p.f.globals|))
      ensures Grown(old(stacks), stacks, p.f.globals)
      ensures forall k :: 0 <= k < |p.f.globals| ==> Implicit(b, i, k) in versions
      ensures forall s: Slot :: !(s.Implicit? && SlotOf(s, b, i)) ==>
                (s in versions <==> s in old(versions)) && Get(versions, s) == Get(old(versions), s)
    {
      hide Placed.Valid, Distinct, WritePlace, Func.InstOk, Grown, Assign, ImplicitVals, Placed.Body;
      DefsInRange(p, b, i);
      GrownNothing(stacks);
      ghost var tops0, stacks0 := Tops(stacks), stacks;
      var globals := p.f.globals;
      var k := 0;
      while k < |globals|
        invariant 0 <= k <= |globals| && Stacked(p, stacks) && Distinct(p, versions, counts)
        invariant Tops(stacks) == Assign(tops0, globals[..k], ImplicitVals(versions, b, i, k))
        invariant Grown(stacks0, stacks, globals[..k])
        invariant forall s: Slot :: !(s.Implicit? && SlotOf(s, b, i)) ==>
                    (s in versions <==> s in old(versions)) && Get(versions, s) == Get(old(versions), s)
        invariant forall j :: j >= k ==> Implicit(b, i, j) !in versions
        invariant forall j :: 0 <= j < k ==> Implicit(b, i, j) in versions
      {
        ghost var v0 := versions;
        GlobalIsPlace(p, b, i, k);
        ghost var stacks1 := stacks;
        Write(p, Implicit(b, i, k), globals[k]);
        GrownMore(stacks0, stacks1, globals[..k], globals[k], versions[Implicit(b, i, k)]);
        assert globals[..k + 1] == globals[..k] + [globals[k]];
        ImplicitValsMore(v0, versions, b, i, k);
        AssignMore(tops0, globals[..k], ImplicitVals(v0, b, i, k), globals[k], versions[Implicit(b, i, k)]);
        k := k + 1;
      }
      assert globals[..k] == globals;
    }

    /** The read operands of an instruction take the versions on top of the stacks. */
    method ReadUses(p: Placed, b: nat, i: nat)
      requires p.Valid() && Stacked(p, stacks) && b < p.f.g.blocks && i < |p.Body(b)| && Distinct(p, versions, counts)
      modifies this`versions
      ensures Distinct(p, versions, counts)
      ensures forall k :: 0 <= k < |p.Body(b)[i].uses| ==> p.Body(b)[i].uses[k] < p.f.vars
      ensures forall k :: 0 <= k < |p.Body(b)[i].uses| ==>
                Get(versions, Use(b, i, k)) == Tops(stacks)[p.Body(b)[i].uses[k]]
      ensures forall s: Slot :: !(s.Use? && SlotOf(s, b, i)) ==>
                (s in versions <==> s in old(versions)) && Get(versions, s) == Get(old(versions), s)
    {
      hide Placed.Valid, Distinct, WritePlace, Func.InstOk, Grown;
      DefsInRange(p, b, i);
      var uses := p.Body(b)[i].uses;
      var k := 0;
      while k < |uses|
        invariant 0 <= k <= |uses| && Distinct(p, versions, counts)
        invariant forall j :: 0 <= j < k ==> Get(versions, Use(b, i, j)) == Tops(stacks)[uses[j]]
        invariant forall s: Slot :: !(s.Use? && SlotOf(s, b, i)) ==>
                    (s in versions <==> s in old(versions)) && Get(versions, s) == Get(old(versions), s)
      {
        var top := stacks[uses[k]][|stacks[uses[k]]| - 1];
        DistinctAfterOther(p, versions, counts, Use(b, i, k), top);
        versions := versions[Use(b, i, k) := top];
        k := k + 1;
      }
    }

    /** One instruction: reads first, then writes, then what a call writes. */
    method RenameInst(p: Placed, b: nat, i: nat)
      requires p.Valid() && Stacked(p, stacks) && b < p.f.g.blocks && i < |p.Body(b)|
      requires Distinct(p, versions, counts) && forall k :: Def(b, i, k) !in versions && Implicit(b, i, k) !in versions
      modifies this
      ensures Stacked(p, stacks) && Distinct(p, versions, counts)
      ensures forall k :: 0 <= k < |p.Body(b)[i].uses| ==> p.Body(b)[i].uses[k] < p.f.vars
      ensures forall k :: 0 <= k < |p.Body(b)[i].uses| ==>
                Get(versions, Use(b, i, k)) == old(Tops(stacks))[p.Body(b)[i].uses[k]]
      ensures Tops(stacks) == AfterInst(p, versions, b, i, old(Tops(stacks)))
      ensures Grown(old(stacks), stacks, Writes(p.Body(b)[i], p.f.globals))
      ensures OnlyInst(old(versions), versions, b, i)
      ensures forall k :: 0 <= k < |p.Body(b)[i].defs| ==> Def(b, i, k) in versions
      ensures forall k :: p.Body(b)[i].call && 0 <= k < |p.f.globals| ==> Implicit(b, i, k) in versions
    {
      hide Placed.Valid, Distinct, WritePlace, Func.InstOk, Grown, Placed.Body, Stacked;
      DefsInRange(p, b, i);
      ReadUses(p, b, i);
      ghost var v1, stacks1 := versions, stacks;
      WriteDefs(p, b, i);
      ghost var v2, stacks2 := versions, stacks;
      if p.Body(b)[i].call {
        WriteGlobals(p, b, i);
        assert DefVals(versions, b, i, |p.Body(b)[i].defs|) == DefVals(v2, b, i, |p.Body(b)[i].defs|);
        GrownTrans(stacks1, stacks2, stacks, p.Body(b)[i].defs, p.f.globals);
      } else {
        assert Writes(p.Body(b)[i], p.f.globals) == p.Body(b)[i].defs;
      }
    }

    /** The instructions of a block in order. */
    method RenameBody(p: Placed, b: nat)
      requires p.Valid() && Stacked(p, stacks) && b < p.f.g.blocks && Distinct(p, versions, counts)
      requires forall i, k :: Def(b, i, k) !in versions && Implicit(b, i, k) !in versions
      modifies this
      ensures Stacked(p, stacks) && Distinct(p, versions, counts)
      ensures BodyDone(p, old(versions), versions, b, old(Tops(stacks)), |p.Body(b)|)
      ensures Tops(stacks) == TopsAt(p, versions, b, old(Tops(stacks)), |p.Body(b)|)
      ensures Grown(old(stacks), stacks, BodyWrites(p, b, |p.Body(b)|))
    {
      hide Placed.Valid, Distinct, WritePlace, Func.InstOk, Grown, BodyDone, OnlyInst;
      BodyShape(p, b);
      GrownNothing(stacks);
      BodyBegin(p, versions, b, Tops(stacks));
      var i := 0;
      while i < |p.Body(b)|
        invariant 0 <= i <= |p.Body(b)| && Stacked(p, stacks) && Distinct(p, versions, counts)
        invariant BodyDone(p, old(versions), versions, b, old(Tops(stacks)), i)
        invariant Tops(stacks) == TopsAt(p, versions, b, old(Tops(stacks)), i)
        invariant Grown(old(stacks), stacks, BodyWrites(p, b, i))
      {
        ghost var v, stacks1, tops1 := versions, stacks, Tops(stacks);
        NotYet(p, old(versions), versions, b, old(Tops(stacks)), i);
        RenameInst(p, b, i);
        BodyStep(p, old(versions), v, versions, b, old(Tops(stacks)), i, tops1);
        GrownTrans(old(stacks), stacks1, stacks, BodyWrites(p, b, i), Writes(p.Body(b)[i], p.f.globals));
        i := i + 1;
      }
    }

    /** The operands that the phis of the successors have for the edges out of b. */
    method FillArgs(p: Placed, b: nat)
      requires p.Valid() && Stacked(p, stacks) && b < p.f.g.blocks && Distinct(p, versions, counts)
      modifies this`versions
      ensures Distinct(p, versions, counts)
      ensures ArgsRenamed(p, versions, b, Tops(stacks))
      ensures ArgFrame(p, old(versions), versions, b)
    {
      hide Placed.Valid, Distinct, Graph.Valid, EdgeFilled, ArgsRenamed, FirstEdgeFrom;
      var g := p.f.g;
      EdgeShape(p, b);
      var k := 0;
      while k < |g.succs[b]|
        invariant 0 <= k <= |g.succs[b]| && Distinct(p, versions, counts)
        invariant forall i :: 0 <= i < k ==> EdgeFilled(p, versions, g.edges[g.succs[b][i]].dest, b, Tops(stacks))
        invariant ArgFrame(p, old(versions), versions, b)
      {
        var e := g.succs[b][k];
        var d := g.edges[e].dest;
        var j := FirstFrom(g, e);
        ghost var v0 := versions;
        FillEdge(p, b, d, j);
        ArgFrameStep(p, old(versions), v0, versions, b, d, j);
        forall i | 0 <= i < k ensures EdgeFilled(p, versions, g.edges[g.succs[b][i]].dest, b, Tops(stacks)) {
          FilledKept(p, v0, versions, g.edges[g.succs[b][i]].dest, b, Tops(stacks), d, j);
        }
        FilledNow(p, versions, d, b, Tops(stacks), j);
        k := k + 1;
      }
      AllFilled(p, versions, b, Tops(stacks));
    }

    /** One position of the phis of d. */
    method FillEdge(p: Placed, b: nat, d: nat, j: nat)
      requires p.Valid() && Stacked(p, stacks) && b < p.f.g.blocks && d < p.f.g.blocks && Distinct(p, versions, counts)
      requires FirstEdgeFrom(p.f.g, d, b, j)
      modifies this`versions
      ensures Distinct(p, versions, counts)
      ensures d < |p.phis| && forall i :: 0 <= i < |p.phis[d]| ==>
                p.phis[d][i] < p.f.vars && Get(versions, Arg(d, i, j)) == Tops(stacks)[p.phis[d][i]]
      ensures forall s: Slot :: !(s.Arg? && s.block == d && s.edge == j) ==>
                (s in versions <==> s in old(versions)) && Get(versions, s) == Get(old(versions), s)
    {
      hide Distinct, Graph.Valid;
      var i := 0;
      while i < |p.phis[d]|
        invariant 0 <= i <= |p.phis[d]| && Distinct(p, versions, counts)
        invariant forall n :: 0 <= n < i ==>
                    p.phis[d][n] < p.f.vars && Get(versions, Arg(d, n, j)) == Tops(stacks)[p.phis[d][n]]
        invariant forall s: Slot :: !(s.Arg? && s.block == d && s.edge == j) ==>
                    (s in versions <==> s in old(versions)) && Get(versions, s) == Get(old(versions), s)
      {
        var x := p.phis[d][i];
        var top := stacks[x][|stacks[x]| - 1];
        DistinctAfterOther(p, versions, counts, Arg(d, i, j), top);
        versions := versions[Arg(d, i, j) := top];
        i := i + 1;
      }
    }

    /** Take back what a block has pushed: one element per operand written. */
    method PopWrites(p: Placed, b: nat, ghost stacks0: seq<seq<nat>>)
      requires p.Valid() && b < p.f.g.blocks && Stacked(p, stacks0)
      requires Grown(stacks0, stacks, BodyWrites(p, b, |p.Body(b)|))
      modifies this`stacks
      ensures stacks == stacks0
    {
      hide Placed.Valid, Placed.Body, Grown, Popping, BodyWrites;
      BodyShape(p, b);
      assert BodyWrites(p, b, 0) == [] by { NothingWritten(p, b); }
      var i := 0;
      ghost var all := BodyWrites(p, b, |p.Body(b)|);
      PopBegin(stacks0, stacks, all);
      while i < |p.Body(b)|
        invariant 0 <= i <= |p.Body(b)| && Popping(stacks0, stacks, all, BodyWrites(p, b, i))
      {
        ghost var done := BodyWrites(p, b, i);
        WithinAll(p, b, i);
        PopList(p.Body(b)[i].defs, stacks0, all, done);
        if p.Body(b)[i].call {
          PopList(p.f.globals, stacks0, all, done + p.Body(b)[i].defs);
        }
        i := i + 1;
      }
      PopEnd(stacks0, stacks, all);
    }

    method PopList(list: seq<nat>, ghost stacks0: seq<seq<nat>>, ghost all: seq<nat>, ghost done: seq<nat>)
      requires Popping(stacks0, stacks, all, done) && multiset(done + list) <= multiset(all)
      requires forall k :: 0 <= k < |list| ==> list[k] < |stacks0|
      modifies this`stacks
      ensures Popping(stacks0, stacks, all, done + list)
    {
      hide Popping;
      var k := 0;
      assert done + list[..0] == done;
      while k < |list|
        invariant 0 <= k <= |list| && Popping(stacks0, stacks, all, done + list[..k])
      {
        var x := list[k];
        assert done + list[..k + 1] == done + list[..k] + [x];
        assert multiset(done + list) == multiset(done + list[..k + 1]) + multiset(list[k + 1..]) by {
          assert done + list == (done + list[..k + 1]) + list[k + 1..];
        }
        PopOne(stacks0, stacks, all, done + list[..k], x);
        stacks := stacks[x := stacks[x][..|stacks[x]| - 1]];
        k := k + 1;
      }
      assert done + list[..k] == done + list;
    }
  }

  /** Of everything that was pushed, `done` has been popped again. */
  ghost predicate Popping(before: seq<seq<nat>>, now: seq<seq<nat>>, all: seq<nat>, done: seq<nat>) {
    && |before| == |now| && multiset(done) <= multiset(all)
    && forall x :: 0 <= x < |before| ==>
         |now[x]| == |before[x]| + multiset(all)[x] - multiset(done)[x] && now[x][..|before[x]|] == before[x]
  }

  lemma NothingWritten(p: Placed, b: nat)
    requires b < |p.phis| && b < |p.f.code|
    ensures BodyWrites(p, b, 0) == []
  {
  }

  lemma PopBegin(before: seq<seq<nat>>, now: seq<seq<nat>>, all: seq<nat>)
    requires Grown(before, now, all)
    ensures Popping(before, now, all, [])
  {
  }

  lemma PopEnd(before: seq<seq<nat>>, now: seq<seq<nat>>, all: seq<nat>)
    requires Popping(before, now, all, all)
    ensures now == before
  {
    forall x | 0 <= x < |before| ensures now[x] == before[x] {
      assert now[x][..|before[x]|] == now[x];
    }
  }

  lemma PopOne(before: seq<seq<nat>>, now: seq<seq<nat>>, all: seq<nat>, done: seq<nat>, x: nat)
    requires Popping(before, now, all, done) && x < |before| && multiset(done + [x]) <= multiset(all)
    ensures x < |now| && now[x] != []
    ensures Popping(before, now[x := now[x][..|now[x]| - 1]], all, done + [x])
  {
    assert multiset(done + [x]) == multiset(done) + multiset{x};
    assert multiset(done + [x])[x] <= multiset(all)[x];
    var n := now[x][..|now[x]| - 1];
    assert n[..|before[x]|] == now[x][..|before[x]|];
  }

  lemma PartOfWhole(s: seq<nat>, t: seq<nat>)
    ensures multiset(s) <= multiset(s + t)
  {
    assert multiset(s + t) == multiset(s) + multiset(t);
  }

  lemma {:induction false} WritesWithin(p: Placed, b: nat, i: nat, n: nat)
    requires b < |p.phis| && b < |p.f.code| && i <= n <= |p.Body(b)|
    ensures multiset(BodyWrites(p, b, i)) <= multiset(BodyWrites(p, b, n))
    decreases n
  {
    hide Placed.Body, Writes;
    if i < n {
      WritesWithin(p, b, i, n - 1);
      assert BodyWrites(p, b, n) == BodyWrites(p, b, n - 1) + Writes(p.Body(b)[n - 1], p.f.globals);
      hide BodyWrites;
      PartOfWhole(BodyWrites(p, b, n - 1), Writes(p.Body(b)[n - 1], p.f.globals));
    }
  }

  lemma WritesSplit(done: seq<nat>, inst: Inst, globals: seq<nat>)
    ensures done + Writes(inst, globals) == if inst.call then done + inst.defs + globals else done + inst.defs
    ensures multiset(done + inst.defs) <= multiset(done + Writes(inst, globals))
  {
    assert done + Writes(inst, globals) == if inst.call then done + inst.defs + globals else done + inst.defs;
    PartOfWhole(done + inst.defs, if inst.call then globals else []);
  }

  lemma WithinAll(p: Placed, b: nat, i: nat)
    requires p.Valid() && b < p.f.g.blocks && i < |p.Body(b)|
    ensures b < |p.phis| && b < |p.f.code|
    ensures forall k :: 0 <= k < |p.Body(b)[i].defs| ==> p.Body(b)[i].defs[k] < p.f.vars
    ensures forall k :: 0 <= k < |p.f.globals| ==> p.f.globals[k] < p.f.vars
    ensures var done, inst := BodyWrites(p, b, i), p.Body(b)[i];
            && multiset(done + inst.defs) <= multiset(BodyWrites(p, b, |p.Body(b)|))
            && (inst.call ==> multiset(done + inst.defs + p.f.globals) <= multiset(BodyWrites(p, b, |p.Body(b)|)))
            && BodyWrites(p, b, i + 1) == if inst.call then done + inst.defs + p.f.globals else done + inst.defs
  {
    hide Placed.Valid, Placed.Body;
    DefsInRange(p, b, i);
    WritesWithin(p, b, i + 1, |p.Body(b)|);
    var done, inst := BodyWrites(p, b, i), p.Body(b)[i];
    assert BodyWrites(p, b, i + 1) == done + Writes(inst, p.f.globals);
    hide BodyWrites;
    WritesSplit(done, inst, p.f.globals);
  }

  /** Outside the phi positions that belong to the edges out of b nothing has changed. */
  ghost predicate ArgFrame(p: Placed, v: Versions, w: Versions, b: nat)
    requires p.f.g.Valid()
  {
    forall s: Slot :: !(s.Arg? && s.block < p.f.g.blocks && FirstEdgeFrom(p.f.g, s.block, b, s.edge)) ==>
      (s in w <==> s in v) && Get(w, s) == Get(v, s)
  }

  ghost predicate EdgeFilled(p: Placed, v: Versions, d: nat, b: nat, out: seq<nat>)
    requires p.f.g.Valid() && d < p.f.g.blocks
  {
    && d < |p.phis|
    && forall i, j: nat :: 0 <= i < |p.phis[d]| && FirstEdgeFrom(p.f.g, d, b, j) ==>
         p.phis[d][i] < |out| && Get(v, Arg(d, i, j)) == out[p.phis[d][i]]
  }

  lemma FirstIsUnique(g: Graph, d: nat, b: nat, i: nat, j: nat)
    requires g.Valid() && d < g.blocks && FirstEdgeFrom(g, d, b, i) && FirstEdgeFrom(g, d, b, j)
    ensures i == j
  {
    hide Graph.Valid;
  }

  lemma FilledNow(p: Placed, v: Versions, d: nat, b: nat, out: seq<nat>, j: nat)
    requires p.f.g.Valid() && d < p.f.g.blocks && d < |p.phis| && FirstEdgeFrom(p.f.g, d, b, j)
    requires forall i :: 0 <= i < |p.phis[d]| ==> p.phis[d][i] < |out| && Get(v, Arg(d, i, j)) == out[p.phis[d][i]]
    ensures EdgeFilled(p, v, d, b, out)
  {
    forall i, j': nat | 0 <= i < |p.phis[d]| && FirstEdgeFrom(p.f.g, d, b, j')
      ensures p.phis[d][i] < |out| && Get(v, Arg(d, i, j')) == out[p.phis[d][i]]
    {
      FirstIsUnique(p.f.g, d, b, j, j');
    }
  }

  lemma FilledKept(p: Placed, v: Versions, w: Versions, d0: nat, b: nat, out: seq<nat>, d: nat, j: nat)
    requires p.f.g.Valid() && d0 < p.f.g.blocks && d < p.f.g.blocks && EdgeFilled(p, v, d0, b, out)
    requires FirstEdgeFrom(p.f.g, d, b, j) && d < |p.phis|
    requires forall i :: 0 <= i < |p.phis[d]| ==> p.phis[d][i] < |out| && Get(w, Arg(d, i, j)) == out[p.phis[d][i]]
    requires forall s: Slot :: !(s.Arg? && s.block == d && s.edge == j) ==> Get(w, s) == Get(v, s)
    ensures EdgeFilled(p, w, d0, b, out)
  {
    if d0 == d {
      FilledNow(p, w, d, b, out, j);
    }
  }

  lemma EdgeShape(p: Placed, b: nat)
    requires p.Valid() && b < p.f.g.blocks
    ensures p.f.g.Valid() && |p.phis| == p.f.g.blocks && |p.f.g.succs| == p.f.g.blocks
    ensures forall i :: 0 <= i < |p.f.g.succs[b]| ==>
              var e := p.f.g.succs[b][i];
                e < |p.f.g.edges| && p.f.g.edges[e].dest < p.f.g.blocks && p.f.g.edges[e].src == b
  {
    hide Graph.ListsDistinct;
  }

  lemma ArgFrameStep(p: Placed, v0: Versions, v: Versions, w: Versions, b: nat, d: nat, j: nat)
    requires p.f.g.Valid() && ArgFrame(p, v0, v, b) && d < p.f.g.blocks && FirstEdgeFrom(p.f.g, d, b, j)
    requires forall s: Slot :: !(s.Arg? && s.block == d && s.edge == j) ==>
               (s in w <==> s in v) && Get(w, s) == Get(v, s)
    ensures ArgFrame(p, v0, w, b)
  {
    hide Graph.Valid;
  }

  /** The first incoming edge of e's target that comes from e's source. */
  method FirstFrom(g: Graph, e: nat) returns (j: nat)
    requires g.Valid() && e < |g.edges|
    ensures FirstEdgeFrom(g, g.edges[e].dest, g.edges[e].src, j)
  {
    hide Graph.ListsDistinct;
    var b, d := g.edges[e].src, g.edges[e].dest;
    EdgeIn(g, e);
    j := 0;
    while g.edges[g.preds[d][j]].src != b
      invariant 0 <= j < |g.preds[d]|
      invariant exists i :: j <= i < |g.preds[d]| && g.edges[g.preds[d][i]].src == b
      invariant forall i :: 0 <= i < j ==> g.edges[g.preds[d][i]].src != b
      decreases |g.preds[d]| - j
    {
      j := j + 1;
    }
  }

  lemma EdgeIn(g: Graph, e: nat)
    requires g.Valid() && e < |g.edges|
    ensures exists i ::
              0 <= i < |g.preds[g.edges[e].dest]| && g.edges[g.preds[g.edges[e].dest][i]].src == g.edges[e].src
    ensures |g.preds[g.edges[e].dest]| > 0
  {
    hide Graph.ListsDistinct;
    var d := g.edges[e].dest;
    assert e in g.preds[d];
    var i :| 0 <= i < |g.preds[d]| && g.preds[d][i] == e;
    assert g.edges[g.preds[d][i]].src == g.edges[e].src;
  }

  lemma AllFilled(p: Placed, v: Versions, b: nat, out: seq<nat>)
    requires p.Valid() && b < p.f.g.blocks && |out| == p.f.vars
    requires forall k :: 0 <= k < |p.f.g.succs[b]| ==> EdgeFilled(p, v, p.f.g.edges[p.f.g.succs[b][k]].dest, b, out)
    ensures ArgsRenamed(p, v, b, out)
  {
    hide Graph.ListsDistinct;
    var g := p.f.g;
    forall d: nat, j: nat, i: nat | d < g.blocks && FirstEdgeFrom(g, d, b, j) && i < |p.phis[d]|
      ensures Get(v, Arg(d, i, j)) == out[p.phis[d][i]]
    {
      var e := g.preds[d][j];
      assert e in g.succs[b];
      var k :| 0 <= k < |g.succs[b]| && g.succs[b][k] == e;
      assert EdgeFilled(p, v, g.edges[e].dest, b, out);
    }
  }

  lemma BodyShape(p: Placed, b: nat)
    requires p.Valid() && b < p.f.g.blocks
    ensures |p.base| == p.f.vars && b < |p.phis| && b < |p.f.code|
  {
  }

  lemma BodyBegin(p: Placed, v: Versions, b: nat, tops: seq<nat>)
    requires p.Valid() && b < p.f.g.blocks && |tops| == p.f.vars
    ensures BodyDone(p, v, v, b, tops, 0)
  {
  }

  lemma NotYet(p: Placed, v0: Versions, v: Versions, b: nat, tops: seq<nat>, i: nat)
    requires p.Valid() && b < p.f.g.blocks && i < |p.Body(b)| && |tops| == p.f.vars && BodyDone(p, v0, v, b, tops, i)
    requires forall i, k :: Def(b, i, k) !in v0 && Implicit(b, i, k) !in v0
    ensures forall k :: Def(b, i, k) !in v && Implicit(b, i, k) !in v
  {
  }

  /** What the first n instructions of a block push. */
  function BodyWrites(p: Placed, b: nat, n: nat): seq<nat>
    requires b < |p.phis| && b < |p.f.code| && n <= |p.Body(b)|
  {
    if n == 0 then [] else BodyWrites(p, b, n - 1) + Writes(p.Body(b)[n - 1], p.f.globals)
  }

  /** The state of a block's body after its first n instructions. */
  ghost predicate BodyDone(p: Placed, v0: Versions, v: Versions, b: nat, tops: seq<nat>, n: nat)
    requires p.Valid() && b < p.f.g.blocks && n <= |p.Body(b)| && |tops| == p.f.vars
  {
    && UsesRenamed(p, v, b, tops, n) && Written(p, v, b, n)
    && forall s: Slot :: s.Arg? || s.block != b || s.inst >= n ==> (s in v <==> s in v0) && Get(v, s) == Get(v0, s)
  }

  lemma {:induction false} TopsPrefixSame(p: Placed, v: Versions, w: Versions, b: nat, i: nat, tops: seq<nat>, n: nat)
    requires p.Valid() && b < p.f.g.blocks && n <= i < |p.Body(b)| && |tops| == p.f.vars && OnlyInst(v, w, b, i)
    ensures TopsAt(p, v, b, tops, n) == TopsAt(p, w, b, tops, n)
    decreases n
  {
    hide Placed.Valid, Func.InstOk, Assign, OnlyInst, AfterInst;
    if n > 0 {
      TopsPrefixSame(p, v, w, b, i, tops, n - 1);
      AfterSame(p, v, w, b, i, TopsAt(p, v, b, tops, n - 1), n - 1);
    }
  }

  /** An instruction before i is not touched by what is recorded for i. */
  lemma AfterSame(p: Placed, v: Versions, w: Versions, b: nat, i: nat, tops: seq<nat>, n: nat)
    requires p.Valid() && b < p.f.g.blocks && n < i < |p.Body(b)| && |tops| == p.f.vars && OnlyInst(v, w, b, i)
    ensures AfterInst(p, v, b, n, tops) == AfterInst(p, w, b, n, tops)
  {
    var m := |p.Body(b)[n].defs|;
    hide Func.InstOk, Assign;
    ValsSame(v, w, b, i, n, m);
    ValsSame(v, w, b, i, n, |p.f.globals|);
  }

  lemma ValsSame(v: Versions, w: Versions, b: nat, i: nat, n: nat, m: nat)
    requires n != i && OnlyInst(v, w, b, i)
    ensures DefVals(v, b, n, m) == DefVals(w, b, n, m) && ImplicitVals(v, b, n, m) == ImplicitVals(w, b, n, m)
  {
    forall k: nat | k < m ensures Get(v, Def(b, n, k)) == Get(w, Def(b, n, k)) {
      assert !SlotOf(Def(b, n, k), b, i);
    }
    forall k: nat | k < m ensures Get(v, Implicit(b, n, k)) == Get(w, Implicit(b, n, k)) {
      assert !SlotOf(Implicit(b, n, k), b, i);
    }
  }

  lemma BodyStep(p: Placed, v0: Versions, v: Versions, w: Versions, b: nat, tops: seq<nat>, i: nat, tops1: seq<nat>)
    requires p.Valid() && b < p.f.g.blocks && i < |p.Body(b)| && |tops| == |tops1| == p.f.vars
    requires BodyDone(p, v0, v, b, tops, i) && OnlyInst(v, w, b, i)
    requires tops1 == TopsAt(p, v, b, tops, i)
    requires forall k :: 0 <= k < |p.Body(b)[i].uses| ==> p.Body(b)[i].uses[k] < p.f.vars
    requires forall k :: 0 <= k < |p.Body(b)[i].uses| ==> Get(w, Use(b, i, k)) == tops1[p.Body(b)[i].uses[k]]
    requires forall k :: 0 <= k < |p.Body(b)[i].defs| ==> Def(b, i, k) in w
    requires forall k :: p.Body(b)[i].call && 0 <= k < |p.f.globals| ==> Implicit(b, i, k) in w
    ensures BodyDone(p, v0, w, b, tops, i + 1)
    ensures AfterInst(p, w, b, i, tops1) == TopsAt(p, w, b, tops, i + 1)
  {
    hide Placed.Valid, Func.InstOk, OnlyInst, UsesRenamed;
    TopsPrefixSame(p, v, w, b, i, tops, i);
    UsesStep(p, v, w, b, tops, i);
    WrittenStep(p, v, w, b, i);
    assert OnlyInst(v, w, b, i);
    FrameStep(v0, v, w, b, i);
  }

  lemma WrittenStep(p: Placed, v: Versions, w: Versions, b: nat, i: nat)
    requires p.Valid() && b < p.f.g.blocks && i < |p.Body(b)| && Written(p, v, b, i) && OnlyInst(v, w, b, i)
    requires forall k :: 0 <= k < |p.Body(b)[i].defs| ==> Def(b, i, k) in w
    requires forall k :: p.Body(b)[i].call && 0 <= k < |p.f.globals| ==> Implicit(b, i, k) in w
    ensures Written(p, w, b, i + 1)
  {
    hide Placed.Body, Graph.Valid;
    forall j, k | 0 <= j < i && 0 <= k < |p.Body(b)[j].defs| ensures Def(b, j, k) in w {
      assert !SlotOf(Def(b, j, k), b, i);
    }
    forall j, k | 0 <= j < i && p.Body(b)[j].call && 0 <= k < |p.f.globals| ensures Implicit(b, j, k) in w {
      assert !SlotOf(Implicit(b, j, k), b, i);
    }
  }

  lemma FrameStep(v0: Versions, v: Versions, w: Versions, b: nat, i: nat)
    requires forall s: Slot :: s.Arg? || s.block != b || s.inst >= i ==>
               (s in v <==> s in v0) && Get(v, s) == Get(v0, s)
    requires OnlyInst(v, w, b, i)
    ensures forall s: Slot :: s.Arg? || s.block != b || s.inst >= i + 1 ==>
              (s in w <==> s in v0) && Get(w, s) == Get(v0, s)
  {
  }

  lemma UsesStep(p: Placed, v: Versions, w: Versions, b: nat, tops: seq<nat>, i: nat)
    requires p.Valid() && b < p.f.g.blocks && i < |p.Body(b)| && |tops| == p.f.vars
    requires UsesRenamed(p, v, b, tops, i) && OnlyInst(v, w, b, i)
    requires forall k :: 0 <= k < |p.Body(b)[i].uses| ==> p.Body(b)[i].uses[k] < p.f.vars
    requires forall k :: 0 <= k < |p.Body(b)[i].uses| ==>
               Get(w, Use(b, i, k)) == TopsAt(p, v, b, tops, i)[p.Body(b)[i].uses[k]]
    ensures UsesRenamed(p, w, b, tops, i + 1)
  {
    hide Placed.Valid, Func.InstOk;
    BodyShape(p, b);
    forall j, k | 0 <= j < i + 1 && 0 <= k < |p.Body(b)[j].uses|
      ensures p.Body(b)[j].uses[k] < p.f.vars
      ensures Get(w, Use(b, j, k)) == TopsAt(p, w, b, tops, j)[p.Body(b)[j].uses[k]]
    {
      DefsInRange(p, b, j);
      TopsPrefixSame(p, v, w, b, i, tops, j);
      if j < i {
        assert !SlotOf(Use(b, j, k), b, i);
      }
    }
  }

  lemma GrownTrans(a: seq<seq<nat>>, b: seq<seq<nat>>, c: seq<seq<nat>>, l: seq<nat>, m: seq<nat>)
    requires Grown(a, b, l) && Grown(b, c, m)
    ensures Grown(a, c, l + m)
  {
    assert multiset(l + m) == multiset(l) + multiset(m);
    forall x | 0 <= x < |a| ensures c[x][..|a[x]|] == a[x] {
      assert c[x][..|b[x]|][..|a[x]|] == c[x][..|a[x]|];
    }
  }

  lemma GlobalIsPlace(p: Placed, b: nat, i: nat, k: nat)
    requires p.Valid() && b < p.f.g.blocks && i < |p.Body(b)| && p.Body(b)[i].call && k < |p.f.globals|
    ensures WritePlace(p, Implicit(b, i, k), p.f.globals[k])
  {
  }

  lemma GrownNothing(stacks: seq<seq<nat>>)
    ensures Grown(stacks, stacks, [])
  {
  }

  lemma DefsInRange(p: Placed, b: nat, i: nat)
    requires p.Valid() && b < p.f.g.blocks && i < |p.Body(b)|
    ensures |p.base| == p.f.vars && b < |p.phis| && b < |p.f.code|
    ensures forall k :: 0 <= k < |p.Body(b)[i].defs| ==> p.Body(b)[i].defs[k] < p.f.vars
    ensures forall k :: 0 <= k < |p.Body(b)[i].uses| ==> p.Body(b)[i].uses[k] < p.f.vars
    ensures forall k :: 0 <= k < |p.f.globals| ==> p.f.globals[k] < p.f.vars
  {
    BodyOk(p, b, i);
  }

  lemma DefIsPlace(p: Placed, b: nat, i: nat, k: nat)
    requires p.Valid() && b < p.f.g.blocks && i < |p.Body(b)| && k < |p.Body(b)[i].defs|
    ensures WritePlace(p, Def(b, i, k), p.Body(b)[i].defs[k])
  {
  }
}
