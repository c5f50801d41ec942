/** The edge profile: one record for every block that has been run, with flags about who else jumps where. */
module EdgeProfile {
  import opened Words

  datatype Edge = Edge(
    srcBBLHead: Addr,
    source: Addr,
    destination: Addr,
    fallThrough: Addr,
    rtnAddress: Addr,
    takenCount: Addr,      // 64-bit counters, like the addresses
    notTakenCount: Addr,
    singleSource: bool,
    sharingTarget: bool)

  predicate SelfLoop(e: Edge) { e.destination == e.srcBBLHead }

  type EdgeMap = map<Addr, Edge>

  /** Records are filed under the head of their block. */
  ghost predicate Filed(edges: EdgeMap) { forall h :: h in edges ==> edges[h].srcBBLHead == h }

  /** Block `g` also jumps where block `h` does, and neither jumps to itself. */
  ghost predicate Shares(edges: EdgeMap, h: Addr, g: Addr)
    requires h in edges
  {
    g in edges && g != h && edges[g].destination == edges[h].destination && !SelfLoop(edges[g]) && !SelfLoop(edges[h])
  }

  /** The batch definition: `sharingTarget` says that some other block shares the target. */
  ghost predicate SharingRight(edges: EdgeMap) {
    forall h :: h in edges ==> (edges[h].sharingTarget <==> exists g :: Shares(edges, h, g))
  }

  /** Two distinct blocks, neither of them `b` jumping to itself, branch to `b`. */
  ghost predicate TwoSources(edges: EdgeMap, b: Addr) {
    exists g, h :: g in edges && h in edges && g != h && edges[g].destination == b && edges[h].destination == b
      && !SelfLoop(edges[g]) && !SelfLoop(edges[h])
  }

  lemma {:induction false} SharingMeans(edges: EdgeMap)
    requires Filed(edges) && SharingRight(edges)
    ensures forall h :: h in edges ==> edges[h].srcBBLHead == h && (edges[h].sharingTarget <==>
      exists g ::
        g in edges && g != h && edges[g].destination == edges[h].destination && edges[h].destination !in {g, h})
  {
    forall h | h in edges
      ensures (exists g :: Shares(edges, h, g)) <==> exists g ::
        g in edges && g != h && edges[g].destination == edges[h].destination && edges[h].destination !in {g, h}
    {
      hide Shares, Filed;
      if g :| Shares(edges, h, g) {
        SharesMeans(edges, h, g);
      }
      if g :| g in edges && g != h && edges[g].destination == edges[h].destination && edges[h].destination !in {g, h} {
        SharesMeans(edges, h, g);
      }
    }
  }

  lemma {:induction false} SharesMeans(edges: EdgeMap, h: Addr, g: Addr)
    requires Filed(edges) && h in edges
    ensures Shares(edges, h, g) <==>
      g in edges && g != h && edges[g].destination == edges[h].destination && edges[h].destination !in {g, h}
  {
  }

  lemma {:induction false} TwoSourcesMean(edges: EdgeMap)
    requires Filed(edges)
    ensures forall b :: TwoSources(edges, b) <==> exists f, g ::
      f in edges && g in edges && f != g && b !in {f, g}
      && edges[f].destination == edges[g].destination == b
  {
  }

  class Profile {
    var edges: EdgeMap

    constructor ()
      ensures edges == map[]
    {
      edges := map[];
    }

    /** A block comes up: it is recorded the first time, and every block that shares its target is marked. */
    method BlockSeen(head: Addr, tail: Addr, target: Addr, fallThrough: Addr, rtn: Addr)
      requires Filed(edges) && SharingRight(edges)
      modifies this
      ensures Filed(edges) && SharingRight(edges)
      ensures forall h :: h in edges ==> edges[h].srcBBLHead == h && (edges[h].sharingTarget <==>
        exists g ::
          g in edges && g != h && edges[g].destination == edges[h].destination && edges[h].destination !in {g, h})
      ensures edges.Keys == old(edges).Keys + {head}
      ensures forall h :: h in old(edges) ==> edges[h] == old(edges)[h].(sharingTarget := edges[h].sharingTarget)
      ensures head in old(edges) ==> edges == old(edges)
      ensures head !in old(edges) ==>
        edges[head] == Edge(head, tail, target, fallThrough, rtn, 0, 0, true, edges[head].sharingTarget)
    {
      hide SharingRight, Filed, MarkedBut;
      if head in edges {
        SharingMeans(edges);
        return;
      }
      var edge := Edge(head, tail, target, fallThrough, rtn, 0, 0, true, false);
      ghost var start, newEdge := edges, edge;
      var todo := edges.Keys;
      MarkStart(start, newEdge);
      while todo != {}
        invariant MarkedBut(start, edges, todo, newEdge, edge)
        decreases todo
      {
        var h :| h in todo;
        MarkStep(start, edges, todo, newEdge, edge, h);
        todo := todo - {h};
        var currEdge := edges[h];
        if currEdge.destination == target {
          if currEdge.destination != currEdge.srcBBLHead && target != head {
            edges := edges[h := currEdge.(sharingTarget := true)];
            edge := edge.(sharingTarget := true);
          }
        }
      }
      RecordNew(start, edges, newEdge, edge);
      edges := edges[head := edge];
      SharingMeans(edges);
    }

    /** Clears `singleSource` of every recorded block that a branch sharing its target goes to. */
    method SetSingleSource()
      requires Filed(edges) && SharingRight(edges)
      modifies this
      ensures edges.Keys == old(edges).Keys
      ensures forall h :: h in edges ==> edges[h] == old(edges)[h].(singleSource := edges[h].singleSource)
      ensures forall h :: h in edges ==>
        (edges[h].singleSource <==> old(edges)[h].singleSource && !exists f, g ::
          f in edges && g in edges && f != g && h !in {f, g}
          && old(edges)[f].destination == old(edges)[g].destination == h)
    {
      hide SharingRight, Filed, TwoSources, ClearedBut;
      ghost var start := edges;
      var todo := edges.Keys;
      ClearStart(start);
      while todo != {}
        invariant ClearedBut(start, edges, todo)
        decreases todo
      {
        var g :| g in todo;
        ClearStep(start, edges, todo, g);
        var edge := edges[g];
        if edge.destination in edges && edge.sharingTarget {
          edges := edges[edge.destination := edges[edge.destination].(singleSource := false)];
        }
        todo := todo - {g};
      }
      ClearEnd(start, edges);
      TwoSourcesMean(start);
    }
  }

  predicate JumpsAlike(e: Edge, f: Edge) {
    e.destination == f.destination && !SelfLoop(e) && !SelfLoop(f)
  }

  predicate BranchesShared(e: Edge, b: Addr) { e.destination == b && e.sharingTarget }

  /** All blocks of `start` but those in `todo` have been compared with the block `newEdge`, which became `edge`. */
  ghost predicate MarkedBut(start: EdgeMap, edges: EdgeMap, todo: set<Addr>, newEdge: Edge, edge: Edge) {
    && todo <= edges.Keys == start.Keys
    && (forall h :: h in start ==>
          edges[h] == start[h].(sharingTarget :=
            start[h].sharingTarget || (h !in todo && JumpsAlike(start[h], newEdge))))
    && edge == newEdge.(sharingTarget := exists h :: h in start && h !in todo && JumpsAlike(start[h], newEdge))
  }

  lemma {:induction false} MarkStart(start: EdgeMap, newEdge: Edge)
    requires !newEdge.sharingTarget
    ensures MarkedBut(start, start, start.Keys, newEdge, newEdge)
  {
  }

  lemma {:induction false} MarkStep(start: EdgeMap, edges: EdgeMap, todo: set<Addr>, newEdge: Edge, edge: Edge, h: Addr)
    requires MarkedBut(start, edges, todo, newEdge, edge) && h in todo
    ensures h in edges && edges[h].destination == start[h].destination && edges[h].srcBBLHead == start[h].srcBBLHead
    ensures if JumpsAlike(start[h], newEdge)
      then MarkedBut(
        start, edges[h := edges[h].(sharingTarget := true)], todo - {h}, newEdge, edge.(sharingTarget := true))
      else MarkedBut(start, edges, todo - {h}, newEdge, edge)
  {
  }

  /** With all blocks compared, the map with the new block is right again and otherwise the same. */
  lemma {:induction false} RecordNew(start: EdgeMap, edges: EdgeMap, newEdge: Edge, edge: Edge)
    requires MarkedBut(start, edges, {}, newEdge, edge) && !newEdge.sharingTarget
    requires Filed(start) && SharingRight(start) && newEdge.srcBBLHead !in start
    ensures var after := edges[newEdge.srcBBLHead := edge];
      && Filed(after) && SharingRight(after)
      && after.Keys == start.Keys + {newEdge.srcBBLHead}
      && (forall h :: h in start ==> after[h] == start[h].(sharingTarget := after[h].sharingTarget))
      && edge == newEdge.(sharingTarget := edge.sharingTarget)
  {
    hide SharingRight, Filed;
    BatchStep(start, edges[newEdge.srcBBLHead := edge], newEdge.srcBBLHead);
  }

  /** Every block that one of the blocks not in `todo` goes to and shares is cleared. */
  ghost predicate ClearedBut(start: EdgeMap, edges: EdgeMap, todo: set<Addr>) {
    && todo <= edges.Keys == start.Keys
    && forall h :: h in start ==>
         edges[h] == start[h].(singleSource := start[h].singleSource && !ClearedBy(start, todo, h))
  }

  ghost predicate ClearedBy(start: EdgeMap, todo: set<Addr>, b: Addr) {
    exists g :: g in start && g !in todo && BranchesShared(start[g], b)
  }

  lemma {:induction false} ClearStart(start: EdgeMap)
    ensures ClearedBut(start, start, start.Keys)
  {
  }

  lemma {:induction false} ClearStep(start: EdgeMap, edges: EdgeMap, todo: set<Addr>, g: Addr)
    requires ClearedBut(start, edges, todo) && g in todo
    ensures g in edges && edges[g].destination == start[g].destination
    ensures edges[g].sharingTarget == start[g].sharingTarget
    ensures var b := edges[g].destination;
      if b in edges && edges[g].sharingTarget
      then ClearedBut(start, edges[b := edges[b].(singleSource := false)], todo - {g})
      else ClearedBut(start, edges, todo - {g})
  {
    hide BranchesShared;
    var b := edges[g].destination;
    forall h ensures ClearedBy(start, todo - {g}, h) <==> ClearedBy(start, todo, h) || BranchesShared(start[g], h) {
      if BranchesShared(start[g], h) {
        assert ClearedBy(start, todo - {g}, h);
      }
    }
    assert forall h :: BranchesShared(start[g], h) <==> h == b && start[g].sharingTarget by { SharedAt(start[g]); }
  }

  lemma {:induction false} SharedAt(e: Edge)
    ensures forall h :: BranchesShared(e, h) <==> h == e.destination && e.sharingTarget
  {
  }

  lemma {:induction false} ClearEnd(start: EdgeMap, edges: EdgeMap)
    requires ClearedBut(start, edges, {}) && SharingRight(start)
    ensures edges.Keys == start.Keys
    ensures forall h :: h in edges ==>
      edges[h] == start[h].(singleSource := edges[h].singleSource)
      && (edges[h].singleSource <==> start[h].singleSource && !TwoSources(start, h))
  {
    hide SharingRight, TwoSources;
    forall h | h in edges ensures ClearedBy(start, {}, h) <==> TwoSources(start, h) {
      SharedMeansTwo(start, h);
    }
  }

  /** Marking the new block and those that jump like it is all it takes to keep the flags right. */
  lemma {:induction false} BatchStep(before: EdgeMap, after: EdgeMap, head: Addr)
    requires Filed(before) && SharingRight(before) && head !in before
    requires after.Keys == before.Keys + {head} && after[head].srcBBLHead == head
    requires forall h :: h in before ==> after[h] == before[h].(sharingTarget := after[h].sharingTarget)
    requires forall h :: h in before ==>
      (after[h].sharingTarget <==> before[h].sharingTarget || JumpsAlike(before[h], after[head]))
    requires after[head].sharingTarget <==> exists h :: h in before && JumpsAlike(before[h], after[head])
    ensures Filed(after) && SharingRight(after)
  {
    forall h | h in after ensures after[h].sharingTarget <==> exists g :: Shares(after, h, g) {
      if h == head {
        forall g ensures Shares(after, h, g) <==> g in before && JumpsAlike(before[g], after[head]) {
        }
      } else {
        forall g
          ensures Shares(after, h, g) <==> Shares(before, h, g) || (g == head && JumpsAlike(before[h], after[head]))
        {
        }
        if JumpsAlike(before[h], after[head]) {
          assert Shares(after, h, head);
        }
      }
    }
  }

  lemma {:induction false} SharedMeansTwo(edges: EdgeMap, b: Addr)
    requires SharingRight(edges)
    ensures (exists g :: g in edges && BranchesShared(edges[g], b)) <==> TwoSources(edges, b)
  {
    if g :| g in edges && BranchesShared(edges[g], b) {
      var h :| Shares(edges, g, h);
      assert edges[h].destination == b && edges[g].destination == b;
    }
    if TwoSources(edges, b) {
      var g, h :| g in edges && h in edges && g != h && edges[g].destination == b && edges[h].destination == b
        && !SelfLoop(edges[g]) && !SelfLoop(edges[h]);
      assert Shares(edges, g, h);
    }
  }

  /** The flags do not depend on the order in which the blocks came up: they are determined by the blocks. */
  lemma {:induction false} OrderDoesNotMatter(edges: EdgeMap, edges': EdgeMap)
    requires SharingRight(edges) && SharingRight(edges') && edges.Keys == edges'.Keys
    requires forall h :: h in edges ==> edges[h].(sharingTarget := false) == edges'[h].(sharingTarget := false)
    ensures edges == edges'
  {
    forall h | h in edges ensures edges[h] == edges'[h] {
      assert edges[h].(sharingTarget := false) == edges'[h].(sharingTarget := false);
      forall g ensures Shares(edges, h, g) <==> Shares(edges', h, g) {
        if g in edges {
          assert edges[g].(sharingTarget := false) == edges'[g].(sharingTarget := false);
        }
      }
    }
  }
}
