/** The size of the TC: the estimate made from the executable sections is enough for what is put into it. */
module MemoryBound {
  import opened Words
  import opened Instructions
  import opened InstrMap
  import opened Machine
  import opened Routines

  // ----- The estimate -----

  datatype Section = Section(executable: bool, writeable: bool, addr: Addr, size: nat, rtns: seq<Routine>)

  predicate Counted(sec: Section) { sec.executable && !sec.writeable && sec.addr != 0 }

  /** The routines of the counted sections, in section order. */
  function RoutinesOf(secs: seq<Section>): seq<Routine> {
    if secs == [] then []
    else RoutinesOf(secs[..|secs| - 1]) + if Counted(secs[|secs| - 1]) then secs[|secs| - 1].rtns else []
  }

  /** What `RoutinesOf` collects: section by section, the routines of those that are executable, not writeable, and have
      an address. */
  lemma {:induction false} RoutinesOfConcat(xs: seq<Section>, ys: seq<Section>)
    ensures RoutinesOf(xs + ys) == RoutinesOf(xs) + RoutinesOf(ys)
    ensures forall s: Section ::
      RoutinesOf([s]) == if s.executable && !s.writeable && s.addr != 0 then s.rtns else []
  {
    forall s: Section
      ensures RoutinesOf([s]) == if s.executable && !s.writeable && s.addr != 0 then s.rtns else []
    {
      assert [s][..0] == [];
    }
    if ys == [] {
      assert xs + ys == xs;
    } else {
      assert (xs + ys)[..|xs + ys| - 1] == xs + ys[..|ys| - 1];
      RoutinesOfConcat(xs, ys[..|ys| - 1]);
    }
  }

  // ----- The bound -----

  /** No instruction grows more than threefold. */
  lemma {:induction false} GrowsAtMostThreefold(it: Item, chained: bool)
    requires ValidItem(it)
    ensures FinalSize(it, chained) <= 3 * it.code.len
  {
  }

  ghost function SumLen(items: seq<Item>, n: nat): nat
    requires n <= |items|
  {
    if n == 0 then 0 else SumLen(items, n - 1) + items[n - 1].code.len
  }

  lemma {:induction false} TotalAtMostThreefold(items: seq<Item>, n: nat)
    requires n <= |items| && forall k :: 0 <= k < |items| ==> ValidItem(items[k])
    ensures TotalSize(items, n) <= 3 * SumLen(items, n)
  {
    hide FinalSize, ValidItem, Resolve, TargetOf;
    if n > 0 {
      TotalAtMostThreefold(items, n - 1);
      var it := items[n - 1];
      GrowsAtMostThreefold(it, TargetOf(it) != 0 && Resolve(items, n - 1, TargetOf(it)) >= 0);
    }
  }

  /** The instructions of a routine stand in its extent, one after the other. */
  predicate InExtent(rtn: Routine) {
    && (forall k :: 0 <= k < |rtn.instrs| - 1 ==> rtn.instrs[k].0 + rtn.instrs[k].1 == rtn.instrs[k + 1].0)
    && (rtn.instrs != [] ==> rtn.addr <= rtn.instrs[0].0)
    && (forall k :: 0 <= k < |rtn.instrs| ==> rtn.instrs[k].0 + rtn.instrs[k].1 <= rtn.addr + rtn.size)
  }

  lemma {:induction false} SumLenInExtent(items: seq<Item>, rtn: Routine, n: nat)
    requires InExtent(rtn) && n <= |items| <= |rtn.instrs|
    requires forall k :: 0 <= k < |items| ==> items[k].addr == rtn.instrs[k].0 && items[k].code.len == rtn.instrs[k].1
    ensures SumLen(items, n) <= rtn.size
    ensures n > 0 ==> SumLen(items, n) == items[n - 1].addr + items[n - 1].code.len - rtn.instrs[0].0
  {
    if n > 0 {
      SumLenInExtent(items, rtn, n - 1);
      if n > 1 {
        assert rtn.instrs[n - 2].0 + rtn.instrs[n - 2].1 == rtn.instrs[n - 1].0;
      }
      assert rtn.instrs[n - 1].0 + rtn.instrs[n - 1].1 <= rtn.addr + rtn.size;
    }
  }

  lemma {:induction false} SumLenConcat(xs: seq<Item>, ys: seq<Item>, n: nat)
    requires n <= |ys|
    ensures SumLen(xs + ys, |xs| + n) == SumLen(xs, |xs|) + SumLen(ys, n)
  {
    if n > 0 {
      SumLenConcat(xs, ys, n - 1);
    } else {
      SumLenSame(xs + ys, xs, |xs|);
    }
  }

  lemma {:induction false} SumLenSame(xs: seq<Item>, ys: seq<Item>, n: nat)
    requires n <= |xs| && n <= |ys| && forall k :: 0 <= k < n ==> xs[k] == ys[k]
    ensures SumLen(xs, n) == SumLen(ys, n)
  {
    if n > 0 {
      SumLenSame(xs, ys, n - 1);
    }
  }

  ghost function SumSizes(rtns: seq<Routine>): nat {
    if rtns == [] then 0 else SumSizes(rtns[..|rtns| - 1]) + rtns[|rtns| - 1].size
  }

  lemma {:induction false} SumLenRoutines(image: Segment, rtns: seq<Routine>)
    requires forall k :: 0 <= k < |rtns| ==> InExtent(rtns[k])
    ensures var items := AllItems(image, rtns); SumLen(items, |items|) <= SumSizes(rtns)
  {
    hide ItemsOf, Readable, ReadFrom, InExtent;
    if rtns != [] {
      var front, last := rtns[..|rtns| - 1], rtns[|rtns| - 1];
      SumLenRoutines(image, front);
      var xs, ys := AllItems(image, front), ItemsOf(image, last.instrs);
      assert InExtent(last);
      SumLenConcat(xs, ys, |ys|);
      SumLenInExtent(ys, last, |ys|);
      assert AllItems(image, rtns) == xs + ys;
    }
  }

  // Disjoint extents in [low, high) take no more room than there is, in whatever order they come.

  predicate Apart(r: Routine, s: Routine) { r.addr + r.size <= s.addr || s.addr + s.size <= r.addr }

  predicate DisjointWithin(rtns: seq<Routine>, low: int, high: int) {
    && (forall k :: 0 <= k < |rtns| ==> low <= rtns[k].addr && rtns[k].addr + rtns[k].size <= high)
    && (forall j, k :: 0 <= j < k < |rtns| ==> Apart(rtns[j], rtns[k]))
  }

  ghost function Range(low: int, high: int): (r: set<int>)
    ensures forall a :: a in r <==> low <= a < high
    ensures |r| == if low < high then high - low else 0
    decreases high - low
  {
    if low >= high then {} else Range(low, high - 1) + {high - 1}
  }

  ghost function Occupied(rtns: seq<Routine>): set<int> {
    if rtns == [] then {}
    else
      var last := rtns[|rtns| - 1];
      Occupied(rtns[..|rtns| - 1]) + Range(last.addr, last.addr + last.size)
  }

  lemma {:induction false} OccupiedApart(rtns: seq<Routine>, r: Routine)
    requires forall k :: 0 <= k < |rtns| ==> Apart(rtns[k], r)
    ensures Occupied(rtns) !! Range(r.addr, r.addr + r.size)
  {
    if rtns != [] {
      assert Apart(rtns[|rtns| - 1], r);
      OccupiedApart(rtns[..|rtns| - 1], r);
    }
  }

  lemma {:induction false} OccupiedSize(rtns: seq<Routine>, low: int, high: int)
    requires DisjointWithin(rtns, low, high)
    ensures |Occupied(rtns)| == SumSizes(rtns) && Occupied(rtns) <= Range(low, high)
  {
    if rtns != [] {
      var front, last := rtns[..|rtns| - 1], rtns[|rtns| - 1];
      OccupiedSize(front, low, high);
      forall k | 0 <= k < |front| ensures Apart(front[k], last) {
        assert Apart(rtns[k], rtns[|rtns| - 1]);
      }
      OccupiedApart(front, last);
    }
  }

  lemma {:induction false} SubsetSize(s: set<int>, t: set<int>)
    requires s <= t
    ensures |s| <= |t|
  {
    assert t == s + (t - s);
  }

  /**
   The memory bound: disjoint routines in [low, high), each translated once, take at most three times that much
   in the TC, which is less than the estimate.
  */
  lemma {:induction false} TcIsLargeEnough(image: Segment, rtns: seq<Routine>, low: int, high: int, pagesize: nat)
    requires DisjointWithin(rtns, low, high) && low <= high && forall k :: 0 <= k < |rtns| ==> InExtent(rtns[k])
    ensures var items := AllItems(image, rtns);
      TotalSize(items, |items|) <= 3 * (high - low) <= 4 * (high - low) + 12 * pagesize
  {
    var items := AllItems(image, rtns);
    forall k | 0 <= k < |items| ensures ValidItem(items[k]) {
      assert Fetch(image, items[k].addr) == Some(items[k].code);
    }
    TotalAtMostThreefold(items, |items|);
    SumLenRoutines(image, rtns);
    OccupiedSize(rtns, low, high);
    SubsetSize(Occupied(rtns), Range(low, high));
  }

  // ----- The estimate covers the bound -----

  function Estimate(low: int, high: int, pagesize: nat): int { 4 * (high - low) + 12 * pagesize }

  /** The counted sections hold their routines, and no two of those overlap. */
  predicate SectionsHold(secs: seq<Section>) {
    && (forall s, r :: s in secs && Counted(s) && r in s.rtns ==>
          InExtent(r) && s.addr <= r.addr && r.addr + r.size <= s.addr + s.size)
    && (forall j, k :: 0 <= j < k < |RoutinesOf(secs)| ==> Apart(RoutinesOf(secs)[j], RoutinesOf(secs)[k]))
  }

  lemma {:induction false} RoutineOfSection(secs: seq<Section>, r: Routine)
    requires r in RoutinesOf(secs)
    ensures exists s :: s in secs && Counted(s) && r in s.rtns
  {
    var last := secs[|secs| - 1];
    if Counted(last) && r in last.rtns {
      assert last in secs;
    } else {
      RoutineOfSection(secs[..|secs| - 1], r);
    }
  }

  lemma {:induction false} RoutinesWithin(secs: seq<Section>, low: int, high: int)
    requires SectionsHold(secs)
    requires forall s :: s in secs && Counted(s) ==> low <= s.addr && s.addr + s.size <= high
    ensures DisjointWithin(RoutinesOf(secs), low, high)
    ensures forall k :: 0 <= k < |RoutinesOf(secs)| ==> InExtent(RoutinesOf(secs)[k])
  {
    hide InExtent;
    var rtns := RoutinesOf(secs);
    forall k | 0 <= k < |rtns| ensures low <= rtns[k].addr && rtns[k].addr + rtns[k].size <= high && InExtent(rtns[k]) {
      RoutineOfSection(secs, rtns[k]);
    }
  }

  /** The length survives being cut to 32 bits exactly if it is below 2^31; right above that it turns negative. */
  lemma {:induction false} EstimateCutIff(x: nat)
    ensures Sext32(x) == x <==> x < TWO31
    ensures TWO31 <= x < TWO32 ==> Sext32(x) < 0
    ensures x >= TWO31 ==> Sext32(x) <= x - TWO32
  {
    assert x >= TWO31 ==> (x + TWO31) / TWO32 >= 1;
  }

  lemma {:induction false} EstimateCovers(image: Segment, secs: seq<Section>, low: int, high: int, pagesize: nat)
    requires low <= high && forall s :: s in secs && Counted(s) ==> low <= s.addr && s.addr + s.size <= high
    ensures SectionsHold(secs) && Estimate(low, high, pagesize) < TWO31 ==>
      var items := AllItems(image, RoutinesOf(secs));
      TotalSize(items, |items|) <= Sext32(Estimate(low, high, pagesize))
  {
    hide SectionsHold, AllItems, TotalSize, InExtent, RoutinesOf;
    if SectionsHold(secs) {
      RoutinesWithin(secs, low, high);
      TcIsLargeEnough(image, RoutinesOf(secs), low, high, pagesize);
      EstimateCutIff(Estimate(low, high, pagesize));
    }
  }

  /** The least address and the greatest end of the counted sections, both 0 if there is none. */
  predicate Bounds(secs: seq<Section>, lowest: int, highest: int) {
    if secs == [] then lowest == highest == 0
    else
      && (forall s :: s in secs && Counted(s) ==> 0 < lowest <= s.addr && s.addr + s.size <= highest)
      && if exists s :: s in secs && Counted(s) then
           && (exists s :: s in secs && Counted(s) && s.addr == lowest)
           && (exists s :: s in secs && Counted(s) && s.addr + s.size == highest)
         else lowest == highest == 0
  }

  lemma {:induction false} NoBounds()
    ensures Bounds([], 0, 0)
  {
  }

  lemma {:induction false} BoundsStep(secs: seq<Section>, sec: Section, lowest: int, highest: int)
    requires Bounds(secs, lowest, highest)
    ensures Bounds(secs + [sec],
      if Counted(sec) && (lowest == 0 || lowest > sec.addr) then sec.addr else lowest,
      if Counted(sec) && highest < sec.addr + sec.size then sec.addr + sec.size else highest)
  {
    var secs' := secs + [sec];
    assert forall s :: s in secs' <==> s in secs || s == sec;
    assert sec in secs';
  }

  lemma {:induction false} BoundsMean(secs: seq<Section>, lowest: int, highest: int)
    requires Bounds(secs, lowest, highest)
    ensures lowest <= highest
    ensures forall s :: s in secs && s.executable && !s.writeable && s.addr != 0 ==>
      lowest <= s.addr && s.addr + s.size <= highest
    ensures if exists s :: s in secs && s.executable && !s.writeable && s.addr != 0 then
      && (exists s :: s in secs && s.executable && !s.writeable && s.addr != 0 && s.addr == lowest)
      && (exists s :: s in secs && s.executable && !s.writeable && s.addr != 0 && s.addr + s.size == highest)
      else lowest == highest == 0
  {
  }

  lemma {:induction false} NoRoutines()
    ensures RoutinesOf([]) == []
  {
  }

  lemma {:induction false} RoutinesNext(secs: seq<Section>, sec: Section)
    ensures var more := if Counted(sec) then sec.rtns else [];
      && RoutinesOf(secs + [sec]) == RoutinesOf(secs) + more
      && CountInstrs(RoutinesOf(secs + [sec])) == CountInstrs(RoutinesOf(secs)) + CountInstrs(more)
  {
    assert (secs + [sec])[..|secs|] == secs;
    CountInstrsConcat(RoutinesOf(secs), if Counted(sec) then sec.rtns else []);
  }

  /** Bounds of the counted sections, size of the instruction map, and the length of the TC, an `int` of 32 bits,
      which is enough for the routines of these sections unless it was cut. */
  method EstimateMemory(ghost image: Segment, secs: seq<Section>, pagesize: nat)
      returns (lowest: Addr, highest: int, maxInsCount: nat, maxRtnCount: nat, tclen: int)
    ensures forall s :: s in secs && s.executable && !s.writeable && s.addr != 0 ==>
      lowest <= s.addr && s.addr + s.size <= highest
    ensures if exists s :: s in secs && s.executable && !s.writeable && s.addr != 0 then
      && (exists s :: s in secs && s.executable && !s.writeable && s.addr != 0 && s.addr == lowest)
      && (exists s :: s in secs && s.executable && !s.writeable && s.addr != 0 && s.addr + s.size == highest)
      else lowest == highest == 0
    ensures maxInsCount == 4 * CountInstrs(RoutinesOf(secs)) && maxRtnCount == |RoutinesOf(secs)|
    ensures lowest <= highest && tclen == Sext32(4 * (highest - lowest) + 12 * pagesize)
    ensures SectionsHold(secs) && Estimate(lowest, highest, pagesize) < TWO31 ==>
      var items := AllItems(image, RoutinesOf(secs)); TotalSize(items, |items|) <= tclen
  {
    hide SectionsHold, AllItems, TotalSize, Sext32, Apart, InExtent, Bounds, RoutinesOf;
    NoBounds();
    NoRoutines();
    assert secs[..0] == [];
    lowest, highest, maxInsCount, maxRtnCount := 0, 0, 0, 0;
    for i := 0 to |secs|
      invariant Bounds(secs[..i], lowest, highest)
      invariant maxInsCount == CountInstrs(RoutinesOf(secs[..i])) && maxRtnCount == |RoutinesOf(secs[..i])|
    {
      var sec := secs[i];
      assert secs[..i + 1][..i] == secs[..i] && secs[..i + 1] == secs[..i] + [sec];
      BoundsStep(secs[..i], sec, lowest, highest);
      RoutinesNext(secs[..i], sec);
      if !Counted(sec) {
        continue;
      }
      if lowest == 0 || lowest > sec.addr {
        lowest := sec.addr;
      }
      if highest < sec.addr + sec.size {
        highest := sec.addr + sec.size;
      }
      ghost var before := maxInsCount;
      for j := 0 to |sec.rtns|
        invariant maxInsCount == before + CountInstrs(sec.rtns[..j])
        invariant maxRtnCount == |RoutinesOf(secs[..i])| + j
      {
        assert sec.rtns[..j + 1][..j] == sec.rtns[..j];
        maxInsCount := maxInsCount + |sec.rtns[j].instrs|;
        maxRtnCount := maxRtnCount + 1;
      }
      assert sec.rtns[..|sec.rtns|] == sec.rtns;
    }
    assert secs[..|secs|] == secs;
    BoundsMean(secs, lowest, highest);
    maxInsCount := maxInsCount * 4;
    var textSize := (highest - lowest) * 2 + pagesize * 4;
    tclen := Sext32(2 * textSize + pagesize * 4);
    EstimateCovers(image, secs, lowest, highest, pagesize);
  }

  /** A program with a text of half a gigabyte is asked to make do with a TC of negative length. */
  lemma {:induction false} EstimateCut()
    ensures Sext32(Estimate(0x40_0000, 0x2040_0000, 0x1000)) < 0
  {
  }
}
