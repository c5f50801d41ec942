/**
 The process after the commit: the head of each redirected routine is overwritten with a jump to its translation, so
 that code that is not translated gets there by calling the routine.
*/
module Patched {
  import opened Words
  import opened Instructions
  import opened InstrMap
  import opened Machine
  import opened Simulation
  import opened LinkedCode
  import opened Encodability
  import opened MapMemory
  import opened Routines
  import opened Translation
  import opened MemoryBound

  /** Routine heads, and the new addresses they are redirected to. */
  type Patches = map<Addr, Addr>

  /** A patch is a jump through a cell, and behind it that cell. */
  const PATCH_JUMP := Decoded(Rip(JumpThrough, 0), 6)
  const PATCH_BYTES := 6 + 8

  /** `a` is a byte of the patch at `h`. */
  predicate InPatch(h: Addr, a: Addr) { W64(a - h) < PATCH_BYTES }

  /** The bytes of a patch behind its first one. */
  ghost predicate Overwritten(patches: Patches, a: Addr) { exists h :: h in patches && h != a && InPatch(h, a) }

  /** In the middle of a patch there is no instruction. */
  ghost function WithPatches(image: Segment, tc: Segment, patches: Patches): Addr -> Option<Decoded> {
    (a: Addr) =>
      if tc.Has(a) then Fetch(tc, a)
      else if a in patches then Some(PATCH_JUMP)
      else if Overwritten(patches, a) then None
      else Fetch(image, a)
  }

  /** The eight bytes of each patch hold the address it redirects to. */
  ghost predicate PatchesHeld<D(!new)>(sem: Sem<D>, patches: Patches) {
    forall h, d: D {:trigger h in patches, sem.cell(W64(h + 6), d)} ::
      h in patches ==> sem.cell(W64(h + 6), d) == patches[h]
  }

  /** A committed routine has room for its patch: the jump, as long as it is encoded, and the eight bytes it jumps
      through. */
  lemma {:induction false} PatchFits(rtn: Routine, row: TranslatedRtn)
    requires Committed(row) && row.rtnSize == rtn.size
    ensures Size(PATCH_JUMP.ins) == PATCH_JUMP.len && PATCH_JUMP.len + 8 == PATCH_BYTES
    ensures rtn.addr + Size(PATCH_JUMP.ins) + 8 <= rtn.addr + rtn.size
  {
  }

  /** So what is overwritten for one routine is in that routine, and in none that does not overlap it. */
  lemma {:induction false} PatchInside(rtn: Routine, row: TranslatedRtn, other: Routine, a: Addr)
    requires Committed(row) && row.rtnSize == rtn.size && rtn.addr + rtn.size <= TWO64
    requires InPatch(rtn.addr, a) && Apart(rtn, other)
    ensures rtn.addr <= a < rtn.addr + rtn.size && !(other.addr <= a < other.addr + other.size)
  {
    PatchFits(rtn, row);
    if a < rtn.addr {
      W64Equal(a - rtn.addr, a - rtn.addr + TWO64);
    }
  }

  /** Every patch is on a routine head in the image and leads to an entry made for the instruction there. */
  ghost predicate Redirecting(image: Segment, items: seq<Item>, table: seq<Entry>, patches: Patches)
    requires |items| == |table|
  {
    forall h :: h in patches ==> image.Has(h) && EntryFor(items, table, h, patches[h])
  }

  /** Control is not in the middle of a patch. */
  ghost predicate Clear<D>(patches: Patches, m: Config<Addr, D>) {
    m.locs != [] ==> !Overwritten(patches, m.locs[0])
  }

  /** Nor does it get there in the next `n` steps. */
  ghost predicate StaysClear<D>(
    p: Config<Addr, D> -> Option<Config<Addr, D>>, patches: Patches, m: Config<Addr, D>, n: nat)
  {
    forall j :: 0 <= j <= n ==> var m' := Run(p, m, j); m'.Some? ==> Clear(patches, m'.value)
  }

  lemma {:induction false} StaysClearLater<D>(
      p: Config<Addr, D> -> Option<Config<Addr, D>>, patches: Patches, m: Config<Addr, D>, k: nat, n: nat)
    requires StaysClear(p, patches, m, n) && k <= n && Run(p, m, k).Some?
    ensures StaysClear(p, patches, Run(p, m, k).value, n - k) && Clear(patches, Run(p, m, k).value)
  {
    hide Clear;
    forall j | 0 <= j <= n - k
      ensures var m' := Run(p, Run(p, m, k).value, j); m'.Some? ==> Clear(patches, m'.value)
    {
      RunAdd(p, m, k, j);
      assert 0 <= k + j <= n;
    }
  }

  lemma {:induction false} StaysClearLess<D>(
      p: Config<Addr, D> -> Option<Config<Addr, D>>, patches: Patches, m: Config<Addr, D>, k: nat, n: nat)
    requires StaysClear(p, patches, m, n) && k <= n
    ensures StaysClear(p, patches, m, k)
  {
    hide Clear;
  }

  lemma {:induction false} NewAddressInTc(items: seq<Item>, table: seq<Entry>, tc: Segment, base: Addr, k: nat)
    requires Translated(items, table, tc, base) && k < |items| && |tc.bytes| <= TWO64
    ensures tc.Has(table[k].newInsAddr)
  {
    hide Translated;
    TranslatedAt(items, table, tc, base, k);
    OffsetBack(tc, TotalSize(items, k));
  }

  /** At a patch the original is at the same head, and the patch takes the process to the new address of it. */
  lemma {:induction false} PatchStep<D(!new)>(
      sem: Sem<D>, image: Segment, items: seq<Item>, table: seq<Entry>, tc: Segment, base: Addr, patches: Patches,
      c: Config<Addr, D>, m: Config<Addr, D>)
    requires Translated(items, table, tc, base) && |items| == |table|
    requires Disjoint(image, tc) && |tc.bytes| <= TWO64
    requires PatchesHeld(sem, patches) && Redirecting(image, items, table, patches)
    requires Corresponding(items, table, c, m) && m.locs != [] && m.locs[0] in patches
    ensures var m' := Step(sem, WithPatches(image, tc, patches), m);
      && m'.Some? && Corresponding(items, table, c, m'.value)
      && m'.value.locs != [] && tc.Has(m'.value.locs[0])
  {
    hide Translated, W64, Corresponding, Step, PatchesHeld, Segment.Has;
    var h := m.locs[0];
    HeadCorresponds(image, items, table, tc, base, c, m);
    assert EntryFor(items, table, h, patches[h]) && !tc.Has(h);
    var k :| 0 <= k < |items| && items[k].addr == h && table[k].newInsAddr == patches[h];
    NewAddressInTc(items, table, tc, base, k);
    PatchJump(sem, image, tc, patches, m);
    Moved(items, table, c, m, patches[h]);
  }

  /** Control of the process is in the image only where that of the original is. */
  lemma {:induction false} HeadCorresponds<D>(
      image: Segment, items: seq<Item>, table: seq<Entry>, tc: Segment, base: Addr,
      c: Config<Addr, D>, m: Config<Addr, D>)
    requires Translated(items, table, tc, base) && |items| == |table| && |tc.bytes| <= TWO64
    requires Corresponding(items, table, c, m) && m.locs != [] && image.Has(m.locs[0]) && Disjoint(image, tc)
    ensures c.locs != [] && c.locs[0] == m.locs[0]
  {
    hide Translated, Segment.Has;
    var h := m.locs[0];
    assert Corresponds(items, table, c.locs[0], h) && !tc.Has(h);
    forall j | 0 <= j < |items| ensures table[j].newInsAddr != h {
      NewAddressInTc(items, table, tc, base, j);
    }
  }

  lemma {:induction false} PatchJump<D(!new)>(
      sem: Sem<D>, image: Segment, tc: Segment, patches: Patches, m: Config<Addr, D>)
    requires PatchesHeld(sem, patches) && m.locs != [] && m.locs[0] in patches && !tc.Has(m.locs[0])
    ensures Step(sem, WithPatches(image, tc, patches), m) ==
      Some(Config([patches[m.locs[0]]] + m.locs[1..], m.data))
  {
    hide W64, Segment.Has;
    W64Idle(W64(m.locs[0] as int + 6));
  }

  lemma {:induction false} Moved<D>(
      items: seq<Item>, table: seq<Entry>, c: Config<Addr, D>, m: Config<Addr, D>, a: Addr)
    requires |items| == |table| && Corresponding(items, table, c, m) && m.locs != []
    requires EntryFor(items, table, c.locs[0], a)
    ensures Corresponding(items, table, c, Config([a] + m.locs[1..], m.data))
  {
    var locs := [a] + m.locs[1..];
    forall i | 0 <= i < |c.locs| ensures Corresponds(items, table, c.locs[i], locs[i]) {
      assert Corresponds(items, table, c.locs[i], m.locs[i]);
    }
  }

  lemma {:induction false} W64Idle(a: Addr)
    ensures W64(a + 0) == a
  {
  }

  /** Everywhere else the patches make no difference. */
  lemma {:induction false} UnpatchedStep<D(!new)>(
      sem: Sem<D>, image: Segment, tc: Segment, patches: Patches, m: Config<Addr, D>)
    requires m.locs != [] && (tc.Has(m.locs[0]) || m.locs[0] !in patches) && Clear(patches, m)
    ensures Step(sem, WithPatches(image, tc, patches), m) == Step(sem, WithTc(image, tc), m)
  {
    hide Fetch, Effect, W64;
  }

  /**
   The redirected process follows the original program through whole runs, with one more step for each redirected
   routine that code outside the TC calls, as long as control does not enter the middle of a patch.
  */
  lemma {:induction false} PatchedPreservesRuns<D(!new)>(
      sem: Sem<D>, image: Segment, items: seq<Item>, table: seq<Entry>, tc: Segment, base: Addr, patches: Patches,
      c: Config<Addr, D>, m: Config<Addr, D>, n: nat) returns (k: nat)
    requires ReadFrom(image, items) && StaysInside(items)
    requires Translated(items, table, tc, base) && Placeable(items, tc.base, base) && MapHeld(sem, table, base)
    requires Disjoint(image, tc) && |tc.bytes| <= TWO64
    requires PatchesHeld(sem, patches) && Redirecting(image, items, table, patches)
    requires Corresponding(items, table, c, m) && Run(Processor(sem, Original(image)), c, n).Some?
    requires StaysClear(Processor(sem, WithPatches(image, tc, patches)), patches, m, 2 * n)
    ensures n <= k <= 2 * n
    ensures var m' := Run(Processor(sem, WithPatches(image, tc, patches)), m, k);
      m'.Some? && Corresponding(items, table, Run(Processor(sem, Original(image)), c, n).value, m'.value)
    decreases n
  {
    hide Translated, Placeable, CellsHeld, MapHeld, Disjoint, StaysInside, ReadFrom, PatchesHeld, Redirecting,
      Corresponding, Step, StaysClear, Run;
    var p := Processor(sem, WithPatches(image, tc, patches));
    RunNext(Processor(sem, Original(image)), c, n);
    RunNext(p, m, 0);
    if n == 0 {
      k := 0;
    } else {
      StaysClearLess(p, patches, m, 1, 2 * n);
      var steps := AnswerStep(sem, image, items, table, tc, base, patches, c, m);
      var c1, m1 := Step(sem, Original(image), c).value, Run(p, m, steps).value;
      StaysClearLater(p, patches, m, steps, 2 * n);
      StaysClearLess(p, patches, m1, 2 * (n - 1), 2 * n - steps);
      k := PatchedPreservesRuns(sem, image, items, table, tc, base, patches, c1, m1, n - 1);
      RunAdd(p, m, steps, k);
      k := steps + k;
    }
  }

  /** One step of the original. */
  lemma {:induction false} AnswerStep<D(!new)>(
      sem: Sem<D>, image: Segment, items: seq<Item>, table: seq<Entry>, tc: Segment, base: Addr, patches: Patches,
      c: Config<Addr, D>, m: Config<Addr, D>) returns (k: nat)
    requires ReadFrom(image, items) && StaysInside(items)
    requires Translated(items, table, tc, base) && Placeable(items, tc.base, base) && MapHeld(sem, table, base)
    requires Disjoint(image, tc) && |tc.bytes| <= TWO64
    requires PatchesHeld(sem, patches) && Redirecting(image, items, table, patches)
    requires Corresponding(items, table, c, m) && Step(sem, Original(image), c).Some?
    requires StaysClear(Processor(sem, WithPatches(image, tc, patches)), patches, m, 1)
    ensures 1 <= k <= 2
    ensures var m' := Run(Processor(sem, WithPatches(image, tc, patches)), m, k);
      m'.Some? && Corresponding(items, table, Step(sem, Original(image), c).value, m'.value)
  {
    hide Translated, Placeable, CellsHeld, MapHeld, Disjoint, StaysInside, ReadFrom, PatchesHeld, Redirecting, Clear,
      StaysClear, Step, Corresponding, Fetch, Run, Segment.Has, Overwritten;
    var p := Processor(sem, WithPatches(image, tc, patches));
    StepNeedsCode(sem, image, c);
    LengthOf(items, table, tc, base);
    SameDepth(items, table, c, m);
    RunNone(p, m);
    StaysClearLater(p, patches, m, 0, 1);
    var at := m;
    k := 1;
    if m.locs[0] in patches {
      PatchStep(sem, image, items, table, tc, base, patches, c, m);
      OneStep(p, m);
      at, k := p(m).value, 2;
      StaysClearLater(p, patches, m, 1, 1);
    }
    TranslationPreservesStep(sem, image, items, table, tc, base, c, at);
    UnpatchedStep(sem, image, tc, patches, at);
    OneStep(p, at);
    if k == 2 {
      RunAdd(p, m, 1, 1);
    }
  }

  lemma {:induction false} StepNeedsCode<D(!new)>(sem: Sem<D>, image: Segment, c: Config<Addr, D>)
    requires Step(sem, Original(image), c).Some?
    ensures c.locs != []
  {
  }

  lemma {:induction false} SameDepth<D>(
      items: seq<Item>, table: seq<Entry>, c: Config<Addr, D>, m: Config<Addr, D>)
    requires |items| == |table| && Corresponding(items, table, c, m)
    ensures |c.locs| == |m.locs|
  {
  }

  lemma {:induction false} RunNone<S>(step: S -> Option<S>, s: S)
    ensures Run(step, s, 0) == Some(s)
  {
  }

  lemma {:induction false} TranslationPreservesStep<D(!new)>(
      sem: Sem<D>, image: Segment, items: seq<Item>, table: seq<Entry>, tc: Segment, base: Addr,
      c: Config<Addr, D>, m: Config<Addr, D>)
    requires ReadFrom(image, items) && StaysInside(items)
    requires Translated(items, table, tc, base) && Placeable(items, tc.base, base) && MapHeld(sem, table, base)
    requires Disjoint(image, tc) && |tc.bytes| <= TWO64
    requires Corresponding(items, table, c, m) && Step(sem, Original(image), c).Some?
    ensures var m' := Step(sem, WithTc(image, tc), m);
      m'.Some? && Corresponding(items, table, Step(sem, Original(image), c).value, m'.value)
  {
    hide Translated, Placeable, CellsHeld, MapHeld, Disjoint, StaysInside, ReadFrom, Corresponding, Step;
    OneStep(Processor(sem, Original(image)), c);
    OneStep(Processor(sem, WithTc(image, tc)), m);
    TranslationPreservesRuns(sem, image, items, table, tc, base, c, m, 1);
  }
}
