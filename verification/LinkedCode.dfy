/**
 The meaning of the instruction map, and the proof that the bytes in the TC have that meaning.

 In linked code control is at an entry of the map (`In`) or in the original image (`Out`).  A direct
 branch goes to the entry it is chained to, or back to the original code if it is not chained.
*/
module LinkedCode {
  import opened Words
  import opened Instructions
  import opened InstrMap
  import opened Machine
  import opened Simulation

  datatype Loc = In(index: nat) | Out(addr: Addr)

  /** Where a direct branch of entry `j` to `a` goes. */
  function Link(items: seq<Item>, j: nat, a: Addr): Loc {
    var r := Resolve(items, j, a);
    if r >= 0 then In(r) else Out(a)
  }

  function Target(items: seq<Item>, j: nat, ctl: Control): Loc {
    if (ctl.Jump? || ctl.CallTo?) && ctl.direct then Link(items, j, ctl.dest) else Out(Goal(ctl))
  }

  function LinkStep<D>(sem: Sem<D>, image: Segment, items: seq<Item>, c: Config<Loc, D>): Option<Config<Loc, D>> {
    if c.locs == [] then None
    else match c.locs[0]
      case In(j) =>
        if j >= |items| then None
        else
          var (d, ctl) := Effect(sem, items[j].code.ins, NextOf(items[j]), c.data);
          Landed(Move(ctl, In(j + 1), Target(items, j, ctl), c.locs[1..]), d)
      case Out(a) =>
        var code := Fetch(image, a);
        if code.None? then None
        else
          var next := W64(a + code.value.len);
          var (d, ctl) := Effect(sem, code.value.ins, next, c.data);
          Landed(Move(ctl, Out(next), Out(Goal(ctl)), c.locs[1..]), d)
  }

  function Linked<D>(sem: Sem<D>, image: Segment, items: seq<Item>): Config<Loc, D> -> Option<Config<Loc, D>> {
    (c: Config<Loc, D>) => LinkStep(sem, image, items, c)
  }

  /** The process with the translation in place: the TC on top of the original image. */
  function WithTc(image: Segment, tc: Segment): Addr -> Option<Decoded> {
    (a: Addr) => if tc.Has(a) then Fetch(tc, a) else Fetch(image, a)
  }

  function Original(image: Segment): Addr -> Option<Decoded> {
    (a: Addr) => Fetch(image, a)
  }

  // ----- What the pipeline leaves behind, and what it takes for that to be right -----

  /** The map and the TC after a translation that reported success. */
  ghost predicate Translated(items: seq<Item>, table: seq<Entry>, tc: Segment, base: Addr) {
    && |items| == |table| && EntriesOf(items, table) && AllSized(table)
    && Chained(items, table) && LaidOut(table, tc.base)
    && AllSettled(items, table, base, |items|) && !AnyStranded(items, table)
    && Offset(table, |table|) <= |tc.bytes| && Written(table, tc.bytes, |table|)
  }

  /** The displacement of the branch in entry `k` fits the width it is encoded with. */
  predicate Reaches(items: seq<Item>, table: seq<Entry>, base: Addr, k: nat)
    requires k < |items| == |table|
  {
    var it, e := items[k], table[k];
    if TargetOf(it) == 0 then true
    else if e.targMapEntry < 0 then Fits32(Signed64(CellOf(base, k) - (e.newInsAddr + 6)))
    else
      var distance := Signed64(NewTargOf(table, k) - (e.newInsAddr + FinalSize(it, true)));
      if it.code.ins.Loop? then Fits8(distance) else Fits32(distance)
  }

  /** A RIP-relative operand survives: the instruction kept its length when it was first re-encoded, and the
      address of the operand is one that a sign-extended 32-bit displacement can name. */
  predicate OperandFits(it: Item) {
    it.code.ins.Rip? ==> it.code.len == Size(it.code.ins) && Fits32(Signed64(NextOf(it) + it.code.ins.disp))
  }

  /** What the encodings cannot express stays out. */
  ghost predicate Encodable(items: seq<Item>, table: seq<Entry>, base: Addr) {
    |items| == |table| && forall k :: 0 <= k < |items| ==>
      && (IsDirect(items[k].code.ins) ==> TargetOf(items[k]) != 0)
      && OperandFits(items[k]) && Reaches(items, table, base, k)
  }

  /** The instruction map stays in memory: the cells of unchained branches hold the original targets. */
  ghost predicate CellsHeld<D(!new)>(sem: Sem<D>, items: seq<Item>, table: seq<Entry>, base: Addr) {
    |items| == |table| && forall k, d: D {:trigger sem.cell(CellOf(base, k), d)} ::
      0 <= k < |items| && TargetOf(items[k]) != 0 && table[k].targMapEntry < 0 ==>
        sem.cell(CellOf(base, k), d) == TargetOf(items[k])
  }

  ghost predicate Disjoint(s: Segment, t: Segment) {
    forall a: Addr :: !(s.Has(a) && t.Has(a))
  }

  // ----- One entry -----

  /** A chained branch lands on the entry it is chained to exactly when its displacement fits. */
  lemma {:induction false} ChainedLandsIff(items: seq<Item>, table: seq<Entry>, base: Addr, k: nat)
    requires k < |items| == |table| && Settled(items, table, base, k)
    requires TargetOf(items[k]) != 0 && table[k].targMapEntry >= 0
    ensures var i := Current(table[k].encodedIns);
      && IsDirect(i)
      && (W64(table[k].newInsAddr + Size(i) + i.disp) == NewTargOf(table, k) <==> Reaches(items, table, base, k))
  {
    hide W64, Current, Signed64, Sext32, Sext8;
    var i := Current(table[k].encodedIns);
    assert Size(i) == FinalSize(items[k], true);
    ReachIff(table[k].newInsAddr + Size(i), NewTargOf(table, k));
  }

  /** An unchained jump or call reads its own cell exactly when the displacement to that cell fits. */
  lemma {:induction false} CellReadIff(items: seq<Item>, table: seq<Entry>, base: Addr, k: nat)
    requires k < |items| == |table| && Settled(items, table, base, k)
    requires TargetOf(items[k]) != 0 && table[k].targMapEntry < 0
    ensures var i := Current(table[k].encodedIns);
      i.Rip? && (W64(table[k].newInsAddr + Size(i) + i.disp) == CellOf(base, k) <==> Reaches(items, table, base, k))
  {
    hide W64, Current, Signed64, Sext32, Sext8, CellOf;
    ReachIff(table[k].newInsAddr + 6, CellOf(base, k));
  }

  /** The absolute operand is at the address of the RIP-relative one exactly when `OperandFits`, wherever the
      instruction is placed. */
  lemma {:induction false} OperandKeptIff(it: Item)
    requires ValidItem(it) && it.code.ins.Rip?
    ensures var a := Absolute(it);
      a.Abs? && (W64(a.disp) == W64(NextOf(it) + it.code.ins.disp) <==> OperandFits(it))
  {
    var x := it.addr + it.code.ins.disp;
    var len, size := it.code.len, Size(it.code.ins);
    W64Absorbs(it.addr + len, it.code.ins.disp);
    W64Equal(Sext32(x + size), x + len);
    SignedIff(x + len, Sext32(x + size));
    SignedAbsorbs(x + len, NextOf(it) + it.code.ins.disp);
    SextOfSigned(x + len);
    SextFits(x + size);
    if Signed64(x + len) == Sext32(x + size) {
      SextOfSigned(x + len);
      SextDistinct(x + len, x + size);
    }
  }

  lemma {:induction false} SignedAbsorbs(x: int, y: int)
    requires W64(x) == W64(y)
    ensures Signed64(x) == Signed64(y)
  {
    W64Absorbs(x, TWO63);
    W64Absorbs(y, TWO63);
  }

  lemma {:induction false} SextDistinct(x: int, y: int)
    requires Sext32(x) == Sext32(y) && -16 < x - y < 16
    ensures x == y
  {
  }

  // ----- The TC follows the linked code -----

  /** Where location `l` is in memory. */
  ghost function Place(table: seq<Entry>, tc: Addr, l: Loc): Addr {
    match l
    case In(j) => if j <= |table| then W64(tc + Offset(table, j)) else 0
    case Out(a) => a
  }

  ghost predicate AtPlaces<D>(table: seq<Entry>, tc: Addr, c: Config<Loc, D>, m: Config<Addr, D>) {
    c.data == m.data && Placed(table, tc, c.locs, m.locs)
  }

  ghost predicate Placed(table: seq<Entry>, tc: Addr, ls: seq<Loc>, addrs: seq<Addr>) {
    && |ls| == |addrs|
    && forall k :: 0 <= k < |ls| ==> OnMap(table, ls[k]) && addrs[k] == Place(table, tc, ls[k])
  }

  predicate OnMap(table: seq<Entry>, l: Loc) { l.In? ==> l.index <= |table| }

  /** The same control, with the target moved to its place. */
  ghost predicate SameControl(table: seq<Entry>, tc: Addr, goto: Loc, ctl: Control, ctl': Control) {
    && (ctl.Fall? <==> ctl'.Fall?) && (ctl.Jump? <==> ctl'.Jump?) && (ctl.CallTo? <==> ctl'.CallTo?)
    && OnMap(table, goto)
    && (ctl.Jump? || ctl.CallTo? ==> Goal(ctl') == Place(table, tc, goto))
  }

  /** Equally shaped moves keep the stacks in step. */
  lemma {:induction false} MovesAlike(
      table: seq<Entry>, tc: Addr, ctl: Control, ctl': Control, fall: Loc, goto: Loc, rest: seq<Loc>, rest': seq<Addr>)
    requires SameControl(table, tc, goto, ctl, ctl') && OnMap(table, fall)
    requires Placed(table, tc, rest, rest')
    ensures var r := Move(ctl, fall, goto, rest); var r' := Move(ctl', Place(table, tc, fall), Goal(ctl'), rest');
      r.Some? ==> r'.Some? && Placed(table, tc, r.value, r'.value)
  {
    hide Place;
  }

  /** The final instruction of entry `k` does to the data what the original one does, and goes to the same place. */
  ghost predicate SameEffect<D(!new)>(sem: Sem<D>, items: seq<Item>, table: seq<Entry>, tc: Addr, k: nat, d: D)
    requires k < |items| == |table|
  {
    var i := Current(table[k].encodedIns);
    var (d1, ctl) := Effect(sem, items[k].code.ins, NextOf(items[k]), d);
    var (d2, ctl') := Effect(sem, i, W64(table[k].newInsAddr + Size(i)), d);
    d1 == d2 && SameControl(table, tc, Target(items, k, ctl), ctl, ctl')
  }

  lemma {:induction false} EntryEffect<D(!new)>(
      sem: Sem<D>, items: seq<Item>, table: seq<Entry>, tc: Addr, base: Addr, k: nat, d: D)
    requires k < |items| == |table| && EntryOf(items[k], table[k]) && Settled(items, table, base, k)
    requires Chained(items, table) && LaidOut(table, tc) && !Stranded(items[k], table[k])
    requires Encodable(items, table, base) && CellsHeld(sem, items, table, base)
    ensures SameEffect(sem, items, table, tc, k, d)
  {
    hide W64, LaidOut, Chained, Encodable, CellsHeld, SameEffect, Settled, TargetOf, Resolve, Stranded, EntryOf,
      OperandFits, Reaches;
    EncodableAt(items, table, base, k);
    if TargetOf(items[k]) == 0 {
      PlainEffect(sem, items, table, tc, base, k, d);
    } else {
      ChainedAt(items, table, k);
      if table[k].targMapEntry >= 0 {
        ChainedEffect(sem, items, table, tc, base, k, d);
      } else {
        CellHeldAt(sem, items, table, base, k, d);
        UnchainedEffect(sem, items, table, tc, base, k, d);
      }
    }
  }

  lemma {:induction false} PlainEffect<D(!new)>(
      sem: Sem<D>, items: seq<Item>, table: seq<Entry>, tc: Addr, base: Addr, k: nat, d: D)
    requires k < |items| == |table| && EntryOf(items[k], table[k]) && Settled(items, table, base, k)
    requires TargetOf(items[k]) == 0 && !IsDirect(items[k].code.ins) && OperandFits(items[k])
    ensures SameEffect(sem, items, table, tc, k, d)
  {
    hide W64, Current, Sext32, Sext8, Signed64, CellOf, Holds;
    if items[k].code.ins.Rip? {
      OperandKeptIff(items[k]);
    }
  }

  lemma {:induction false} ChainedEffect<D(!new)>(
      sem: Sem<D>, items: seq<Item>, table: seq<Entry>, tc: Addr, base: Addr, k: nat, d: D)
    requires k < |items| == |table| && Settled(items, table, base, k) && LaidOut(table, tc)
    requires TargetOf(items[k]) != 0 && Reaches(items, table, base, k)
    requires 0 <= table[k].targMapEntry == Resolve(items, k, TargetOf(items[k])) < |table|
    ensures SameEffect(sem, items, table, tc, k, d)
  {
    hide W64, LaidOut, Current, Sext32, Sext8, Signed64, CellOf, Holds;
    var e := table[k];
    var i := Current(e.encodedIns);
    DirectTarget(items[k]);
    W64Absorbs(e.newInsAddr + Size(i), i.disp);
    ChainedLandsIff(items, table, base, k);
    PlaceOfEntry(table, tc, e.targMapEntry);
  }

  lemma {:induction false} UnchainedEffect<D(!new)>(
      sem: Sem<D>, items: seq<Item>, table: seq<Entry>, tc: Addr, base: Addr, k: nat, d: D)
    requires k < |items| == |table| && Settled(items, table, base, k) && !Stranded(items[k], table[k])
    requires TargetOf(items[k]) != 0 && Reaches(items, table, base, k)
    requires table[k].targMapEntry == Resolve(items, k, TargetOf(items[k])) < 0
    requires sem.cell(CellOf(base, k), d) == TargetOf(items[k])
    ensures SameEffect(sem, items, table, tc, k, d)
  {
    hide W64, Current, Sext32, Sext8, Signed64, CellOf, Holds;
    var e := table[k];
    var i := Current(e.encodedIns);
    DirectTarget(items[k]);
    W64Absorbs(e.newInsAddr + Size(i), i.disp);
    CellReadIff(items, table, base, k);
  }

  lemma {:induction false} EncodableAt(items: seq<Item>, table: seq<Entry>, base: Addr, k: nat)
    requires Encodable(items, table, base) && k < |items|
    ensures (IsDirect(items[k].code.ins) ==> TargetOf(items[k]) != 0)
    ensures OperandFits(items[k]) && Reaches(items, table, base, k)
  {
  }

  lemma {:induction false} CellHeldAt<D(!new)>(
      sem: Sem<D>, items: seq<Item>, table: seq<Entry>, base: Addr, k: nat, d: D)
    requires CellsHeld(sem, items, table, base) && k < |items| && TargetOf(items[k]) != 0 && table[k].targMapEntry < 0
    ensures sem.cell(CellOf(base, k), d) == TargetOf(items[k])
  {
  }

  lemma {:induction false} ChainedAt(items: seq<Item>, table: seq<Entry>, k: nat)
    requires |items| == |table| && Chained(items, table) && k < |items| && TargetOf(items[k]) != 0
    ensures table[k].targMapEntry == Resolve(items, k, TargetOf(items[k])) < |table|
  {
    assert ChainedEntry(items, k, table[k]);
  }

  lemma {:induction false} DirectTarget(it: Item)
    requires IsDirect(it.code.ins)
    ensures TargetOf(it) == W64(NextOf(it) + it.code.ins.disp)
  {
    W64Absorbs(it.addr + it.code.len, it.code.ins.disp);
  }

  lemma {:induction false} PlaceOfEntry(table: seq<Entry>, tc: Addr, k: nat)
    requires LaidOut(table, tc) && k < |table|
    ensures table[k].newInsAddr == Place(table, tc, In(k)) && EndOf(table[k]) == Place(table, tc, In(k + 1))
  {
    LaidOutOffset(table, tc, k);
  }

  /** Fetching at the place of an entry yields the instruction the entry holds. */
  lemma {:induction false} FetchEntry(items: seq<Item>, table: seq<Entry>, tc: Segment, k: nat)
    requires k < |items| == |table| && EntriesOf(items, table) && AllSized(table)
    requires Offset(table, |table|) <= |tc.bytes| <= TWO64 && Written(table, tc.bytes, |table|)
    ensures var i := Current(table[k].encodedIns);
      Fetch(tc, Place(table, tc.base, In(k))) == Some(Decoded(i, Size(i)))
  {
    hide W64, Decode, Encode, EntriesOf, AllSized, Written;
    EntriesOfAt(items, table, k);
    var e, off := table[k], Offset(table, k);
    var i := Current(e.encodedIns);
    assert e.size == Size(i) by { SizedAt(table, k); }
    EntrySizeBounds(items[k], e);
    OffsetMonotone(table, k + 1, |table|);
    WrittenHere(table, tc.bytes, |table|, k);
    OffsetBack(tc, off);
    assert tc.bytes[off..] == Encode(i) + tc.bytes[off + e.size..];
    DecodeEncode(i, tc.bytes[off + e.size..]);
  }

  lemma {:induction false} SizedAt(table: seq<Entry>, k: nat)
    requires AllSized(table) && k < |table|
    ensures table[k].size == Size(Current(table[k].encodedIns))
  {
    assert Sized(table[k]);
  }

  lemma {:induction false} WrittenHere(table: seq<Entry>, bytes: seq<byte>, n: nat, k: nat)
    requires n <= |table| && k < n && Written(table, bytes, n)
    ensures WrittenAt(table[k], bytes, Offset(table, k))
  {
  }

  lemma {:induction false} OffsetBack(seg: Segment, off: nat)
    requires off < |seg.bytes| <= TWO64
    ensures seg.Offset(W64(seg.base + off)) == off && seg.Has(W64(seg.base + off))
  {
    var base: int := seg.base;
    W64Absorbs(base + off, -base);
  }

  /** One step of linked code is one step of the processor. */
  lemma {:induction false} TcFollowsStep<D(!new)>(
      sem: Sem<D>, image: Segment, items: seq<Item>, table: seq<Entry>, tc: Segment, base: Addr,
      c: Config<Loc, D>, m: Config<Addr, D>)
    requires Translated(items, table, tc, base) && Encodable(items, table, base) && CellsHeld(sem, items, table, base)
    requires Disjoint(image, tc) && |tc.bytes| <= TWO64
    requires AtPlaces(table, tc.base, c, m) && LinkStep(sem, image, items, c).Some?
    ensures var m' := Step(sem, WithTc(image, tc), m);
      m'.Some? && AtPlaces(table, tc.base, LinkStep(sem, image, items, c).value, m'.value)
  {
    hide Translated, Encodable, CellsHeld, Disjoint, AtPlaces;
    match c.locs[0]
    case In(k) => TcFollowsIn(sem, image, items, table, tc, base, c, m, k);
    case Out(a) => TcFollowsOut(sem, image, items, table, tc, c, m, a);
  }

  lemma {:induction false} TcFollowsIn<D(!new)>(
      sem: Sem<D>, image: Segment, items: seq<Item>, table: seq<Entry>, tc: Segment, base: Addr,
      c: Config<Loc, D>, m: Config<Addr, D>, k: nat)
    requires Translated(items, table, tc, base) && Encodable(items, table, base) && CellsHeld(sem, items, table, base)
    requires |tc.bytes| <= TWO64 && c.locs != [] && c.locs[0] == In(k)
    requires AtPlaces(table, tc.base, c, m) && LinkStep(sem, image, items, c).Some?
    ensures var m' := Step(sem, WithTc(image, tc), m);
      m'.Some? && AtPlaces(table, tc.base, LinkStep(sem, image, items, c).value, m'.value)
  {
    hide W64, Place, EntriesOf, AllSized, Chained, LaidOut, Written, Encodable, CellsHeld, Fetch, Effect, Resolve,
      Current, Size, Settled, Stranded, SameControl, FinalIns, Placed, Move, Target, Offset, EntryOf, TargetOf;
    PlacedSplit(table, tc.base, c.locs, m.locs);
    EntriesOfAt(items, table, k);
    FetchEntry(items, table, tc, k);
    PlaceOfEntry(table, tc.base, k);
    assert Settled(items, table, base, k);
    EntryEffect(sem, items, table, tc.base, base, k, c.data);
    SizedAt(table, k);
    var i := Current(table[k].encodedIns);
    var (d1, ctl) := Effect(sem, items[k].code.ins, NextOf(items[k]), c.data);
    var (d2, ctl') := Effect(sem, i, W64(table[k].newInsAddr + Size(i)), c.data);
    MovesAlike(table, tc.base, ctl, ctl', In(k + 1), Target(items, k, ctl), c.locs[1..], m.locs[1..]);
  }

  lemma {:induction false} TcFollowsOut<D(!new)>(
      sem: Sem<D>, image: Segment, items: seq<Item>, table: seq<Entry>, tc: Segment,
      c: Config<Loc, D>, m: Config<Addr, D>, a: Addr)
    requires Disjoint(image, tc) && c.locs != [] && c.locs[0] == Out(a)
    requires AtPlaces(table, tc.base, c, m) && LinkStep(sem, image, items, c).Some?
    ensures var m' := Step(sem, WithTc(image, tc), m);
      m'.Some? && AtPlaces(table, tc.base, LinkStep(sem, image, items, c).value, m'.value)
  {
    hide W64, Place, Fetch, Effect, SameControl, Placed, Move, Offset;
    PlacedSplit(table, tc.base, c.locs, m.locs);
    PlaceOut(table, tc.base, a);
    assert image.Has(a) && !tc.Has(a);
    var code := Fetch(image, a).value;
    var next := W64(a + code.len);
    var (d, ctl) := Effect(sem, code.ins, next, c.data);
    PlaceOut(table, tc.base, next);
    OutControl(table, tc.base, ctl);
    MovesAlike(table, tc.base, ctl, ctl, Out(next), Out(Goal(ctl)), c.locs[1..], m.locs[1..]);
  }

  lemma {:induction false} PlacedSplit(table: seq<Entry>, tc: Addr, ls: seq<Loc>, addrs: seq<Addr>)
    requires Placed(table, tc, ls, addrs) && ls != []
    ensures addrs != [] && OnMap(table, ls[0]) && addrs[0] == Place(table, tc, ls[0])
    ensures Placed(table, tc, ls[1..], addrs[1..])
  {
    hide Place;
  }

  lemma {:induction false} PlaceOut(table: seq<Entry>, tc: Addr, a: Addr)
    ensures Place(table, tc, Out(a)) == a
  {
  }

  lemma {:induction false} OutControl(table: seq<Entry>, tc: Addr, ctl: Control)
    ensures SameControl(table, tc, Out(Goal(ctl)), ctl, ctl)
  {
  }

  /** Layout correctness over whole runs: for as long as the linked code runs, the process with the TC runs in
      step with it, every location at its place. */
  lemma {:induction false} TcFollowsLinkedCode<D(!new)>(
      sem: Sem<D>, image: Segment, items: seq<Item>, table: seq<Entry>, tc: Segment, base: Addr,
      c: Config<Loc, D>, m: Config<Addr, D>, n: nat)
    requires Translated(items, table, tc, base) && Encodable(items, table, base) && CellsHeld(sem, items, table, base)
    requires Disjoint(image, tc) && |tc.bytes| <= TWO64
    requires AtPlaces(table, tc.base, c, m) && Run(Linked(sem, image, items), c, n).Some?
    ensures var m' := Run(Processor(sem, WithTc(image, tc)), m, n);
      m'.Some? && AtPlaces(table, tc.base, Run(Linked(sem, image, items), c, n).value, m'.value)
  {
    var rel := (c: Config<Loc, D>, m: Config<Addr, D>) => AtPlaces(table, tc.base, c, m);
    forall c: Config<Loc, D>, m: Config<Addr, D> | rel(c, m) && Linked(sem, image, items)(c).Some?
      ensures var m' := Processor(sem, WithTc(image, tc))(m);
        m'.Some? && rel(Linked(sem, image, items)(c).value, m'.value)
    {
      TcFollowsStep(sem, image, items, table, tc, base, c, m);
    }
    FollowsRun(Linked(sem, image, items), Processor(sem, WithTc(image, tc)), rel, c, m, n);
  }
}
