/** The instruction map: one record for every instruction placed in the translation cache (TC). */
module InstrMap {
  import opened Words
  import opened Instructions

  /** An instruction queued for translation: its original address and what was decoded there. */
  datatype Item = Item(addr: Addr, code: Decoded)

  predicate ValidItem(it: Item) {
    Valid(it.code.ins) && Size(it.code.ins) <= it.code.len <= MAX_BYTES
  }

  /** The address after the original instruction. */
  function NextOf(it: Item): Addr { W64(it.addr + it.code.len) }

  /** The original target of a direct branch; 0 stands for "not a direct branch". */
  function TargetOf(it: Item): Addr {
    if IsDirect(it.code.ins) then W64(it.addr + it.code.len + it.code.ins.disp) else 0
  }

  datatype Entry = Entry(
    origInsAddr: Addr,
    newInsAddr: Addr,
    origTargAddr: Addr,
    hasNewTargAddr: bool,
    encodedIns: Buffer,
    category: Category,
    size: nat,
    targMapEntry: int)

  // ----- Chaining -----

  /** `j` is the entry a branch of entry `i` to `target` is chained to: the first other entry with that address. */
  ghost predicate ChainsTo(items: seq<Item>, i: nat, target: Addr, j: int) {
    if j == -1 then forall k :: 0 <= k < |items| && k != i ==> items[k].addr != target
    else
      && 0 <= j < |items| && j != i && items[j].addr == target
      && forall k :: 0 <= k < j && k != i ==> items[k].addr != target
  }

  function Resolve(items: seq<Item>, i: nat, target: Addr): (j: int)
    ensures ChainsTo(items, i, target, j)
  {
    ResolveFrom(items, i, target, 0)
  }

  function ResolveFrom(items: seq<Item>, i: nat, target: Addr, from: nat): (j: int)
    requires from <= |items|
    requires forall k :: 0 <= k < from && k != i ==> items[k].addr != target
    ensures ChainsTo(items, i, target, j)
    decreases |items| - from
  {
    if from == |items| then -1
    else if from != i && items[from].addr == target then from
    else ResolveFrom(items, i, target, from + 1)
  }

  lemma {:induction false} ChainsToUnique(items: seq<Item>, i: nat, target: Addr, j: int, j': int)
    requires ChainsTo(items, i, target, j) && ChainsTo(items, i, target, j')
    ensures j == j'
  {
  }

  ghost predicate ChainedEntry(items: seq<Item>, k: nat, e: Entry)
    requires k < |items|
  {
    e.targMapEntry == if TargetOf(items[k]) == 0 then -1 else Resolve(items, k, TargetOf(items[k]))
  }

  ghost predicate Chained(items: seq<Item>, table: seq<Entry>)
    requires |items| == |table|
  {
    forall k {:trigger table[k]} :: 0 <= k < |items| ==> ChainedEntry(items, k, table[k])
  }

  // ----- Layout -----

  function EndOf(e: Entry): Addr { W64(e.newInsAddr + e.size) }

  /** Entries sit one after the other from the start of the TC, without gap or overlap. */
  ghost predicate LaidOut(table: seq<Entry>, tc: Addr) {
    && (table != [] ==> table[0].newInsAddr == tc)
    && forall k {:trigger table[k].size} :: 0 <= k < |table| - 1 ==> table[k + 1].newInsAddr == EndOf(table[k])
  }

  /** Bytes taken by the first `k` entries. */
  ghost function Offset(table: seq<Entry>, k: nat): nat
    requires k <= |table|
  {
    if k == 0 then 0 else Offset(table, k - 1) + table[k - 1].size
  }

  lemma {:induction false} LaidOutOffset(table: seq<Entry>, tc: Addr, k: nat)
    requires LaidOut(table, tc) && k < |table|
    ensures table[k].newInsAddr == W64(tc + Offset(table, k))
    ensures EndOf(table[k]) == W64(tc + Offset(table, k + 1))
  {
    if k > 0 {
      LaidOutOffset(table, tc, k - 1);
      assert EndOf(table[k - 1]) == table[k].newInsAddr && table[k - 1].size >= 0;
    }
    W64Absorbs(tc + Offset(table, k), table[k].size);
  }

  lemma {:induction false} OffsetMonotone(table: seq<Entry>, j: nat, k: nat)
    requires j <= k <= |table|
    ensures Offset(table, j) <= Offset(table, k)
  {
    if j < k {
      OffsetMonotone(table, j, k - 1);
    }
  }

  /** Some entry made from the instruction at `a` is at `a'`. */
  ghost predicate EntryFor(items: seq<Item>, table: seq<Entry>, a: Addr, a': Addr)
    requires |items| == |table|
  {
    exists k :: 0 <= k < |items| && items[k].addr == a && table[k].newInsAddr == a'
  }

  // ----- What an entry holds -----

  predicate Encodes(buf: Buffer, i: Ins) {
    && Valid(i)
    && buf[..Size(i)] == Encode(i)
    && Decode(buf) == Some(Decoded(i, Size(i)))
  }

  /** The instruction currently in the buffer. */
  function Current(buf: Buffer): Ins {
    var r := Decode(buf);
    if r.Some? then r.value.ins else Ret
  }

  /** The address of the `origTargAddr` field of entry `k` of a table at `base`: 56-byte records, field at 16. */
  function CellOf(base: Addr, k: nat): Addr { W64(base + 56 * k + 16) }

  /** The instruction of `it` without RIP-relative operand: the operand's address, cut to 32 bits, becomes absolute. */
  function Absolute(it: Item): Ins {
    if it.code.ins.Rip? then
      Abs(it.code.ins.use, Sext32(it.addr + it.code.ins.disp + Size(it.code.ins)))
    else it.code.ins
  }

  /** The instruction an entry must hold in the final TC: a chained branch is aimed at the new address of its
      target, an unchained one goes through the memory cell that holds its original target. */
  function FinalIns(it: Item, chained: bool, newInsAddr: Addr, newTargAddr: Addr, cell: Addr): Ins {
    if TargetOf(it) == 0 then Absolute(it)
    else if chained then Retarget(it.code.ins, newTargAddr - (newInsAddr + FinalSize(it, true)))
    else ThroughCell(it.code.ins.Call?, cell - (newInsAddr + FinalSize(it, false)))
  }

  function FinalSize(it: Item, chained: bool): nat {
    if TargetOf(it) == 0 then Size(Absolute(it))
    else if chained then Size(Retarget(it.code.ins, 0))
    else 6
  }

  lemma {:induction false} FinalInsSize(it: Item, chained: bool, newInsAddr: Addr, newTargAddr: Addr, cell: Addr)
    ensures Size(FinalIns(it, chained, newInsAddr, newTargAddr, cell)) == FinalSize(it, chained)
  {
  }

  /** The forms an instruction can take between being added and being final. */
  predicate FormOf(it: Item, chained: bool, i: Ins) {
    || i == it.code.ins
    || if TargetOf(it) == 0 then i == Absolute(it)
       else if chained then IsDirect(i) && i == Retarget(it.code.ins, i.disp)
       else i.Rip? && i == ThroughCell(it.code.ins.Call?, i.disp) && CategoryOf(i) == CategoryOf(it.code.ins)
  }

  /** Re-encoding never makes an instruction shorter. */
  lemma {:induction false} FormSize(it: Item, e: Entry)
    requires EntryOf(it, e) && !Stranded(it, e)
    ensures Size(it.code.ins) <= Size(Current(e.encodedIns)) <= FinalSize(it, e.targMapEntry >= 0)
  {
  }

  /** A conditional branch that leaves the translated code; no encoding through a memory cell exists for it. */
  predicate Stranded(it: Item, e: Entry) {
    TargetOf(it) != 0 && CategoryOf(it.code.ins) == CondBr && e.targMapEntry < 0
  }

  ghost predicate EntryOf(it: Item, e: Entry) {
    && ValidItem(it)
    && e.origInsAddr == it.addr && e.origTargAddr == TargetOf(it) && e.category == CategoryOf(it.code.ins)
    && Encodes(e.encodedIns, Current(e.encodedIns))
    && FormOf(it, e.targMapEntry >= 0, Current(e.encodedIns))
  }

  ghost predicate Sized(e: Entry) { e.size == Size(Current(e.encodedIns)) }

  /** The entry made for a newly added item. */
  function NewEntry(it: Item, newInsAddr: Addr, buf: Buffer): Entry
    requires ValidItem(it)
  {
    Entry(it.addr, newInsAddr, TargetOf(it), false, EncodeInto(buf, it.code.ins), CategoryOf(it.code.ins),
          Size(it.code.ins), -1)
  }

  ghost predicate FreshEntry(it: Item, e: Entry) {
    && EntryOf(it, e) && Sized(e) && Current(e.encodedIns) == it.code.ins
  }

  lemma {:induction false} FreshIsEntry(it: Item, e: Entry)
    requires FreshEntry(it, e)
    ensures EntryOf(it, e)
  {
  }

  lemma {:induction false} NewEntryFresh(it: Item, newInsAddr: Addr, buf: Buffer)
    requires ValidItem(it)
    ensures FreshEntry(it, NewEntry(it, newInsAddr, buf))
  {
  }

  ghost predicate EntriesOf(items: seq<Item>, table: seq<Entry>) {
    |items| == |table| && forall k :: 0 <= k < |items| ==> EntryOf(items[k], table[k])
  }

  lemma {:induction false} EntriesOfAt(items: seq<Item>, table: seq<Entry>, i: nat)
    requires EntriesOf(items, table) && i < |items|
    ensures EntryOf(items[i], table[i])
  {
  }

  /** Decodes the buffer of an entry, which cannot fail. */
  function DecodeEntry(ghost it: Item, e: Entry): (r: Decoded)
    requires EntryOf(it, e)
    ensures r == Decoded(Current(e.encodedIns), Size(Current(e.encodedIns)))
  {
    Decode(e.encodedIns).value
  }

  lemma {:induction false} EntriesOfUpdate(items: seq<Item>, table: seq<Entry>, i: nat, e: Entry)
    requires EntriesOf(items, table) && i < |items| && EntryOf(items[i], e)
    ensures EntriesOf(items, table[i := e])
  {
    hide EntryOf;
  }

  // ----- Adding instructions -----

  /** Every instruction is in the map as it was decoded. */
  ghost predicate AsDecoded(items: seq<Item>, table: seq<Entry>) {
    |items| == |table| && forall k :: 0 <= k < |items| ==> FreshEntry(items[k], table[k])
  }

  /** The map while instructions are being added: nothing is chained yet, and the estimated end is the real one. */
  ghost predicate Added(items: seq<Item>, table: seq<Entry>, tc: Addr, tcCursor: nat) {
    && AsDecoded(items, table) && LaidOut(table, tc)
    && W64(tc + tcCursor) == (if table == [] then tc else EndOf(table[|table| - 1]))
    && forall k :: 0 <= k < |table| ==> !table[k].hasNewTargAddr && table[k].targMapEntry == -1
  }

  lemma {:induction false} AddedNone(tc: Addr)
    ensures Added([], [], tc, 0)
  {
  }

  lemma {:induction false} AddedStep(
      items: seq<Item>, table: seq<Entry>, tc: Addr, tcCursor: nat, it: Item, buf: Buffer)
    requires Added(items, table, tc, tcCursor) && ValidItem(it)
    ensures Added(items + [it], table + [NewEntry(it, W64(tc + tcCursor), buf)], tc, tcCursor + Size(it.code.ins))
  {
    hide W64, Decode, Encode, FreshEntry, Size, LaidOut, TargetOf, CategoryOf, ValidItem;
    var e := NewEntry(it, W64(tc + tcCursor), buf);
    NewEntryFresh(it, W64(tc + tcCursor), buf);
    LaidOutAppend(table, tc, e);
    W64Absorbs(tc + tcCursor, Size(it.code.ins));
  }

  lemma {:induction false} LaidOutAppend(table: seq<Entry>, tc: Addr, e: Entry)
    requires LaidOut(table, tc) && e.newInsAddr == if table == [] then tc else EndOf(table[|table| - 1])
    ensures LaidOut(table + [e], tc)
  {
    hide W64, EndOf;
    var table' := table + [e];
    forall k | 0 <= k < |table'| - 1 ensures table'[k + 1].newInsAddr == EndOf(table'[k]) {
      assert table'[k] == table[k] && table[k].size >= 0;
    }
  }

  /** Chaining has reached entry `i`: nothing but the targets of the entries before it has changed. */
  ghost predicate ChainedUpTo(items: seq<Item>, start: seq<Entry>, table: seq<Entry>, i: nat) {
    && i <= |items| == |table| == |start|
    && (forall k :: 0 <= k < |items| ==> SameButTarget(start[k], table[k]))
    && (forall k :: i <= k < |items| ==> table[k] == start[k])
    && (forall k :: 0 <= k < i ==> ChainedEntry(items, k, table[k]))
  }

  lemma {:induction false} ChainedStep(items: seq<Item>, start: seq<Entry>, table: seq<Entry>, i: nat, e: Entry)
    requires ChainedUpTo(items, start, table, i) && i < |items|
    requires SameButTarget(table[i], e) && ChainedEntry(items, i, e)
    ensures ChainedUpTo(items, start, table[i := e], i + 1)
  {
    hide ChainedEntry;
  }

  predicate SameButTarget(e: Entry, e': Entry) {
    e' == e.(hasNewTargAddr := e'.hasNewTargAddr, targMapEntry := e'.targMapEntry)
  }

  /** Once chaining is complete the map is ready for its displacements to be fixed. */
  lemma {:induction false} ChainedEnd(items: seq<Item>, start: seq<Entry>, table: seq<Entry>, tc: Addr)
    requires ChainedUpTo(items, start, table, |items|) && LaidOut(start, tc) && AsDecoded(items, start)
    ensures Chained(items, table) && LaidOut(table, tc) && AsDecoded(items, table)
  {
    hide W64, EntryOf, FreshEntry, SameButTarget, EndOf, ChainedEntry;
    forall k | 0 <= k < |table|
      ensures FreshEntry(items[k], table[k])
      ensures start[k].newInsAddr == table[k].newInsAddr && EndOf(start[k]) == EndOf(table[k])
    {
      assert SameButTarget(start[k], table[k]) && FreshEntry(items[k], start[k]);
      FreshRechained(items[k], start[k], table[k]);
    }
    forall k | 0 <= k < |table| - 1 ensures table[k + 1].newInsAddr == EndOf(table[k]) {
      assert start[k + 1].newInsAddr == EndOf(start[k]) && start[k].size >= 0;
    }
  }

  lemma {:induction false} FreshRechained(it: Item, e: Entry, e': Entry)
    requires SameButTarget(e, e') && FreshEntry(it, e)
    ensures FreshEntry(it, e') && e'.newInsAddr == e.newInsAddr && EndOf(e') == EndOf(e)
  {
    hide W64, Decode, Encode, Size, TargetOf, CategoryOf, ValidItem;
  }

  // ----- Passes over the map -----

  /** The new address of the entry that entry `k` is chained to. */
  function NewTargOf(table: seq<Entry>, k: nat): Addr
    requires k < |table|
  {
    var t := table[k].targMapEntry;
    if 0 <= t < |table| then table[t].newInsAddr else 0
  }

  /** Entry `k` holds what it must hold, the addresses in the map being what they now are. */
  predicate Settled(items: seq<Item>, table: seq<Entry>, base: Addr, k: nat)
    requires k < |items| == |table|
  {
    Current(table[k].encodedIns) ==
    FinalIns(items[k], table[k].targMapEntry >= 0, table[k].newInsAddr, NewTargOf(table, k), CellOf(base, k))
  }

  lemma {:induction false} SettledPlain(items: seq<Item>, table: seq<Entry>, base: Addr, k: nat)
    requires k < |items| == |table| && TargetOf(items[k]) == 0 && Current(table[k].encodedIns) == Absolute(items[k])
    ensures Settled(items, table, base, k)
  {
  }

  lemma {:induction false} SettledSize(items: seq<Item>, table: seq<Entry>, base: Addr, k: nat)
    requires k < |items| == |table| && Settled(items, table, base, k)
    ensures Size(Current(table[k].encodedIns)) == FinalSize(items[k], table[k].targMapEntry >= 0)
  {
    var e := table[k];
    FinalInsSize(items[k], e.targMapEntry >= 0, e.newInsAddr, NewTargOf(table, k), CellOf(base, k));
  }

  lemma {:induction false} SettledResized(items: seq<Item>, table: seq<Entry>, base: Addr, k: nat, size: nat)
    requires k < |items| == |table| && Settled(items, table, base, k)
    ensures Settled(items, table[k := table[k].(size := size)], base, k)
  {
    hide FinalIns, Current, CellOf;
  }

  /** An entry of its final length, which one that is stranded never has. */
  predicate Grown(it: Item, e: Entry) {
    !Stranded(it, e) && e.size == FinalSize(it, e.targMapEntry >= 0)
  }

  ghost predicate AllGrown(items: seq<Item>, table: seq<Entry>, n: nat)
    requires n <= |items| == |table|
  {
    forall k :: 0 <= k < n ==> Grown(items[k], table[k])
  }

  ghost predicate AllSettled(items: seq<Item>, table: seq<Entry>, base: Addr, n: nat)
    requires n <= |items| == |table|
  {
    forall k :: 0 <= k < n ==> Settled(items, table, base, k)
  }

  ghost predicate SameTargets(s: seq<Entry>, t: seq<Entry>) {
    |s| == |t| && forall k :: 0 <= k < |s| ==> s[k].targMapEntry == t[k].targMapEntry
  }

  /** The addresses when a pass has reached entry `i`: the entries before `i` are in their new places, and the
      others are all off by the same `diff`. */
  ghost predicate Shifted(table: seq<Entry>, tc: Addr, i: nat, diff: int)
    requires i <= |table|
  {
    && (table != [] ==> table[0].newInsAddr == tc) && (i == 0 ==> diff == 0)
    && (forall k {:trigger table[k].size} :: 0 <= k < |table| - 1 && k != i - 1 ==>
      table[k + 1].newInsAddr == EndOf(table[k]))
    && (0 < i < |table| ==> W64(table[i].newInsAddr + diff) == EndOf(table[i - 1]))
  }

  /** The address a pass that began with `start` aims the branch of entry `k` at: where its target is now if that
      was reached before, and otherwise where it was when the pass began. */
  function AimedAt(start: seq<Entry>, table: seq<Entry>, k: nat): Addr
    requires k < |table| == |start|
  {
    var t := table[k].targMapEntry;
    if 0 <= t <= k then table[t].newInsAddr else if k < t < |table| then start[t].newInsAddr else 0
  }

  /** What the pass has put into entry `k`. */
  ghost predicate Aimed(items: seq<Item>, start: seq<Entry>, table: seq<Entry>, base: Addr, k: nat)
    requires k < |items| == |table| == |start|
  {
    Current(table[k].encodedIns) ==
    FinalIns(items[k], table[k].targMapEntry >= 0, table[k].newInsAddr, AimedAt(start, table, k), CellOf(base, k))
  }

  ghost predicate AllAimed(items: seq<Item>, start: seq<Entry>, table: seq<Entry>, base: Addr, n: nat)
    requires n <= |items| == |table| == |start|
  {
    forall k :: 0 <= k < n ==> Aimed(items, start, table, base, k)
  }

  lemma {:induction false} AimedStep(
      items: seq<Item>, start: seq<Entry>, table: seq<Entry>, base: Addr, i: nat, e: Entry)
    requires i < |items| == |table| == |start| && AllAimed(items, start, table, base, i)
    requires forall k :: i <= k < |table| ==> table[k] == start[k]
    requires Settled(items, table[i := e], base, i)
    ensures AllAimed(items, start, table[i := e], base, i + 1)
  {
    hide W64, Current, CellOf, FinalIns;
    var table' := table[i := e];
    forall k | 0 <= k < i ensures Aimed(items, start, table', base, k) {
      assert Aimed(items, start, table, base, k);
    }
  }

  /** A pass that began with `start` has reached entry `i`.  Sizes only grow, so while the difference is 0 nothing
      has moved and what was encoded is still right. */
  ghost predicate PassInv(
      items: seq<Item>, start: seq<Entry>, table: seq<Entry>, tc: Addr, base: Addr, i: nat, diff: int)
  {
    && i <= |items| == |table| == |start|
    && Shifted(table, tc, i, diff)
    && diff >= 0
    && (forall k :: i <= k < |table| ==> table[k] == start[k])
    && AllGrown(items, table, i) && AllAimed(items, start, table, base, i)
    && (diff == 0 ==> AllSettled(items, table, base, i))
    && (AllGrown(items, start, |start|) ==> diff == 0)
  }

  lemma {:induction false} PassStart(items: seq<Item>, table: seq<Entry>, tc: Addr, base: Addr)
    requires |items| == |table| && LaidOut(table, tc)
    ensures PassInv(items, table, table, tc, base, 0, 0)
  {
  }

  lemma {:induction false} ShiftedStep(table: seq<Entry>, tc: Addr, i: nat, diff: int, e: Entry)
    requires i < |table| && Shifted(table, tc, i, diff) && e.newInsAddr == W64(table[i].newInsAddr + diff)
    ensures Shifted(table[i := e], tc, i + 1, diff + e.size - table[i].size)
  {
    hide W64;
    W64Id(table[i].newInsAddr);
    W64Shift(table[i].newInsAddr, table[i].size, diff, e.size - table[i].size);
    var table' := table[i := e];
    forall k | 0 <= k < |table| - 1 && k != i ensures table'[k + 1].newInsAddr == EndOf(table'[k]) {
      assert table[k].size >= 0;
      assert k != i - 1 ==> table'[k] == table[k];
    }
    if i + 1 < |table| {
      assert table[i].size >= 0;
    }
  }

  lemma {:induction false} GrownSame(it: Item, e: Entry, e': Entry)
    requires Grown(it, e) && Grown(it, e') && e.targMapEntry == e'.targMapEntry
    ensures e.size == e'.size
  {
  }

  lemma {:induction false} PassStep(
      items: seq<Item>, start: seq<Entry>, table: seq<Entry>, tc: Addr, base: Addr, i: nat, diff: int, e: Entry)
    requires PassInv(items, start, table, tc, base, i, diff) && i < |table|
    requires e.newInsAddr == W64(table[i].newInsAddr + diff) && e.targMapEntry == table[i].targMapEntry
    requires table[i].size <= e.size && Grown(items[i], e) && Settled(items, table[i := e], base, i)
    ensures PassInv(items, start, table[i := e], tc, base, i + 1, diff + e.size - table[i].size)
  {
    hide W64, Current, CellOf, FinalIns, Grown, Shifted, AllAimed;
    var table', diff' := table[i := e], diff + e.size - table[i].size;
    AimedStep(items, start, table, base, i, e);
    ShiftedStep(table, tc, i, diff, e);
    W64Id(table[i].newInsAddr);
    if diff' == 0 {
      forall k | 0 <= k < i ensures Settled(items, table', base, k) {
        assert Settled(items, table, base, k) && NewTargOf(table, k) == NewTargOf(table', k);
      }
    }
    if AllGrown(items, start, |start|) {
      assert Grown(items[i], start[i]) && Grown(items[i], e);
      GrownSame(items[i], start[i], e);
    }
  }

  lemma {:induction false} PassEnd(
      items: seq<Item>, start: seq<Entry>, table: seq<Entry>, tc: Addr, base: Addr, diff: int)
    requires PassInv(items, start, table, tc, base, |table|, diff)
    ensures LaidOut(table, tc) && AllGrown(items, table, |table|) && AllAimed(items, start, table, base, |table|)
    ensures diff == 0 ==> AllSettled(items, table, base, |table|)
    ensures AllGrown(items, start, |start|) ==> diff == 0
  {
  }

  ghost predicate ValidTargets(table: seq<Entry>) {
    forall k :: 0 <= k < |table| ==> -1 <= table[k].targMapEntry < |table| && table[k].targMapEntry != k
  }

  ghost predicate AllSized(table: seq<Entry>) {
    forall k :: 0 <= k < |table| ==> Sized(table[k])
  }

  ghost predicate AnyStranded(items: seq<Item>, table: seq<Entry>)
    requires |items| == |table|
  {
    exists k :: 0 <= k < |items| && Stranded(items[k], table[k])
  }

  /** Some conditional branch has no entry to go to. */
  ghost predicate Leaving(items: seq<Item>) {
    exists k :: 0 <= k < |items| && LeavingAt(items, k)
  }

  predicate LeavingAt(items: seq<Item>, k: nat)
    requires k < |items|
  {
    CategoryOf(items[k].code.ins) == CondBr && TargetOf(items[k]) != 0 && Resolve(items, k, TargetOf(items[k])) < 0
  }

  lemma {:induction false} StrandedLeaving(items: seq<Item>, table: seq<Entry>)
    requires |items| == |table| && Chained(items, table)
    ensures AnyStranded(items, table) <==> Leaving(items)
  {
    hide TargetOf, CategoryOf, Resolve;
    forall k | 0 <= k < |items| ensures Stranded(items[k], table[k]) <==> LeavingAt(items, k) {
      assert ChainedEntry(items, k, table[k]);
    }
  }

  lemma {:induction false} ChainedSame(items: seq<Item>, s: seq<Entry>, t: seq<Entry>)
    requires |items| == |s| && Chained(items, s) && SameTargets(s, t)
    ensures Chained(items, t)
  {
    hide TargetOf, Resolve;
    forall k | 0 <= k < |t| ensures ChainedEntry(items, k, t[k]) {
      assert ChainedEntry(items, k, s[k]);
    }
  }

  lemma {:induction false} ReadyToFix(items: seq<Item>, table: seq<Entry>)
    requires |items| == |table| && Chained(items, table) && AsDecoded(items, table)
    ensures ValidTargets(table) && AllSized(table)
  {
    hide TargetOf, Current, EntryOf, Size;
    forall k | 0 <= k < |table|
      ensures -1 <= table[k].targMapEntry < |table| && table[k].targMapEntry != k && Sized(table[k])
    {
      assert ChainedEntry(items, k, table[k]) && FreshEntry(items[k], table[k]);
    }
  }

  /** The bytes the first `n` items take in the TC, known before anything is encoded. */
  ghost function TotalSize(items: seq<Item>, n: nat): nat
    requires n <= |items|
  {
    if n == 0 then 0
    else
      var it := items[n - 1];
      TotalSize(items, n - 1) + FinalSize(it, TargetOf(it) != 0 && Resolve(items, n - 1, TargetOf(it)) >= 0)
  }

  lemma {:induction false} OffsetTotal(items: seq<Item>, table: seq<Entry>, base: Addr, n: nat)
    requires n <= |items| == |table| && AllSized(table) && Chained(items, table)
    requires AllSettled(items, table, base, |items|)
    ensures Offset(table, n) == TotalSize(items, n)
  {
    hide TargetOf, FinalIns, FinalSize, Current, Resolve, CellOf;
    if n > 0 {
      var k := n - 1;
      OffsetTotal(items, table, base, k);
      assert Sized(table[k]) && ChainedEntry(items, k, table[k]) && Settled(items, table, base, k);
      FinalInsSize(items[k], table[k].targMapEntry >= 0, table[k].newInsAddr, NewTargOf(table, k), CellOf(base, k));
    }
  }

  lemma {:induction false} NoneStranded(items: seq<Item>, table: seq<Entry>)
    requires |items| == |table| && AllGrown(items, table, |table|)
    ensures !AnyStranded(items, table)
  {
  }

  // ----- The TC -----

  /** Each of the first `n` entries is addressed where the sizes of those before it put it. */
  ghost predicate AtOffsets(table: seq<Entry>, tc: Addr, n: nat)
    requires n <= |table|
  {
    forall k {:trigger Offset(table, k)} :: 0 <= k < n ==> table[k].newInsAddr == W64(tc + Offset(table, k))
  }

  lemma {:induction false} LaidOutAtOffsets(table: seq<Entry>, tc: Addr)
    requires LaidOut(table, tc)
    ensures AtOffsets(table, tc, |table|)
  {
    hide LaidOut, W64, Offset;
    forall k | 0 <= k < |table| ensures table[k].newInsAddr == W64(tc + Offset(table, k)) {
      LaidOutOffset(table, tc, k);
    }
  }

  /** The first `n` entries stand in `bytes`, each at its own offset. */
  ghost predicate Written(table: seq<Entry>, bytes: seq<byte>, n: nat)
    requires n <= |table|
  {
    forall k {:trigger Offset(table, k)} :: 0 <= k < n ==> WrittenAt(table[k], bytes, Offset(table, k))
  }

  ghost predicate WrittenAt(e: Entry, bytes: seq<byte>, offset: nat) {
    e.size <= MAX_BYTES && offset + e.size <= |bytes| && bytes[offset..offset + e.size] == e.encodedIns[..e.size]
  }

  lemma {:induction false} EntryFits(items: seq<Item>, table: seq<Entry>, i: nat)
    requires EntriesOf(items, table) && AllSized(table) && i < |table|
    ensures table[i].size <= MAX_BYTES
  {
    hide EntryOf, Decode;
    assert EntryOf(items[i], table[i]) && Sized(table[i]);
    EntrySizeBounds(items[i], table[i]);
  }

  lemma {:induction false} EntrySizeBounds(it: Item, e: Entry)
    requires EntryOf(it, e)
    ensures 1 <= Size(Current(e.encodedIns)) <= MAX_BYTES
  {
    SizeBounds(Current(e.encodedIns));
  }

  /** Overwrites `bytes` at `offset`. */
  ghost function Splice(bytes: seq<byte>, offset: nat, piece: seq<byte>): (r: seq<byte>)
    requires offset + |piece| <= |bytes|
    ensures |r| == |bytes|
  {
    bytes[..offset] + piece + bytes[offset + |piece|..]
  }

  /** Copying has reached entry `i`; what lies behind the cursor is untouched. */
  ghost predicate CopyInv(table: seq<Entry>, tc: Addr, start: seq<byte>, bytes: seq<byte>, i: nat, cursor: nat) {
    && i <= |table| && |start| == |bytes| && cursor == Offset(table, i) <= Offset(table, |table|) <= |bytes|
    && AtOffsets(table, tc, i) && Written(table, bytes, i)
    && bytes[cursor..] == start[cursor..]
  }

  lemma {:induction false} CopyStart(table: seq<Entry>, tc: Addr, bytes: seq<byte>)
    requires Offset(table, |table|) <= |bytes|
    ensures CopyInv(table, tc, bytes, bytes, 0, 0)
  {
  }

  lemma {:induction false} CopyEnd(table: seq<Entry>, tc: Addr, start: seq<byte>, bytes: seq<byte>, cursor: nat)
    requires CopyInv(table, tc, start, bytes, |table|, cursor)
    ensures AtOffsets(table, tc, |table|) && Written(table, bytes, |table|)
    ensures |start| == |bytes| && Offset(table, |table|) <= |bytes|
    ensures bytes[Offset(table, |table|)..] == start[Offset(table, |table|)..]
  {
  }

  lemma {:induction false} CopyStep(
      table: seq<Entry>, tc: Addr, start: seq<byte>, bytes: seq<byte>, i: nat, cursor: nat)
    requires CopyInv(table, tc, start, bytes, i, cursor) && i < |table| && table[i].size <= MAX_BYTES
    ensures cursor + table[i].size <= |bytes|
    ensures table[i].newInsAddr == W64(tc + cursor) ==>
      CopyInv(table, tc, start, Splice(bytes, cursor, table[i].encodedIns[..table[i].size]), i + 1,
              cursor + table[i].size)
    ensures table[i].newInsAddr != W64(tc + cursor) ==> !AtOffsets(table, tc, |table|)
  {
    hide W64, Written;
    OffsetMonotone(table, i + 1, |table|);
    var piece := table[i].encodedIns[..table[i].size];
    WrittenSplice(table, bytes, i);
    assert Splice(bytes, cursor, piece)[cursor + |piece|..] == bytes[cursor..][|piece|..]
           == start[cursor..][|piece|..] == start[cursor + |piece|..];
  }

  lemma {:induction false} WrittenSplice(table: seq<Entry>, bytes: seq<byte>, i: nat)
    requires i < |table| && Written(table, bytes, i)
    requires table[i].size <= MAX_BYTES && Offset(table, i) + table[i].size <= |bytes|
    ensures Written(table, Splice(bytes, Offset(table, i), table[i].encodedIns[..table[i].size]), i + 1)
  {
    hide WrittenAt, Splice;
    var cursor, piece := Offset(table, i), table[i].encodedIns[..table[i].size];
    forall k | 0 <= k <= i ensures WrittenAt(table[k], Splice(bytes, cursor, piece), Offset(table, k)) {
      if k < i {
        OffsetMonotone(table, k + 1, i);
        SpliceKeeps(table[k], bytes, cursor, piece, Offset(table, k));
      } else {
        SpliceWrites(table[i], bytes, cursor);
      }
    }
  }

  lemma {:induction false} SpliceKeeps(e: Entry, bytes: seq<byte>, cursor: nat, piece: seq<byte>, offset: nat)
    requires cursor + |piece| <= |bytes| && offset + e.size <= cursor && WrittenAt(e, bytes, offset)
    ensures WrittenAt(e, Splice(bytes, cursor, piece), offset)
  {
    var after := Splice(bytes, cursor, piece);
    forall k | 0 <= k < cursor ensures after[k] == bytes[k] {
      assert after[k] == bytes[..cursor][k];
    }
    SameSlice(after, bytes, offset, offset + e.size);
  }

  lemma {:induction false} SameSlice<T>(xs: seq<T>, ys: seq<T>, from: nat, to: nat)
    requires from <= to <= |xs| && to <= |ys| && forall k :: from <= k < to ==> xs[k] == ys[k]
    ensures xs[from..to] == ys[from..to]
  {
    forall k | 0 <= k < to - from ensures xs[from..to][k] == ys[from..to][k] {
      assert xs[from..to][k] == xs[from + k] && ys[from..to][k] == ys[from + k];
    }
  }

  lemma {:induction false} SpliceWrites(e: Entry, bytes: seq<byte>, cursor: nat)
    requires e.size <= MAX_BYTES && cursor + e.size <= |bytes|
    ensures WrittenAt(e, Splice(bytes, cursor, e.encodedIns[..e.size]), cursor)
  {
  }
}
