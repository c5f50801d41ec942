/** The routines handed to the translator, and the instructions of them it takes over. */
module Routines {
  import opened Words
  import opened Instructions
  import opened InstrMap
  import opened Machine

  /** Every item is what the image holds at its address. */
  predicate ReadFrom(image: Segment, items: seq<Item>) {
    forall k :: 0 <= k < |items| ==> Fetch(image, items[k].addr) == Some(items[k].code)
  }

  /** A routine as the instrumentation framework describes it: address, size, address and length of each instruction. */
  datatype Routine = Routine(addr: Addr, size: nat, instrs: seq<(Addr, nat)>)

  predicate Readable(image: Segment, ins: (Addr, nat)) {
    var code := Fetch(image, ins.0);
    code.Some? && code.value.len == ins.1
  }

  function ItemOf(image: Segment, ins: (Addr, nat)): Item
    requires Readable(image, ins)
  {
    Item(ins.0, Fetch(image, ins.0).value)
  }

  /** The instructions that get into the map: those before the first that cannot be decoded as described. */
  function ItemsOf(image: Segment, instrs: seq<(Addr, nat)>): (items: seq<Item>)
    ensures |items| <= |instrs| && ReadFrom(image, items)
    ensures forall k :: 0 <= k < |items| ==> items[k].addr == instrs[k].0 && items[k].code.len == instrs[k].1
  {
    if instrs == [] || !Readable(image, instrs[0]) then []
    else [ItemOf(image, instrs[0])] + ItemsOf(image, instrs[1..])
  }

  predicate Whole(image: Segment, rtn: Routine) { |ItemsOf(image, rtn.instrs)| == |rtn.instrs| }

  function AllItems(image: Segment, rtns: seq<Routine>): (items: seq<Item>)
    ensures ReadFrom(image, items)
  {
    if rtns == [] then []
    else AllItems(image, rtns[..|rtns| - 1]) + ItemsOf(image, rtns[|rtns| - 1].instrs)
  }

  function CountInstrs(rtns: seq<Routine>): nat {
    if rtns == [] then 0 else CountInstrs(rtns[..|rtns| - 1]) + |rtns[|rtns| - 1].instrs|
  }

  /** They end where the first one is that cannot be decoded as described. */
  lemma {:induction false} ItemsOfEnd(image: Segment, instrs: seq<(Addr, nat)>)
    requires |ItemsOf(image, instrs)| < |instrs|
    ensures var (addr, len) := instrs[|ItemsOf(image, instrs)|];
      Fetch(image, addr).None? || Fetch(image, addr).value.len != len
  {
    hide Fetch;
    if Readable(image, instrs[0]) {
      ItemsOfEnd(image, instrs[1..]);
    }
  }

  lemma {:induction false} CountInstrsOne(rtn: Routine)
    ensures CountInstrs([rtn]) == |rtn.instrs|
  {
    assert [rtn][..0] == [];
  }

  lemma {:induction false} CountInstrsConcat(xs: seq<Routine>, ys: seq<Routine>)
    ensures CountInstrs(xs + ys) == CountInstrs(xs) + CountInstrs(ys)
  {
    if ys == [] {
      assert xs + ys == xs;
    } else {
      assert (xs + ys)[..|xs + ys| - 1] == xs + ys[..|ys| - 1];
      CountInstrsConcat(xs, ys[..|ys| - 1]);
    }
  }

  /** A routine is whole exactly if every instruction of it can be decoded as described. */
  lemma {:induction false} WholeIff(image: Segment, rtn: Routine)
    ensures Whole(image, rtn) <==> forall k :: 0 <= k < |rtn.instrs| ==>
      var (addr, len) := rtn.instrs[k]; Fetch(image, addr).Some? && Fetch(image, addr).value.len == len
  {
    hide Fetch;
    var items := ItemsOf(image, rtn.instrs);
    if |items| < |rtn.instrs| {
      ItemsOfEnd(image, rtn.instrs);
    }
    forall k | 0 <= k < |items| ensures Fetch(image, items[k].addr) == Some(items[k].code) {
    }
  }

  lemma {:induction false} ItemsOfCons(image: Segment, instrs: seq<(Addr, nat)>)
    requires instrs != [] && Readable(image, instrs[0])
    ensures ItemsOf(image, instrs) == [ItemOf(image, instrs[0])] + ItemsOf(image, instrs[1..])
  {
  }

  lemma {:induction false} ItemsOfSplit(image: Segment, instrs: seq<(Addr, nat)>, j: nat)
    requires j <= |instrs| && forall i :: 0 <= i < j ==> Readable(image, instrs[i])
    ensures |ItemsOf(image, instrs[..j])| == j
    ensures ItemsOf(image, instrs) == ItemsOf(image, instrs[..j]) + ItemsOf(image, instrs[j..])
  {
    hide ItemsOf, ItemOf, Fetch, Readable, ReadFrom;
    if j == 0 {
      assert instrs[0..] == instrs && instrs[..0] == [];
      ItemsOfNone(image);
    } else {
      assert Readable(image, instrs[0]);
      ItemsOfCons(image, instrs);
      ItemsOfCons(image, instrs[..j]);
      var tail := instrs[1..];
      assert instrs[..j][1..] == tail[..j - 1] && tail[j - 1..] == instrs[j..];
      ItemsOfSplit(image, tail, j - 1);
      Associative([ItemOf(image, instrs[0])], ItemsOf(image, tail[..j - 1]), ItemsOf(image, instrs[j..]));
    }
  }

  lemma {:induction false} Associative<T>(x: seq<T>, y: seq<T>, z: seq<T>)
    ensures x + (y + z) == (x + y) + z
  {
  }

  lemma {:induction false} AllItemsBound(image: Segment, rtns: seq<Routine>)
    ensures |AllItems(image, rtns)| <= CountInstrs(rtns)
  {
    if rtns != [] {
      AllItemsBound(image, rtns[..|rtns| - 1]);
    }
  }

  lemma {:induction false} CountInstrsMonotone(rtns: seq<Routine>, k: nat)
    requires k <= |rtns|
    ensures CountInstrs(rtns[..k]) <= CountInstrs(rtns)
  {
    if k < |rtns| {
      assert rtns[..|rtns| - 1][..k] == rtns[..k];
      CountInstrsMonotone(rtns[..|rtns| - 1], k);
    } else {
      assert rtns[..k] == rtns;
    }
  }

  lemma {:induction false} ItemsOfNone(image: Segment)
    ensures ItemsOf(image, []) == []
  {
  }

  lemma {:induction false} ItemsOfStops(image: Segment, instrs: seq<(Addr, nat)>)
    requires instrs != [] && !Readable(image, instrs[0])
    ensures ItemsOf(image, instrs) == []
  {
  }

  lemma {:induction false} ItemsOfExtend(image: Segment, instrs: seq<(Addr, nat)>, j: nat)
    requires j < |instrs| && forall i :: 0 <= i <= j ==> Readable(image, instrs[i])
    ensures |ItemsOf(image, instrs[..j + 1])| == j + 1
    ensures ItemsOf(image, instrs[..j + 1]) == ItemsOf(image, instrs[..j]) + [ItemOf(image, instrs[j])]
  {
    hide Readable, Fetch;
    var up := instrs[..j + 1];
    ItemsOfSplit(image, up, j);
    ItemsOfSplit(image, up, j + 1);
    assert up[..j] == instrs[..j] && up[j..] == [instrs[j]] && up[..j + 1] == up;
    var one := [instrs[j]];
    ItemsOfCons(image, one);
    assert one[1..] == [];
    ItemsOfNone(image);
  }

  /** A row of the table of routines; a negative entry means that the routine has no translation. */
  datatype TranslatedRtn = TranslatedRtn(rtnAddr: Addr, rtnSize: nat, instrMapEntry: int, isSafeForReplacedProbe: bool)

  /** The rows made for `rtns`: each whole routine starts where those before it end. */
  ghost predicate Recorded(image: Segment, rtns: seq<Routine>, rows: seq<TranslatedRtn>) {
    |rows| == |rtns| && forall k :: 0 <= k < |rtns| ==> RecordedRow(image, rtns, k, rows[k])
  }

  ghost predicate RecordedRow(image: Segment, rtns: seq<Routine>, k: nat, row: TranslatedRtn)
    requires k < |rtns|
  {
    && row.rtnAddr == rtns[k].addr && row.rtnSize == rtns[k].size && row.isSafeForReplacedProbe
    && row.instrMapEntry == if Whole(image, rtns[k]) then |AllItems(image, rtns[..k])| else -1
  }

  lemma {:induction false} RecordedLength(image: Segment, rtns: seq<Routine>, rows: seq<TranslatedRtn>)
    requires Recorded(image, rtns, rows)
    ensures |rows| == |rtns|
  {
  }

  const MAX_PROBE_JUMP_INSTR_BYTES := 14

  predicate Committed(row: TranslatedRtn) {
    row.instrMapEntry >= 0 && row.rtnSize > MAX_PROBE_JUMP_INSTR_BYTES && row.isSafeForReplacedProbe
  }

  /** Every routine begins with an instruction at its own address. */
  predicate Headed(rtns: seq<Routine>) {
    forall k :: 0 <= k < |rtns| ==> rtns[k].instrs != [] && rtns[k].instrs[0].0 == rtns[k].addr
  }

  lemma {:induction false} AllItemsAt(image: Segment, rtns: seq<Routine>, k: nat)
    requires k < |rtns|
    ensures AllItems(image, rtns[..k]) + ItemsOf(image, rtns[k].instrs) <= AllItems(image, rtns)
  {
    hide ItemsOf, ReadFrom;
    var n := |rtns| - 1;
    if k < n {
      assert rtns[..n][..k] == rtns[..k];
      AllItemsAt(image, rtns[..n], k);
    } else {
      assert rtns[..n] == rtns[..k];
    }
  }

  /** A routine that was translated whole starts at the entry recorded for it. */
  lemma {:induction false} RecordedEntry(image: Segment, rtns: seq<Routine>, rows: seq<TranslatedRtn>, k: nat)
    requires Headed(rtns) && Recorded(image, rtns, rows) && k < |rtns| && rows[k].instrMapEntry >= 0
    ensures rows[k].rtnAddr == rtns[k].addr && Whole(image, rtns[k])
    ensures var items := AllItems(image, rtns);
      rows[k].instrMapEntry < |items| && items[rows[k].instrMapEntry].addr == rtns[k].addr
  {
    hide Readable, ReadFrom, AllItems;
    assert RecordedRow(image, rtns, k, rows[k]);
    AllItemsAt(image, rtns, k);
    var xs, ys := AllItems(image, rtns[..k]), ItemsOf(image, rtns[k].instrs);
    assert (xs + ys)[|xs|] == ys[0];
  }
}
