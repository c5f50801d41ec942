/**
 When a translation is right: the conditions of `Encodable`, which look at the finished map, told from the
 instructions alone, before anything is encoded.
*/
module Encodability {
  import opened Words
  import opened Instructions
  import opened InstrMap
  import opened Machine
  import opened LinkedCode

  /** The distance a chained branch `k` has to bridge in the TC, its target being entry `r`. */
  ghost function Distance(items: seq<Item>, k: nat, r: nat): int
    requires k < |items| && r < |items|
  {
    Signed64(TotalSize(items, r) - TotalSize(items, k + 1))
  }

  /** The branch of item `k` fits its width: a chained LOOP one byte, every other chained branch four; the distance
      from an unchained one to its cell four bytes too. */
  ghost predicate BranchFits(items: seq<Item>, tc: Addr, base: Addr, k: nat)
    requires k < |items|
  {
    var r := Resolve(items, k, TargetOf(items[k]));
    if r < 0 then Fits32(Signed64(CellOf(base, k) - (tc + TotalSize(items, k) + 6)))
    else if items[k].code.ins.Loop? then Fits8(Distance(items, k, r))
    else Fits32(Distance(items, k, r))
  }

  ghost predicate Placeable(items: seq<Item>, tc: Addr, base: Addr) {
    forall k :: 0 <= k < |items| ==>
      && OperandFits(items[k])
      && (IsDirect(items[k].code.ins) ==> TargetOf(items[k]) != 0 && BranchFits(items, tc, base, k))
  }

  lemma {:induction false} TranslatedAt(items: seq<Item>, table: seq<Entry>, tc: Segment, base: Addr, k: nat)
    requires Translated(items, table, tc, base) && k < |items|
    ensures |items| == |table| && table[k].newInsAddr == W64(tc.base + TotalSize(items, k))
    ensures EndOf(table[k]) == W64(tc.base + TotalSize(items, k + 1)) && TotalSize(items, k + 1) <= |tc.bytes|
    ensures Settled(items, table, base, k) && table[k].size == FinalSize(items[k], table[k].targMapEntry >= 0) > 0
    ensures table[k].size == Size(Current(table[k].encodedIns))
    ensures -1 <= table[k].targMapEntry < |table|
    ensures table[k].targMapEntry == if TargetOf(items[k]) == 0 then -1 else Resolve(items, k, TargetOf(items[k]))
    ensures TotalSize(items, k + 1) == TotalSize(items, k) + table[k].size
  {
    hide W64, Signed64, LaidOut, Written, AnyStranded, Resolve, TargetOf, FinalSize, FinalIns, Sized, Settled, EntryOf,
      Current, EndOf, Chained;
    LaidOutOffset(table, tc.base, k);
    OffsetTotal(items, table, base, k);
    OffsetTotal(items, table, base, k + 1);
    OffsetMonotone(table, k + 1, |table|);
    SizedAt(table, k);
    assert Settled(items, table, base, k) && EntryOf(items[k], table[k]);
    SettledSize(items, table, base, k);
    EntrySizeBounds(items[k], table[k]);
    ChainedHere(items, table, k);
  }

  lemma {:induction false} ChainedHere(items: seq<Item>, table: seq<Entry>, k: nat)
    requires |items| == |table| && Chained(items, table) && k < |items|
    ensures -1 <= table[k].targMapEntry < |table|
    ensures table[k].targMapEntry == if TargetOf(items[k]) == 0 then -1 else Resolve(items, k, TargetOf(items[k]))
  {
    hide TargetOf;
    assert ChainedEntry(items, k, table[k]);
  }

  /** The displacement in entry `k` fits exactly if the one told from the instructions does. */
  lemma {:induction false} ReachesIff(items: seq<Item>, table: seq<Entry>, tc: Segment, base: Addr, k: nat)
    requires Translated(items, table, tc, base) && k < |items| && TargetOf(items[k]) != 0
    ensures Reaches(items, table, base, k) <==> BranchFits(items, tc.base, base, k)
  {
    hide W64, Signed64, Translated, Resolve, TargetOf, FinalSize, EndOf, CellOf;
    TranslatedAt(items, table, tc, base, k);
    var r := table[k].targMapEntry;
    var b, from: int := tc.base, TotalSize(items, k);
    if r < 0 {
      SignedFrom(CellOf(base, k), b + from, 6);
    } else {
      TranslatedAt(items, table, tc, base, r);
      SignedBetween(b, TotalSize(items, r), from, table[k].size);
    }
  }

  lemma {:induction false} SignedFrom(to: int, from: int, size: int)
    ensures Signed64(to - (W64(from) + size)) == Signed64(to - (from + size))
  {
    assert W64(from) == from - TWO64 * (from / TWO64);
    W64Equal(to - (W64(from) + size), to - (from + size));
    SignedAbsorbs(to - (W64(from) + size), to - (from + size));
  }

  lemma {:induction false} SignedBetween(base: int, to: int, from: int, size: int)
    ensures Signed64(W64(base + to) - (W64(base + from) + size)) == Signed64(to - (from + size))
  {
    SignedFrom(W64(base + to), base + from, size);
    assert W64(base + to) == base + to - TWO64 * ((base + to) / TWO64);
    W64Equal(W64(base + to) - (base + from + size), to - (from + size));
    SignedAbsorbs(W64(base + to) - (base + from + size), to - (from + size));
  }

  /** What the run theorems ask of the finished map, decided before the translation starts. */
  lemma {:induction false} EncodableIff(items: seq<Item>, table: seq<Entry>, tc: Segment, base: Addr)
    requires Translated(items, table, tc, base)
    ensures Encodable(items, table, base) <==> Placeable(items, tc.base, base)
  {
    hide Translated, Reaches, BranchFits, TargetOf, OperandFits;
    assert |items| == |table| by { LengthOf(items, table, tc, base); }
    forall k | 0 <= k < |items|
      ensures TargetOf(items[k]) != 0 ==> (Reaches(items, table, base, k) <==> BranchFits(items, tc.base, base, k))
      ensures TargetOf(items[k]) == 0 ==> Reaches(items, table, base, k)
      ensures !IsDirect(items[k].code.ins) ==> TargetOf(items[k]) == 0
    {
      if TargetOf(items[k]) != 0 {
        ReachesIff(items, table, tc, base, k);
      }
      NoTarget(items, table, base, k);
    }
  }

  lemma {:induction false} LengthOf(items: seq<Item>, table: seq<Entry>, tc: Segment, base: Addr)
    requires Translated(items, table, tc, base)
    ensures |items| == |table|
  {
  }

  lemma {:induction false} NoTarget(items: seq<Item>, table: seq<Entry>, base: Addr, k: nat)
    requires k < |items| == |table|
    ensures TargetOf(items[k]) == 0 ==> Reaches(items, table, base, k)
    ensures !IsDirect(items[k].code.ins) ==> TargetOf(items[k]) == 0
  {
  }

  /** A chained branch lands on the new address of its target exactly if the distance told from the instructions
      fits. */
  lemma {:induction false} BranchLandsIff(items: seq<Item>, table: seq<Entry>, tc: Segment, base: Addr, k: nat)
    requires Translated(items, table, tc, base) && k < |items| && TargetOf(items[k]) != 0
    requires Resolve(items, k, TargetOf(items[k])) >= 0
    ensures var i := Current(table[k].encodedIns);
      && IsDirect(i) && table[k].targMapEntry == Resolve(items, k, TargetOf(items[k]))
      && (W64(table[k].newInsAddr + Size(i) + i.disp) == NewTargOf(table, k) <==> BranchFits(items, tc.base, base, k))
  {
    hide Translated, Reaches, BranchFits, TargetOf, Resolve, W64, NewTargOf;
    TranslatedAt(items, table, tc, base, k);
    ChainedLandsIff(items, table, base, k);
    ReachesIff(items, table, tc, base, k);
  }

  /** In a TC shorter than 2^31 bytes distances are what they seem: four bytes always suffice, and a LOOP is cut off
      exactly if its target is more than a byte away. */
  lemma {:induction false} ShortTc(items: seq<Item>, tc: Addr, base: Addr, k: nat)
    requires TotalSize(items, |items|) < TWO31 && k < |items| && Resolve(items, k, TargetOf(items[k])) >= 0
    ensures var r := Resolve(items, k, TargetOf(items[k]));
      && Distance(items, k, r) == TotalSize(items, r) - TotalSize(items, k + 1)
      && (BranchFits(items, tc, base, k) <==>
          items[k].code.ins.Loop? ==> -128 <= TotalSize(items, r) - TotalSize(items, k + 1) < 128)
  {
    hide TargetOf, CellOf, FinalSize;
    var r := Resolve(items, k, TargetOf(items[k]));
    TotalMonotone(items, r, |items|);
    TotalMonotone(items, k + 1, |items|);
  }

  lemma {:induction false} TotalMonotone(items: seq<Item>, j: nat, k: nat)
    requires j <= k <= |items|
    ensures TotalSize(items, j) <= TotalSize(items, k)
  {
    hide TargetOf, FinalSize;
    if j < k {
      TotalMonotone(items, j, k - 1);
    }
  }

  // ----- Branches to address 0 -----

  /** A branch to address 0 is left as it was, so it still goes to 0 exactly if it ends where the original ended. */
  lemma {:induction false} ZeroTargetIff(items: seq<Item>, table: seq<Entry>, tc: Segment, base: Addr, k: nat)
    requires Translated(items, table, tc, base) && k < |items|
    requires IsDirect(items[k].code.ins) && TargetOf(items[k]) == 0
    ensures var i := Current(table[k].encodedIns);
      && i == items[k].code.ins
      && (W64(table[k].newInsAddr + Size(i) + i.disp) == 0 <==>
          W64(tc.base + TotalSize(items, k + 1)) == NextOf(items[k]))
  {
    hide W64, Translated, Resolve, FinalSize, Current;
    TranslatedAt(items, table, tc, base, k);
    var it, e := items[k], table[k];
    assert EndOf(e) == W64(e.newInsAddr + Size(it.code.ins));
    DirectTarget(it);
    SameEnd(e.newInsAddr + Size(it.code.ins), it.addr + it.code.len, it.code.ins.disp);
  }

  lemma {:induction false} SameEnd(x: int, y: int, disp: int)
    requires W64(y + disp) == 0
    ensures W64(x + disp) == 0 <==> W64(x) == W64(y)
  {
    W64Equal(x + disp, y + disp);
    W64Equal(x, y);
  }

  /** In a TC apart from the image it never does. */
  lemma {:induction false} ZeroTargetLost(
      image: Segment, items: seq<Item>, table: seq<Entry>, tc: Segment, base: Addr, k: nat)
    requires Translated(items, table, tc, base) && k < |items| && |tc.bytes| <= TWO64 && Disjoint(image, tc)
    requires IsDirect(items[k].code.ins) && TargetOf(items[k]) == 0
    requires Fetch(image, items[k].addr) == Some(items[k].code)
    ensures var i := Current(table[k].encodedIns); W64(table[k].newInsAddr + Size(i) + i.disp) != 0
  {
    hide Translated, TargetOf, Resolve, Current, Decode;
    ZeroTargetIff(items, table, tc, base, k);
    TranslatedAt(items, table, tc, base, k);
    var it, n := items[k], TotalSize(items, k + 1);
    var a := W64(it.addr + it.code.len - 1);
    LastByte(image, it.addr, it.code);
    OffsetBack(tc, n - 1);
    W64Absorbs(tc.base + n, -1);
    W64Absorbs(it.addr + it.code.len, -1);
    assert image.Has(a) && tc.Has(W64(tc.base + (n - 1)));
  }

  lemma {:induction false} Wrapped(x: nat, n: nat)
    requires x < n
    ensures W64(x) < n
  {
  }

  lemma {:induction false} LastByte(image: Segment, a: Addr, code: Decoded)
    requires Fetch(image, a) == Some(code)
    ensures image.Has(W64(a + code.len - 1))
  {
    hide Decode, W64;
    DecodeValid(image.bytes[image.Offset(a)..]);
    var base: int := image.base;
    W64Absorbs(a + code.len - 1, -base);
    W64Absorbs(a - base, code.len - 1);
    Wrapped(image.Offset(a) + (code.len - 1), |image.bytes|);
  }

  // ----- Inputs that are not placeable -----

  /** A move whose operand is beyond 2^31, as in every position-independent executable. */
  lemma {:induction false} FarOperand()
    ensures var it := Item(0x5555_5555_0000, Decoded(Rip(Data(0x8B, []), 0x10), 7));
      ValidItem(it) && !OperandFits(it)
  {
  }

  /** A move that lost a prefix when it was added: its operand is a byte off. */
  lemma {:induction false} ShortenedOperand()
    ensures var it := Item(0x40_0000, Decoded(Rip(Data(0x8B, []), 0x10), 8));
      ValidItem(it) && Fits32(Signed64(NextOf(it) + it.code.ins.disp)) && !OperandFits(it)
  {
  }

  /** A jump out of the translated code, with the TC more than 2^31 bytes away from the map. */
  lemma {:induction false} FarCell()
    ensures !BranchFits([Item(0x40_0000, Decoded(Jmp(Near, 0x1000), 5))], 0x1000_0000, 0x7FFF_0000_0000, 0)
  {
    var items := [Item(0x40_0000, Decoded(Jmp(Near, 0x1000), 5))];
    assert Resolve(items, 0, TargetOf(items[0])) == -1;
  }

  lemma {:induction false} ZeroTarget()
    ensures var it := Item(0x1000, Decoded(Jmp(Near, -0x1005), 5)); ValidItem(it) && TargetOf(it) == 0
  {
  }

  /** `n` two-byte jumps out of the translated code. */
  function Exits(n: nat): (items: seq<Item>)
    ensures |items| == n
  {
    seq(n, k requires 0 <= k < n => Item(W64(0x1000 + 2 * k), Decoded(Jmp(Short, 0x7F), 2)))
  }

  lemma {:induction false} ExitGrows(items: seq<Item>, n: nat)
    requires 0 < n <= 22 <= |items| <= 23 && items[..22] == Exits(22)
    requires |items| == 23 ==> items[22].addr < 0x1040
    ensures var it := items[n - 1];
      FinalSize(it, TargetOf(it) != 0 && Resolve(items, n - 1, TargetOf(it)) >= 0) == 6
  {
    hide Resolve;
    var it := items[n - 1];
    assert it == items[..22][n - 1] == Item(0x1000 + 2 * (n - 1), Decoded(Jmp(Short, 0x7F), 2));
    assert TargetOf(it) == 0x1000 + 2 * n + 0x7F;
    forall k | 0 <= k < |items| ensures items[k].addr != TargetOf(it) {
      assert k < 22 ==> items[k] == items[..22][k];
    }
    assert Resolve(items, n - 1, TargetOf(it)) < 0;
  }

  lemma {:induction false} ExitsGrow(items: seq<Item>, n: nat)
    requires n <= 22 <= |items| <= 23 && items[..22] == Exits(22)
    requires |items| == 23 ==> items[22].addr < 0x1040
    ensures TotalSize(items, n) == 6 * n
  {
    hide Resolve, FinalSize, TargetOf, Exits;
    if n > 0 {
      ExitsGrow(items, n - 1);
      ExitGrows(items, n);
    }
  }

  /** A LOOP back over jumps that grow: in reach before the translation, cut off after it. */
  lemma {:induction false} LoopCutOff(tc: Addr, base: Addr)
    ensures var items := Exits(22) + [Item(0x102C, Decoded(Loop(LOOP, -46), 2))];
      (forall k :: 0 <= k < |items| ==> ValidItem(items[k])) && !BranchFits(items, tc, base, 22)
  {
    var items := Exits(22) + [Item(0x102C, Decoded(Loop(LOOP, -46), 2))];
    assert items[..22] == Exits(22) && items[0].addr == 0x1000;
    assert TargetOf(items[22]) == 0x1000 && Resolve(items, 22, 0x1000) == 0;
    ExitsGrow(items, 22);
    assert TotalSize(items, 23) == TotalSize(items, 22) + 2;
    ExitsGrow(items, 0);
  }
}
