/** The translator: fills the instruction map, chains branches, fixes displacements, writes the TC. */
module Translator {
  import opened Words
  import opened Instructions
  import opened InstrMap
  import opened Machine
  import opened LinkedCode
  import opened Encodability
  import opened Routines

  class Translator {
    const tc: Addr                  // address of the TC
    const tcBytes: array<byte>      // its contents
    const base: Addr                // address of the instruction map
    const instrMap: array<Entry>
    var num: nat                    // entries in use
    var tcCursor: nat               // estimated end of the TC
    var translatedRtn: seq<TranslatedRtn>
    ghost var items: seq<Item>      // what the entries were made from

    constructor (tc: Addr, tcLen: nat, base: Addr, maxInsCount: nat)
      ensures Valid() && Adding() && items == [] && translatedRtn == []
      ensures this.tc == tc && this.base == base
      ensures fresh(tcBytes) && fresh(instrMap) && tcBytes.Length == tcLen && instrMap.Length == maxInsCount
    {
      this.tc, this.base := tc, base;
      tcBytes := new byte[tcLen](_ => 0);
      instrMap := new Entry[maxInsCount](_ => Entry(0, 0, 0, false, seq(MAX_BYTES, _ => 0), Other, 0, 0));
      num, tcCursor, items, translatedRtn := 0, 0, [], [];
      new;
      AddedNone(tc);
    }

    /** The entries in use. */
    ghost function Table(): (t: seq<Entry>)
      requires num <= instrMap.Length
      reads `num, instrMap
      ensures |t| == num
    {
      instrMap[..num]
    }

    ghost predicate Valid()
      reads `num, `items, instrMap
    {
      |items| == num <= instrMap.Length && EntriesOf(items, Table())
    }

    /** The state while instructions are being added. */
    ghost predicate Adding()
      reads `num, `items, `tcCursor, instrMap
    {
      num <= instrMap.Length && Added(items, Table(), tc, tcCursor)
    }

    /** Adds one instruction; `size` is the length the caller expects it to have.  A full map is an error, but
        one that is noticed after the entry was added. */
    method AddNewInstrEntry(xedd: Decoded, pc: Addr, size: nat) returns (rc: int)
      requires Valid() && Adding() && num < instrMap.Length && ValidItem(Item(pc, xedd))
      modifies this`num, this`tcCursor, this`items, instrMap
      ensures Valid() && Adding() && old(Table()) <= Table()
      ensures items == if xedd.len == size then old(items) + [Item(pc, xedd)] else old(items)
      ensures rc == if xedd.len == size && num < instrMap.Length then Size(xedd.ins) else -1
    {
      hide W64, EntryOf, Added, Size, Encode, Decode, CategoryOf;
      if xedd.len != size {
        return -1;
      }
      ghost var it, buf := Item(pc, xedd), instrMap[num].encodedIns;
      var origTargAddr: Addr := 0;
      if IsDirect(xedd.ins) {
        origTargAddr := W64(pc + xedd.len + xedd.ins.disp);
      }
      var encoded := EncodeInto(instrMap[num].encodedIns, xedd.ins);
      var newSize := Size(xedd.ins);
      instrMap[num] := Entry(pc, W64(tc + tcCursor), origTargAddr, false, encoded, CategoryOf(xedd.ins), newSize, -1);
      AddedStep(items, old(Table()), tc, tcCursor, it, buf);
      NewEntryFresh(it, W64(tc + tcCursor), buf);
      num := num + 1;
      tcCursor := tcCursor + newSize;
      items := items + [it];
      assert Table() == old(Table()) + [NewEntry(it, W64(tc + old(tcCursor)), buf)];
      if num >= instrMap.Length {
        return -1;
      }
      return newSize;
    }

    /** Chains every direct branch to the first other entry made from its target. */
    method ChainAllDirectBrAndCallTargetEntries()
      requires Valid() && Adding()
      modifies instrMap
      ensures Valid() && AsDecoded(items, Table()) && LaidOut(Table(), tc) && Chained(items, Table())
      ensures forall k :: 0 <= k < num ==> SameButTarget(old(instrMap[k]), instrMap[k])
      ensures forall k :: 0 <= k < num ==> (instrMap[k].hasNewTargAddr <==> instrMap[k].targMapEntry >= 0)
    {
      hide W64, LaidOut, FreshEntry, Encodes, FormOf, ValidItem, Current, Size, CategoryOf, TargetOf;
      for i := 0 to num
        invariant ChainedUpTo(items, old(Table()), Table(), i)
        invariant forall k :: 0 <= k < num ==> (instrMap[k].hasNewTargAddr <==> instrMap[k].targMapEntry >= 0)
      {
        assert EntryOf(items[i], old(Table())[i]);
        if instrMap[i].origTargAddr == 0 || instrMap[i].hasNewTargAddr {
          ChainedStep(items, old(Table()), Table(), i, instrMap[i]);
          assert Table() == Table()[i := instrMap[i]];
          continue;
        }
        ghost var t := Table();
        var j := 0;
        while j < num
          invariant 0 <= j <= num
          invariant forall k :: 0 <= k < j && k != i ==> items[k].addr != TargetOf(items[i])
        {
          assert EntryOf(items[j], old(Table())[j]) && SameButTarget(old(Table())[j], instrMap[j]);
          if j != i && instrMap[j].origInsAddr == instrMap[i].origTargAddr {
            break;
          }
          j := j + 1;
        }
        ghost var found := if j < num then j else -1;
        assert ChainsTo(items, i, TargetOf(items[i]), found);
        ChainsToUnique(items, i, TargetOf(items[i]), found, Resolve(items, i, TargetOf(items[i])));
        if j < num {
          instrMap[i] := instrMap[i].(hasNewTargAddr := true, targMapEntry := j);
        }
        ChainedStep(items, old(Table()), t, i, instrMap[i]);
        assert Table() == t[i := instrMap[i]];
      }
      ChainedEnd(items, old(Table()), Table(), tc);
      forall k | 0 <= k < num ensures EntryOf(items[k], Table()[k]) {
        assert FreshEntry(items[k], Table()[k]);
        FreshIsEntry(items[k], Table()[k]);
      }
    }

    // ----- Displacements -----

    /** Turns a RIP-relative operand into an absolute one; 0 when there is none to turn. */
    method FixRipDisplacement(i: nat) returns (newSize: int)
      requires Valid() && i < num
      modifies instrMap
      ensures Valid() && Table() == old(Table())[i := instrMap[i]]
      ensures instrMap[i] == old(instrMap[i]).(encodedIns := instrMap[i].encodedIns)
      ensures newSize == 0 ==> instrMap[i] == old(instrMap[i])
      ensures newSize > 0 ==> TargetOf(items[i]) == 0 && newSize == Size(Absolute(items[i]))
      ensures newSize >= 0 && (TargetOf(items[i]) == 0 ==> Current(instrMap[i].encodedIns) == Absolute(items[i]))
    {
      hide W64, Encode, Decode, EntriesOf;
      EntriesOfAt(items, Table(), i);
      var e := instrMap[i];
      var xedd := DecodeEntry(items[i], e);
      if e.origTargAddr != 0 || !xedd.ins.Rip? {
        EntriesOfUpdate(items, Table(), i, e);
        return 0;
      }
      var newDisp := e.origInsAddr + xedd.ins.disp + xedd.len;
      var newIns := Abs(xedd.ins.use, Sext32(newDisp));
      instrMap[i] := e.(encodedIns := EncodeInto(e.encodedIns, newIns));
      EntriesOfUpdate(items, old(Table()), i, instrMap[i]);
      assert Table() == old(Table())[i := instrMap[i]];
      newSize := Size(newIns);
    }

    /** Sends an unchained jump or call through the memory cell holding its original target. */
    method FixDirectBrCallToOrigAddr(i: nat) returns (newSize: int)
      requires Valid() && i < num && TargetOf(items[i]) != 0 && instrMap[i].targMapEntry < 0
      modifies instrMap
      ensures Valid() && Table() == old(Table())[i := instrMap[i]]
      ensures instrMap[i] ==
        old(instrMap[i]).(encodedIns := instrMap[i].encodedIns, hasNewTargAddr := instrMap[i].hasNewTargAddr)
      ensures newSize == -1 <==> Stranded(items[i], instrMap[i])
      ensures newSize == -1 ==> instrMap[i] == old(instrMap[i])
      ensures newSize >= 0 ==> instrMap[i].hasNewTargAddr
      ensures newSize >= 0 ==> newSize == FinalSize(items[i], false) && Settled(items, Table(), base, i)
      ensures newSize >= -1
    {
      hide W64, Encode, Decode, EntriesOf, CellOf;
      EntriesOfAt(items, Table(), i);
      var e := instrMap[i];
      var xedd := DecodeEntry(items[i], e);
      var category := CategoryOf(xedd.ins);
      if category != CallCat && category != UncondBr {
        EntriesOfUpdate(items, Table(), i, e);
        return -1;
      }
      var newDisp := CellOf(base, i) - e.newInsAddr - xedd.len;
      var newIns := ThroughCell(category == CallCat, newDisp);
      var olen := Size(newIns);
      var encoded := EncodeInto(e.encodedIns, newIns);
      if olen != xedd.len {
        newDisp := CellOf(base, i) - e.newInsAddr - olen;
        newIns := ThroughCell(category == CallCat, newDisp);
        olen := Size(newIns);
        encoded := EncodeInto(encoded, newIns);
      }
      instrMap[i] := e.(encodedIns := encoded, hasNewTargAddr := true);
      EntriesOfUpdate(items, old(Table()), i, instrMap[i]);
      assert Table() == old(Table())[i := instrMap[i]];
      assert newIns == FinalIns(items[i], false, e.newInsAddr, NewTargOf(Table(), i), CellOf(base, i));
      newSize := olen;
    }

    /** Aims a chained branch at the present address of its target entry: the first encoding finds the length,
        the second has the displacement counted from the end of that length. */
    method FixDirectBrCallDisplacement(i: nat) returns (newSize: int)
      requires Valid() && ValidTargets(Table()) && i < num && TargetOf(items[i]) != 0
      modifies instrMap
      ensures Valid() && Table() == old(Table())[i := instrMap[i]]
      ensures instrMap[i] ==
        old(instrMap[i]).(encodedIns := instrMap[i].encodedIns, hasNewTargAddr := instrMap[i].hasNewTargAddr)
      ensures newSize == -1 <==> Stranded(items[i], instrMap[i])
      ensures newSize == -1 ==> instrMap[i] == old(instrMap[i])
      ensures newSize >= 0 && instrMap[i].targMapEntry < 0 ==> instrMap[i].hasNewTargAddr
      ensures instrMap[i].targMapEntry >= 0 ==> instrMap[i].hasNewTargAddr == old(instrMap[i].hasNewTargAddr)
      ensures newSize >= 0 ==>
        newSize == FinalSize(items[i], instrMap[i].targMapEntry >= 0) && Settled(items, Table(), base, i)
      ensures newSize >= -1
    {
      hide W64, Encode, Decode, EntriesOf, CellOf;
      EntriesOfAt(items, Table(), i);
      var e := instrMap[i];
      assert e == Table()[i];
      var xedd := DecodeEntry(items[i], e);
      var category := CategoryOf(xedd.ins);
      if category != CallCat && category != CondBr && category != UncondBr {
        return -1;
      }
      if e.targMapEntry < 0 {
        newSize := FixDirectBrCallToOrigAddr(i);
        return newSize;
      }
      var newTargAddr := instrMap[e.targMapEntry].newInsAddr;
      var newDisp := newTargAddr - e.newInsAddr - e.size;
      var newIns := Retarget(xedd.ins, newDisp);
      newDisp := newTargAddr - (e.newInsAddr + Size(newIns));
      newIns := Retarget(newIns, newDisp);
      instrMap[i] := e.(encodedIns := EncodeInto(e.encodedIns, newIns));
      EntriesOfUpdate(items, old(Table()), i, instrMap[i]);
      assert Table() == old(Table())[i := instrMap[i]];
      assert newIns == FinalIns(items[i], true, e.newInsAddr, NewTargOf(Table(), i), CellOf(base, i));
      newSize := Size(newIns);
    }

    /** What a pass does at entry `i`: moves it by what the entries before it have grown, and re-encodes it. */
    method FixEntry(i: nat, sizeDiff: int) returns (rc: int, newSizeDiff: int)
      requires Valid() && ValidTargets(Table()) && i < num && Sized(instrMap[i])
      modifies instrMap
      ensures Valid() && Table() == old(Table())[i := instrMap[i]] && Sized(instrMap[i])
      ensures instrMap[i].targMapEntry == old(instrMap[i].targMapEntry)
      ensures instrMap[i].newInsAddr == W64(old(instrMap[i].newInsAddr) + sizeDiff)
      ensures rc == if Stranded(items[i], instrMap[i]) then -1 else 0
      ensures rc == 0 ==> old(instrMap[i].size) <= instrMap[i].size && Grown(items[i], instrMap[i])
      ensures rc == 0 ==> newSizeDiff == sizeDiff + instrMap[i].size - old(instrMap[i].size)
      ensures rc == 0 ==> Settled(items, Table(), base, i)
    {
      hide W64, EntriesOf, Encodes, FormOf, Current, Size, CategoryOf, CellOf, Absolute, Retarget, ThroughCell, Encode,
        Decode, ValidItem, FinalIns, Settled;
      EntriesOfAt(items, Table(), i);
      if !Stranded(items[i], instrMap[i]) {
        FormSize(items[i], instrMap[i]);
      }
      instrMap[i] := instrMap[i].(newInsAddr := W64(instrMap[i].newInsAddr + sizeDiff));
      EntriesOfUpdate(items, old(Table()), i, instrMap[i]);
      assert Table() == old(Table())[i := instrMap[i]];
      newSizeDiff := sizeDiff;
      var newSize := FixRipDisplacement(i);
      if newSize == 0 {
        EntriesOfAt(items, Table(), i);
        if instrMap[i].origTargAddr == 0 {
          SettledPlain(items, Table(), base, i);
          return 0, sizeDiff;
        }
        newSize := FixDirectBrCallDisplacement(i);
        if newSize < 0 {
          return -1, sizeDiff;
        }
        SettledSize(items, Table(), base, i);
      } else {
        SettledPlain(items, Table(), base, i);
      }
      ghost var t := Table();
      EntriesOfAt(items, t, i);
      SettledResized(items, t, base, i, newSize);
      if instrMap[i].size != newSize {
        newSizeDiff := sizeDiff + (newSize - instrMap[i].size);
        instrMap[i] := instrMap[i].(size := newSize);
      }
      EntriesOfUpdate(items, t, i, instrMap[i]);
      assert Table() == t[i := instrMap[i]];
      rc := 0;
    }

    /** One pass over the map; `sizeDiff` is what the entries have grown. */
    method Pass() returns (rc: int, sizeDiff: int)
      requires Valid() && ValidTargets(Table()) && AllSized(Table()) && LaidOut(Table(), tc)
      modifies instrMap
      ensures Valid() && AllSized(Table()) && SameTargets(old(Table()), Table())
      ensures rc == if AnyStranded(items, Table()) then -1 else 0
      ensures rc == 0 ==> LaidOut(Table(), tc) && AllGrown(items, Table(), num)
      ensures rc == 0 ==> AllAimed(items, old(Table()), Table(), base, num)
      ensures rc == 0 && sizeDiff == 0 ==> AllSettled(items, Table(), base, num)
      ensures rc == 0 && AllGrown(items, old(Table()), num) ==> sizeDiff == 0
    {
      hide W64, EntriesOf, EntryOf, Sized, Settled, Grown, PassInv, LaidOut, Stranded;
      PassStart(items, Table(), tc, base);
      sizeDiff := 0;
      for i := 0 to num
        invariant Valid() && AllSized(Table()) && SameTargets(old(Table()), Table())
        invariant PassInv(items, old(Table()), Table(), tc, base, i, sizeDiff)
      {
        ghost var t, diff := Table(), sizeDiff;
        rc, sizeDiff := FixEntry(i, sizeDiff);
        if rc < 0 {
          assert Stranded(items[i], Table()[i]);
          return;
        }
        PassStep(items, old(Table()), t, tc, base, i, diff, instrMap[i]);
      }
      PassEnd(items, old(Table()), Table(), tc, base, sizeDiff);
      NoneStranded(items, Table());
      rc := 0;
    }

    /** Repeats the pass over the map until one leaves the total size as it was. */
    method FixInstructionsDisplacements() returns (rc: int, ghost passes: nat)
      requires Valid() && ValidTargets(Table()) && AllSized(Table()) && LaidOut(Table(), tc)
      modifies instrMap
      ensures Valid() && AllSized(Table()) && SameTargets(old(Table()), Table())
      ensures rc == if AnyStranded(items, Table()) then -1 else 0
      ensures rc == 0 ==> LaidOut(Table(), tc) && AllSettled(items, Table(), base, num)
      ensures passes <= 2
    {
      hide W64, EntriesOf, EntryOf, Sized, Settled, Grown, LaidOut, Stranded;
      passes := 0;
      var sizeDiff := 1;
      while sizeDiff != 0
        invariant Valid() && ValidTargets(Table()) && AllSized(Table()) && LaidOut(Table(), tc)
        invariant SameTargets(old(Table()), Table())
        invariant passes > 0 ==> AllGrown(items, Table(), num) && !AnyStranded(items, Table())
        invariant passes <= 2 && (passes == 2 ==> sizeDiff == 0) && (passes == 0 ==> sizeDiff != 0)
        invariant sizeDiff == 0 ==> AllSettled(items, Table(), base, num)
        decreases 2 - passes
      {
        rc, sizeDiff := Pass();
        passes := passes + 1;
        if rc < 0 {
          return;
        }
      }
      rc := 0;
    }

    // ----- Writing the TC -----

    /** Copies the encoded instructions into the TC, checking that each goes to the address the map gives it. */
    method CopyInstrsToTc() returns (rc: int)
      requires Valid() && AllSized(Table()) && Offset(Table(), num) <= tcBytes.Length
      modifies tcBytes
      ensures rc == if AtOffsets(Table(), tc, num) then 0 else -1
      ensures rc == 0 ==> Written(Table(), tcBytes[..], num)
      ensures rc == 0 ==> tcBytes[Offset(Table(), num)..] == old(tcBytes[Offset(Table(), num)..])
    {
      hide W64, EntriesOf, Sized, EndOf, Offset, AtOffsets, Written, CopyInv;
      ghost var table := Table();
      CopyStart(table, tc, tcBytes[..]);
      var cursor: nat := 0;
      for i := 0 to num
        invariant CopyInv(table, tc, old(tcBytes[..]), tcBytes[..], i, cursor)
      {
        EntryFits(items, table, i);
        CopyStep(table, tc, old(tcBytes[..]), tcBytes[..], i, cursor);
        if W64(tc + cursor) != instrMap[i].newInsAddr {
          return -1;
        }
        ghost var before := tcBytes[..];
        forall k | 0 <= k < instrMap[i].size {
          tcBytes[cursor + k] := instrMap[i].encodedIns[k];
        }
        assert tcBytes[..] == Splice(before, cursor, instrMap[i].encodedIns[..instrMap[i].size]);
        cursor := cursor + instrMap[i].size;
      }
      CopyEnd(table, tc, old(tcBytes[..]), tcBytes[..], cursor);
      rc := 0;
    }

    // ----- The whole translation -----

    /** Puts the instructions of one routine into the map, up to the first that cannot be decoded as described. */
    method AddRoutine(image: Segment, rtn: Routine) returns (whole: bool)
      requires Valid() && Adding() && num + |rtn.instrs| < instrMap.Length
      modifies this`num, this`tcCursor, this`items, instrMap
      ensures Valid() && Adding()
      ensures items == old(items) + ItemsOf(image, rtn.instrs)
      ensures whole <==> Whole(image, rtn)
    {
      hide W64, EntriesOf, Added, Fetch, Table, ItemsOf, ItemOf;
      ghost var instrs := rtn.instrs;
      assert instrs[..0] == [];
      ItemsOfNone(image);
      for j := 0 to |rtn.instrs|
        invariant Valid() && Adding()
        invariant forall i :: 0 <= i < j ==> Readable(image, instrs[i])
        invariant items == old(items) + ItemsOf(image, instrs[..j]) && |ItemsOf(image, instrs[..j])| == j
      {
        ItemsOfSplit(image, instrs, j);
        var (addr, size) := rtn.instrs[j];
        var xedd := Fetch(image, addr);
        if xedd.None? {
          ItemsOfStops(image, instrs[j..]);
          return false;
        }
        var rc := AddNewInstrEntry(xedd.value, addr, size);
        if rc < 0 {
          ItemsOfStops(image, instrs[j..]);
          return false;
        }
        ItemsOfExtend(image, instrs, j);
      }
      assert instrs[..|instrs|] == instrs;
      whole := true;
    }

    /** Puts all routines into the map, one after the other. */
    method FindCandidateRtnsForTranslation(image: Segment, rtns: seq<Routine>)
      requires Valid() && Adding() && items == [] && translatedRtn == []
      requires CountInstrs(rtns) < instrMap.Length
      modifies this, instrMap
      ensures Valid() && Adding()
      ensures items == AllItems(image, rtns) && Recorded(image, rtns, translatedRtn)
    {
      hide W64, EntriesOf, Added, Fetch, Table, ItemsOf;
      assert rtns[..0] == [];
      for k := 0 to |rtns|
        invariant Valid() && Adding()
        invariant items == AllItems(image, rtns[..k]) && |translatedRtn| == k
        invariant forall i :: 0 <= i < k ==> RecordedRow(image, rtns, i, translatedRtn[i])
      {
        assert rtns[..k + 1][..k] == rtns[..k];
        AllItemsBound(image, rtns[..k]);
        CountInstrsMonotone(rtns, k + 1);
        var entry := num;
        var whole := AddRoutine(image, rtns[k]);
        translatedRtn := translatedRtn + [TranslatedRtn(rtns[k].addr, rtns[k].size, if whole then entry else -1, true)];
      }
      assert rtns[..|rtns|] == rtns;
    }

    /** Puts a list of instructions, however it was made up, into the map. */
    method AddItems(local: seq<Item>)
      requires Valid() && Adding() && num + |local| < instrMap.Length
      requires forall k :: 0 <= k < |local| ==> ValidItem(local[k])
      modifies this`num, this`tcCursor, this`items, instrMap
      ensures Valid() && Adding() && items == old(items) + local
    {
      hide W64, EntriesOf, Added, ValidItem, Table;
      for i := 0 to |local|
        invariant Valid() && Adding() && items == old(items) + local[..i]
      {
        var rc := AddNewInstrEntry(local[i].code, local[i].addr, local[i].code.len);
        assert local[..i + 1] == local[..i] + [local[i]];
      }
    }

    /** The steps after collecting: chain, fix, copy.  They fail only on a conditional branch that leaves the
        translated code, and otherwise leave a map and a TC that mean the collected instructions. */
    method ChainFixCopy() returns (rc: int)
      requires Valid() && Adding() && TotalSize(items, |items|) <= tcBytes.Length
      modifies instrMap, tcBytes
      ensures Valid()
      ensures rc == if Leaving(items) then -1 else 0
      ensures rc == 0 ==> Translated(items, Table(), Segment(tc, tcBytes[..]), base)
    {
      hide W64, EntriesOf, AsDecoded, Added, LaidOut, Chained, AllSettled, Written, AtOffsets, Offset, AnyStranded,
        Leaving;
      ChainAllDirectBrAndCallTargetEntries();
      ReadyToFix(items, Table());
      ghost var chained := Table();
      ghost var passes;
      rc, passes := FixInstructionsDisplacements();
      ChainedSame(items, chained, Table());
      StrandedLeaving(items, Table());
      if rc < 0 {
        return;
      }
      OffsetTotal(items, Table(), base, num);
      LaidOutAtOffsets(Table(), tc);
      rc := CopyInstrsToTc();
    }

    /** The whole translation of an image: collect the routines, then chain, fix and copy. */
    method ImageLoad(image: Segment, rtns: seq<Routine>) returns (rc: int)
      requires Valid() && Adding() && items == [] && translatedRtn == []
      requires CountInstrs(rtns) < instrMap.Length
      requires TotalSize(AllItems(image, rtns), |AllItems(image, rtns)|) <= tcBytes.Length
      modifies this, instrMap, tcBytes
      ensures Valid() && items == AllItems(image, rtns) && Recorded(image, rtns, translatedRtn)
      ensures rc == if Leaving(items) then -1 else 0
      ensures rc == 0 ==> Translated(items, Table(), Segment(tc, tcBytes[..]), base)
    {
      hide EntriesOf, Added, Translated, Leaving, TotalSize;
      FindCandidateRtnsForTranslation(image, rtns);
      rc := ChainFixCopy();
    }

    /** The same for one list of instructions, such as an inlined or a reordered routine. */
    method TranslateItems(local: seq<Item>) returns (rc: int)
      requires Valid() && Adding() && items == [] && |local| < instrMap.Length
      requires (forall k :: 0 <= k < |local| ==> ValidItem(local[k])) && TotalSize(local, |local|) <= tcBytes.Length
      modifies this, instrMap, tcBytes
      ensures Valid() && items == local
      ensures rc == if Leaving(items) then -1 else 0
      ensures rc == 0 ==> Translated(items, Table(), Segment(tc, tcBytes[..]), base)
    {
      hide EntriesOf, Added, Translated, Leaving, TotalSize, ValidItem;
      AddItems(local);
      assert items == local;
      rc := ChainFixCopy();
    }

    /** Where routine `r` was translated to: the new address of the entry recorded for it. */
    function TranslationOf(r: nat): Addr
      requires r < |translatedRtn| && num <= instrMap.Length
      reads this, instrMap
    {
      var entry := translatedRtn[r].instrMapEntry;
      if 0 <= entry < num then instrMap[entry].newInsAddr else 0
    }

    /** Routine `r` was translated, is long enough, can be replaced, and `p` leads from it to its translation. */
    ghost predicate Redirects(rtns: seq<Routine>, safe: Addr -> bool, r: nat, p: (Addr, Addr))
      requires r < |rtns| == |translatedRtn| && num <= instrMap.Length
      reads this, instrMap
    {
      Committed(translatedRtn[r]) && safe(rtns[r].addr) && p == (rtns[r].addr, TranslationOf(r))
    }

    /** Redirects the translated routines: pairs of the address of a routine and the address of its translation.
        `safe` tells whether the framework can replace the routine at an address. */
    method CommitTranslatedRoutines(ghost image: Segment, ghost rtns: seq<Routine>, safe: Addr -> bool)
        returns (redirected: seq<(Addr, Addr)>)
      requires Valid() && items == AllItems(image, rtns) && Headed(rtns) && Recorded(image, rtns, translatedRtn)
      ensures |translatedRtn| == |rtns|
      ensures forall p :: p in redirected <==> exists r :: 0 <= r < |rtns| && Redirects(rtns, safe, r, p)
      ensures forall r :: 0 <= r < |rtns| && Committed(translatedRtn[r]) ==>
        0 <= translatedRtn[r].instrMapEntry < num && items[translatedRtn[r].instrMapEntry].addr == rtns[r].addr
      ensures forall p :: p in redirected ==> EntryFor(items, Table(), p.0, p.1)
    {
      hide EntriesOf, AllItems, Recorded, Headed;
      redirected := [];
      assert |translatedRtn| == |rtns| by { RecordedLength(image, rtns, translatedRtn); }
      forall r | 0 <= r < |rtns| && Committed(translatedRtn[r])
        ensures 0 <= translatedRtn[r].instrMapEntry < num
        ensures items[translatedRtn[r].instrMapEntry].addr == rtns[r].addr == translatedRtn[r].rtnAddr
      {
        RecordedEntry(image, rtns, translatedRtn, r);
      }
      for r := 0 to |translatedRtn|
        invariant forall p :: p in redirected <==> exists i :: 0 <= i < r && Redirects(rtns, safe, i, p)
      {
        var row := translatedRtn[r];
        if row.instrMapEntry >= 0 && row.rtnSize > MAX_PROBE_JUMP_INSTR_BYTES && row.isSafeForReplacedProbe {
          assert Committed(translatedRtn[r]);
          if safe(row.rtnAddr) {
            var pair := (row.rtnAddr, instrMap[row.instrMapEntry].newInsAddr);
            ghost var before := redirected;
            redirected := redirected + [pair];
            assert Redirects(rtns, safe, r, pair) && forall p :: p in redirected <==> p in before || p == pair;
          }
        }
      }
    }

    lemma {:induction false} RedirectsTold(
        image: Segment, rtns: seq<Routine>, safe: Addr -> bool, seg: Segment, r: nat, p: (Addr, Addr))
      requires Valid() && items == AllItems(image, rtns) && Headed(rtns) && Recorded(image, rtns, translatedRtn)
      requires Translated(items, Table(), seg, base) && seg.base == tc && r < |rtns| == |translatedRtn|
      ensures Redirects(rtns, safe, r, p) <==> ToRedirect(image, rtns, safe, tc, r, p)
    {
      hide EntriesOf, Translated, AllItems, Headed, Recorded, Committed, TotalSize, W64;
      RecordedAt(image, rtns, translatedRtn, r);
      AllItemsAt(image, rtns, r);
      if Committed(translatedRtn[r]) {
        CommittedEntry(translatedRtn[r]);
        RecordedEntry(image, rtns, translatedRtn, r);
        TranslatedAt(items, Table(), seg, base, translatedRtn[r].instrMapEntry);
      }
    }

    /** Everything, from the routines to the commit; what is redirected, and where to, is told from the routines
        alone. */
    method TranslateAndCommit(image: Segment, rtns: seq<Routine>, safe: Addr -> bool)
        returns (rc: int, redirected: seq<(Addr, Addr)>)
      requires Valid() && Adding() && items == [] && translatedRtn == [] && Headed(rtns)
      requires CountInstrs(rtns) < instrMap.Length
      requires TotalSize(AllItems(image, rtns), |AllItems(image, rtns)|) <= tcBytes.Length
      modifies this, instrMap, tcBytes
      ensures Valid() && items == AllItems(image, rtns)
      ensures rc == if Leaving(items) then -1 else 0
      ensures rc == 0 ==> Translated(items, Table(), Segment(tc, tcBytes[..]), base)
      ensures rc != 0 ==> redirected == []
      ensures rc == 0 ==> forall p ::
        p in redirected <==> exists r :: 0 <= r < |rtns| && ToRedirect(image, rtns, safe, tc, r, p)
    {
      hide EntriesOf, Added, Translated, Leaving, TotalSize, AllItems, Headed, Recorded, Redirects, ToRedirect;
      redirected := [];
      rc := ImageLoad(image, rtns);
      if rc == 0 {
        redirected := CommitTranslatedRoutines(image, rtns, safe);
        forall r, p | 0 <= r < |rtns|
          ensures Redirects(rtns, safe, r, p) <==> ToRedirect(image, rtns, safe, tc, r, p)
        {
          RedirectsTold(image, rtns, safe, Segment(tc, tcBytes[..]), r, p);
        }
      }
    }
  }

  /** Routine `r` was decoded whole, is longer than 14 bytes and can be replaced; `p` leads from it to where its first
      instruction comes to be, the sizes of everything before it put together. */
  ghost predicate ToRedirect(
    image: Segment, rtns: seq<Routine>, safe: Addr -> bool, tc: Addr, r: nat, p: (Addr, Addr))
    requires r < |rtns|
  {
    var first := |AllItems(image, rtns[..r])|;
    && Whole(image, rtns[r]) && rtns[r].size > 14 && safe(rtns[r].addr)
    && first <= |AllItems(image, rtns)|
    && p == (rtns[r].addr, W64(tc + TotalSize(AllItems(image, rtns), first)))
  }

  lemma {:induction false} CommittedEntry(row: TranslatedRtn)
    requires Committed(row)
    ensures row.instrMapEntry >= 0
  {
  }

  lemma {:induction false} RecordedAt(image: Segment, rtns: seq<Routine>, rows: seq<TranslatedRtn>, r: nat)
    requires Recorded(image, rtns, rows) && r < |rtns|
    ensures |rows| == |rtns| && (Committed(rows[r]) <==> Whole(image, rtns[r]) && rtns[r].size > 14)
    ensures Whole(image, rtns[r]) ==> rows[r].instrMapEntry == |AllItems(image, rtns[..r])|
  {
    hide AllItems, Whole;
    assert RecordedRow(image, rtns, r, rows[r]);
  }
}
