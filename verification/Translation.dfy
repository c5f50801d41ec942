/** Plain translation of routines: the code in the TC does what the original code does, for whole runs. */
module Translation {
  import opened Words
  import opened Instructions
  import opened InstrMap
  import opened Machine
  import opened Simulation
  import opened LinkedCode
  import opened Encodability
  import opened MapMemory
  import opened Routines

  // ----- Linked code against original code -----

  /** Control never goes on to the instruction that happens to stand behind this one. */
  predicate NeverFalls(i: Ins) {
    i.Jmp? || i.JmpReg? || i.Ret? || ((i.Rip? || i.Abs?) && i.use.JumpThrough?)
  }

  /** An instruction that control can fall out of is followed by its own successor. */
  predicate StaysInside(items: seq<Item>) {
    forall k :: 0 <= k < |items| && !NeverFalls(items[k].code.ins) ==>
      k + 1 < |items| && items[k + 1].addr == NextOf(items[k])
  }

  /** Location `l` stands for the original address `a`. */
  predicate StandsFor(items: seq<Item>, l: Loc, a: Addr) {
    match l
    case In(k) => k < |items| && items[k].addr == a
    case Out(b) => b == a
  }

  predicate StandForAll(items: seq<Item>, ls: seq<Loc>, addrs: seq<Addr>) {
    |ls| == |addrs| && forall k :: 0 <= k < |ls| ==> StandsFor(items, ls[k], addrs[k])
  }

  predicate InStep<D(==)>(items: seq<Item>, c: Config<Addr, D>, l: Config<Loc, D>) {
    c.data == l.data && StandForAll(items, l.locs, c.locs)
  }

  lemma {:induction false} LinkedCodeFollowsStep<D(!new)>(
      sem: Sem<D>, image: Segment, items: seq<Item>, c: Config<Addr, D>, l: Config<Loc, D>)
    requires ReadFrom(image, items) && StaysInside(items)
    requires InStep(items, c, l) && Step(sem, Original(image), c).Some?
    ensures var l' := LinkStep(sem, image, items, l);
      l'.Some? && InStep(items, Step(sem, Original(image), c).value, l'.value)
  {
    hide W64, Fetch, Resolve;
    assert StandsFor(items, l.locs[0], c.locs[0]);
    match l.locs[0]
    case Out(_) =>
    case In(k) =>
      EffectFalls(sem, items[k].code.ins, NextOf(items[k]), c.data);
  }

  lemma {:induction false} EffectFalls<D>(sem: Sem<D>, i: Ins, next: Addr, d: D)
    ensures var ctl := Effect(sem, i, next, d).1; ctl.Fall? || ctl.CallTo? ==> !NeverFalls(i)
  {
  }

  lemma {:induction false} LinkedCodeFollowsOriginal<D(!new)>(
      sem: Sem<D>, image: Segment, items: seq<Item>, c: Config<Addr, D>, l: Config<Loc, D>, n: nat)
    requires ReadFrom(image, items) && StaysInside(items)
    requires InStep(items, c, l) && Run(Processor(sem, Original(image)), c, n).Some?
    ensures var l' := Run(Linked(sem, image, items), l, n);
      l'.Some? && InStep(items, Run(Processor(sem, Original(image)), c, n).value, l'.value)
  {
    var rel := (c: Config<Addr, D>, l: Config<Loc, D>) => InStep(items, c, l);
    forall c: Config<Addr, D>, l: Config<Loc, D> | rel(c, l) && Processor(sem, Original(image))(c).Some?
      ensures var l' := Linked(sem, image, items)(l);
        l'.Some? && rel(Processor(sem, Original(image))(c).value, l'.value)
    {
      LinkedCodeFollowsStep(sem, image, items, c, l);
    }
    FollowsRun(Processor(sem, Original(image)), Linked(sem, image, items), rel, c, l, n);
  }

  // ----- The TC against original code -----

  /** Address `a'` of the translated process stands for `a`: the same untranslated address, or the new address of
      an entry made from `a`. */
  ghost predicate Corresponds(items: seq<Item>, table: seq<Entry>, a: Addr, a': Addr)
    requires |items| == |table|
  {
    a' == a || exists k :: 0 <= k < |items| && items[k].addr == a && table[k].newInsAddr == a'
  }

  ghost predicate Corresponding<D>(items: seq<Item>, table: seq<Entry>, c: Config<Addr, D>, m: Config<Addr, D>)
    requires |items| == |table|
  {
    && c.data == m.data && |c.locs| == |m.locs|
    && forall i :: 0 <= i < |c.locs| ==> Corresponds(items, table, c.locs[i], m.locs[i])
  }

  /** The linked location between two corresponding addresses. */
  ghost function Between(items: seq<Item>, table: seq<Entry>, tc: Addr, a: Addr, a': Addr): (l: Loc)
    requires |items| == |table| && LaidOut(table, tc) && Corresponds(items, table, a, a')
    ensures StandsFor(items, l, a) && OnMap(table, l) && Place(table, tc, l) == a'
  {
    if a' == a then Out(a)
    else
      var k :| 0 <= k < |items| && items[k].addr == a && table[k].newInsAddr == a';
      PlaceOfEntry(table, tc, k);
      In(k)
  }

  ghost function AllBetween(
      items: seq<Item>, table: seq<Entry>, tc: Addr, addrs: seq<Addr>, addrs': seq<Addr>): (ls: seq<Loc>)
    requires |items| == |table| && LaidOut(table, tc) && |addrs| == |addrs'|
    requires forall i :: 0 <= i < |addrs| ==> Corresponds(items, table, addrs[i], addrs'[i])
    ensures StandForAll(items, ls, addrs) && Placed(table, tc, ls, addrs')
  {
    if addrs == [] then []
    else [Between(items, table, tc, addrs[0], addrs'[0])] + AllBetween(items, table, tc, addrs[1..], addrs'[1..])
  }

  lemma {:induction false} CorrespondingThrough<D>(
      items: seq<Item>, table: seq<Entry>, tc: Addr, c: Config<Addr, D>, l: Config<Loc, D>, m: Config<Addr, D>)
    requires |items| == |table| && LaidOut(table, tc)
    requires InStep(items, c, l) && AtPlaces(table, tc, l, m)
    ensures Corresponding(items, table, c, m)
  {
    hide LaidOut, Place;
    forall i | 0 <= i < |c.locs| ensures Corresponds(items, table, c.locs[i], m.locs[i]) {
      assert StandsFor(items, l.locs[i], c.locs[i]) && m.locs[i] == Place(table, tc, l.locs[i]);
      match l.locs[i]
      case In(k) => PlaceOfEntry(table, tc, k);
      case Out(a) => PlaceOut(table, tc, a);
    }
  }

  /**
   Translation preserves behaviour over whole runs.  Run the original program and the process with the TC from
   corresponding configurations: as long as the original runs, the translated process makes the same number of
   steps, with the same data, and every code address in it corresponds to the original one.  Control that leaves
   the translated code does so to the original address, and a return address the TC pushed brings it back.
  */
  lemma {:induction false} TranslationPreservesRuns<D(!new)>(
      sem: Sem<D>, image: Segment, items: seq<Item>, table: seq<Entry>, tc: Segment, base: Addr,
      c: Config<Addr, D>, m: Config<Addr, D>, n: nat)
    requires ReadFrom(image, items) && StaysInside(items)
    requires Translated(items, table, tc, base) && Placeable(items, tc.base, base) && MapHeld(sem, table, base)
    requires Disjoint(image, tc) && |tc.bytes| <= TWO64
    requires Corresponding(items, table, c, m) && Run(Processor(sem, Original(image)), c, n).Some?
    ensures var m' := Run(Processor(sem, WithTc(image, tc)), m, n);
      m'.Some? && Corresponding(items, table, Run(Processor(sem, Original(image)), c, n).value, m'.value)
  {
    EncodableIff(items, table, tc, base);
    MapHoldsCells(sem, items, table, tc, base);
    var l := Config(AllBetween(items, table, tc.base, c.locs, m.locs), c.data);
    LinkedCodeFollowsOriginal(sem, image, items, c, l, n);
    TcFollowsLinkedCode(sem, image, items, table, tc, base, l, m, n);
    CorrespondingThrough(items, table, tc.base, Run(Processor(sem, Original(image)), c, n).value,
      Run(Linked(sem, image, items), l, n).value, Run(Processor(sem, WithTc(image, tc)), m, n).value);
  }

  // ----- Routines -----

  /** A routine in one piece: its instructions stand one after the other from its address on, and control does
      not run off its end. */
  predicate InOnePiece(image: Segment, rtn: Routine) {
    && Whole(image, rtn)
    && (forall k :: 0 <= k < |rtn.instrs| - 1 ==> rtn.instrs[k + 1].0 == W64(rtn.instrs[k].0 + rtn.instrs[k].1))
    && var items := ItemsOf(image, rtn.instrs);
       items != [] ==> NeverFalls(items[|items| - 1].code.ins)
  }

  /** What is required of the items follows from what is required of each routine. */
  lemma {:induction false} RoutinesStayInside(image: Segment, rtns: seq<Routine>)
    requires forall k :: 0 <= k < |rtns| ==> InOnePiece(image, rtns[k])
    ensures StaysInside(AllItems(image, rtns))
  {
    hide W64, Fetch, Readable, NeverFalls;
    if rtns != [] {
      var front, last := rtns[..|rtns| - 1], rtns[|rtns| - 1];
      RoutinesStayInside(image, front);
      assert InOnePiece(image, last);
      var xs, ys := AllItems(image, front), ItemsOf(image, last.instrs);
      var zs := AllItems(image, rtns);
      assert zs == xs + ys;
      forall k | 0 <= k < |zs| && !NeverFalls(zs[k].code.ins)
        ensures k + 1 < |zs| && zs[k + 1].addr == NextOf(zs[k])
      {
        if k < |xs| {
          assert zs[k] == xs[k] && zs[k + 1] == xs[k + 1];
        } else {
          var i := k - |xs|;
          assert zs[k] == ys[i] && last.instrs[i].0 == ys[i].addr && last.instrs[i].1 == ys[i].code.len;
        }
      }
    }
  }

  /**
   The whole translation of a set of routines.  From a call of any of them, made by code that is not translated,
   the translation at the new address of its first instruction does what the routine does, for as long as that runs.
  */
  lemma {:induction false} RoutinesPreserveRuns<D(!new)>(
      sem: Sem<D>, image: Segment, rtns: seq<Routine>, rows: seq<TranslatedRtn>,
      table: seq<Entry>, tc: Segment, base: Addr, r: nat, rets: seq<Addr>, d: D, n: nat)
    requires forall k :: 0 <= k < |rtns| ==> InOnePiece(image, rtns[k])
    requires Headed(rtns) && Recorded(image, rtns, rows) && r < |rtns|
    requires var items := AllItems(image, rtns);
      Translated(items, table, tc, base) && Placeable(items, tc.base, base) && MapHeld(sem, table, base)
    requires Disjoint(image, tc) && |tc.bytes| <= TWO64
    requires Run(Processor(sem, Original(image)), Config([rtns[r].addr] + rets, d), n).Some?
    ensures 0 <= rows[r].instrMapEntry < |table|
    ensures var m := Config([table[rows[r].instrMapEntry].newInsAddr] + rets, d);
      var m' := Run(Processor(sem, WithTc(image, tc)), m, n);
      var c' := Run(Processor(sem, Original(image)), Config([rtns[r].addr] + rets, d), n).value;
      m'.Some? && Corresponding(AllItems(image, rtns), table, c', m'.value)
  {
    hide Translated, Placeable, CellsHeld, MapHeld, Disjoint, AllItems, ItemsOf, Step, Fetch;
    var items := AllItems(image, rtns);
    assert |items| == |table| by { TranslatedLength(items, table, tc, base); }
    RoutinesStayInside(image, rtns);
    assert InOnePiece(image, rtns[r]) && RecordedRow(image, rtns, r, rows[r]);
    RecordedEntry(image, rtns, rows, r);
    var k := rows[r].instrMapEntry;
    var c, m := Config([rtns[r].addr] + rets, d), Config([table[k].newInsAddr] + rets, d);
    assert items[k].addr == rtns[r].addr;
    assert Corresponding(items, table, c, m);
    TranslationPreservesRuns(sem, image, items, table, tc, base, c, m, n);
  }

  lemma {:induction false} TranslatedLength(items: seq<Item>, table: seq<Entry>, tc: Segment, base: Addr)
    requires Translated(items, table, tc, base)
    ensures |items| == |table|
  {
  }
}
