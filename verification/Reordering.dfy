/**
 Profile-guided reordering: the blocks of a routine are laid out in another order, with conditions inverted and
 jumps added, and still visit the same original addresses.
*/
module Reordering {
  import opened Words
  import opened Instructions
  import opened InstrMap
  import opened Machine
  import opened Simulation
  import opened LinkedCode
  import opened Encodability
  import opened MapMemory
  import opened Routines
  import opened Translation

  // ----- Building the layout -----

  function Reverted(c: Cond): Cond {
    match c
    case B => NB case BE => NBE case L => NL case LE => NLE
    case NB => B case NBE => BE case NL => L case NLE => LE
    case NO => O case NP => P case NS => S case NZ => Z
    case O => NO case P => NP case S => NS case Z => NZ
  }

  lemma {:induction false} RevertedHolds(c: Cond, f: Flags)
    ensures Holds(Reverted(c), f) <==> !Holds(c, f)
  {
  }

  /** The profile of a block: its first and last instruction, and how its last branch went. */
  datatype BlockEdge = BlockEdge(srcBBLHead: Addr, source: Addr, takenCount: nat, notTakenCount: nat)

  predicate ShouldRevert(e: BlockEdge) { e.takenCount > e.notTakenCount }

  /** The relative displacements written into inverted conditions and added jumps. */
  datatype Displacements = Displacements(first: Item -> int, inverted: Item -> int, jump: (Item, bool) -> int)

  /** The ones the program uses. */
  const FIXED := Displacements(_ => 0, _ => -4, (_, _) => 2)

  /** An instruction of the layout: an original one, an original one with its condition inverted, or a new jump. */
  datatype Emitted =
    | Kept(item: Item)
    | Inverted(item: Item, orig: Item)
    | Added(item: Item)

  function AddedJump(tail: Item, disp: int): Emitted {
    Added(Item(tail.addr, Decoded(Jmp(Near, Sext32(disp)), 5)))
  }

  function InvertedBranch(tail: Item, disp: int): Emitted
    requires tail.code.ins.Jcc?
  {
    Inverted(Item(tail.addr, Decoded(Jcc(Reverted(tail.code.ins.cond), Near, Sext32(disp)), 6)), tail)
  }

  function IsControlFlow(i: Ins): bool {
    !i.Plain? && ((i.Rip? || i.Abs?) ==> !i.use.Data?)
  }

  /** The end of a block: JRCXZ, and a LOOP that should be inverted, are lost with everything after them. */
  function EmitTail(tail: Item, revert: bool, ds: Displacements): seq<Emitted> {
    var i := tail.code.ins;
    if i.Loop? && (i.kind == JRCXZ || revert) then []
    else if i.Jcc? && revert then [InvertedBranch(tail, ds.inverted(tail)), AddedJump(tail, ds.jump(tail, true))]
    else if i.Ret? || CategoryOf(i) == UncondBr then [Kept(tail)]
    else [Kept(tail), AddedJump(tail, ds.jump(tail, false))]
  }

  function KeepAll(items: seq<Item>): (r: seq<Emitted>)
    ensures |r| == |items| && forall k :: 0 <= k < |items| ==> r[k] == Kept(items[k])
  {
    seq(|items|, k requires 0 <= k < |items| => Kept(items[k]))
  }

  /** The first index from `from` on of the instruction at `a`. */
  function IndexFrom(rtn: seq<Item>, a: Addr, from: nat): (k: nat)
    requires from <= |rtn|
    ensures from <= k <= |rtn| && (k < |rtn| ==> rtn[k].addr == a)
    ensures forall i :: from <= i < k ==> rtn[i].addr != a
    decreases |rtn| - from
  {
    if from == |rtn| || rtn[from].addr == a then from else IndexFrom(rtn, a, from + 1)
  }

  /** Both ends of the block are instructions of the routine. */
  predicate BlockFound(rtn: seq<Item>, e: BlockEdge) {
    IndexFrom(rtn, e.source, IndexFrom(rtn, e.srcBBLHead, 0)) < |rtn|
  }

  function EmitBlock(rtn: seq<Item>, e: BlockEdge, ds: Displacements): seq<Emitted>
    requires BlockFound(rtn, e)
  {
    var from := IndexFrom(rtn, e.srcBBLHead, 0);
    var to := IndexFrom(rtn, e.source, from);
    KeepAll(rtn[from..to]) + EmitTail(rtn[to], ShouldRevert(e), ds)
  }

  /** The first control-flow instruction. */
  function FirstTail(rtn: seq<Item>): (k: nat)
    ensures k <= |rtn| && (k < |rtn| ==> IsControlFlow(rtn[k].code.ins))
    ensures forall i :: 0 <= i < k ==> !IsControlFlow(rtn[i].code.ins)
  {
    if rtn == [] || IsControlFlow(rtn[0].code.ins) then 0 else 1 + FirstTail(rtn[1..])
  }

  function EmitFirst(rtn: seq<Item>, ds: Displacements): seq<Emitted>
    requires FirstTail(rtn) < |rtn|
  {
    var t := FirstTail(rtn);
    KeepAll(rtn[..t]) + [Kept(rtn[t]), AddedJump(rtn[t], ds.first(rtn[t]))]
  }

  function Layout(rtn: seq<Item>, edges: seq<BlockEdge>, ds: Displacements): seq<Emitted>
    requires FirstTail(rtn) < |rtn| && forall e :: e in edges ==> BlockFound(rtn, e)
  {
    if edges == [] then EmitFirst(rtn, ds)
    else
      var e := edges[|edges| - 1];
      Layout(rtn, edges[..|edges| - 1], ds) + if e.srcBBLHead == rtn[0].addr then [] else EmitBlock(rtn, e, ds)
  }

  method CopyBlock(rtn: seq<Item>, edge: BlockEdge, ds: Displacements) returns (block: seq<Emitted>)
    requires BlockFound(rtn, edge)
    ensures block == EmitBlock(rtn, edge, ds)
  {
    ghost var from := IndexFrom(rtn, edge.srcBBLHead, 0);
    ghost var to := IndexFrom(rtn, edge.source, from);
    block := [];
    var ins: nat := 0;
    while rtn[ins].addr != edge.srcBBLHead
      invariant ins <= from
      decreases from - ins
    {
      ins := ins + 1;
    }
    while rtn[ins].addr != edge.source
      invariant from <= ins <= to && block == KeepAll(rtn[from..ins])
      decreases |rtn| - ins
    {
      block := block + [Kept(rtn[ins])];
      ins := ins + 1;
    }
    block := block + EmitTail(rtn[ins], ShouldRevert(edge), ds);
  }

  method ReorderBlocks(rtn: seq<Item>, edges: seq<BlockEdge>, ds: Displacements) returns (local: seq<Emitted>)
    requires FirstTail(rtn) < |rtn| && forall e :: e in edges ==> BlockFound(rtn, e)
    ensures local == Layout(rtn, edges, ds)
  {
    hide EmitBlock, EmitTail, IndexFrom, IsControlFlow;
    local := [];
    var ins: nat := 0;
    while !IsControlFlow(rtn[ins].code.ins)
      invariant ins <= FirstTail(rtn) && local == KeepAll(rtn[..ins])
      decreases |rtn| - ins
    {
      local := local + [Kept(rtn[ins])];
      ins := ins + 1;
    }
    local := local + [Kept(rtn[ins])];
    local := local + [AddedJump(rtn[ins], ds.first(rtn[ins]))];
    assert local == EmitFirst(rtn, ds);
    for i := 0 to |edges|
      invariant local == Layout(rtn, edges[..i], ds)
    {
      assert edges[..i + 1][..i] == edges[..i];
      assert BlockFound(rtn, edges[i]);
      if edges[i].srcBBLHead != rtn[0].addr {
        var block := CopyBlock(rtn, edges[i], ds);
        local := local + block;
      }
    }
    assert edges[..|edges|] == edges;
  }

  // ----- Where the first block ends -----

  /** No machine goes on anywhere but behind the instruction, whatever its state. */
  ghost predicate AlwaysFalls(i: Ins) {
    forall sem: Sem<Flags>, next: Addr, f: Flags :: Effect(sem, i, next, f).1.Fall?
  }

  /** A machine whose state is its flags and that takes every LOOP. */
  const FLAGS_ONLY: Sem<Flags> := Sem(
    (_, f) => f, (_, _, _, f) => f, f => f, (_, f) => f, (_, _) => true, (_, _) => 0, (_, _) => 0, f => f, f => f)

  /** Flags with which the condition holds. */
  function FlagsFor(c: Cond): (f: Flags)
    ensures Holds(c, f)
  {
    match c
    case O => Flags(false, false, false, false, true)
    case B | BE => Flags(true, false, false, false, false)
    case Z | LE => Flags(false, false, true, false, false)
    case S | L => Flags(false, false, false, true, false)
    case P => Flags(false, true, false, false, false)
    case _ => Flags(false, false, false, false, false)
  }

  /** Control-flow instructions are those that can go elsewhere. */
  lemma {:induction false} ControlFlowIff(i: Ins)
    ensures IsControlFlow(i) <==> !AlwaysFalls(i)
  {
    var f := if i.Jcc? then FlagsFor(i.cond) else Flags(false, false, false, false, false);
    if IsControlFlow(i) {
      assert !Effect(FLAGS_ONLY, i, 0, f).1.Fall?;
    }
  }

  /** What the categories say: whether control falls through, goes on elsewhere, calls or returns, and for a
      conditional branch that it can do either. */
  lemma {:induction false} CategoryMeans<D>(sem: Sem<D>, i: Ins, next: Addr, d: D)
    ensures var ctl := Effect(sem, i, next, d).1;
      match CategoryOf(i)
      case UncondBr => ctl.Jump?
      case CallCat => ctl.CallTo?
      case RetCat => ctl.Return?
      case CondBr => (ctl.Fall? || ctl.Jump?) && IsControlFlow(i)
      case Other => ctl.Fall?
  {
  }

  /** The first block that is laid out: everything up to the first instruction that can go elsewhere, and a jump. */
  lemma {:induction false} FirstBlock(rtn: seq<Item>, edges: seq<BlockEdge>, ds: Displacements) returns (k: nat)
    requires exists j :: 0 <= j < |rtn| && !AlwaysFalls(rtn[j].code.ins)
    requires forall e :: e in edges ==> BlockFound(rtn, e)
    ensures k < |rtn| && !AlwaysFalls(rtn[k].code.ins) && forall j :: 0 <= j < k ==> AlwaysFalls(rtn[j].code.ins)
    ensures k == FirstTail(rtn)
    ensures var layout := Layout(rtn, edges, ds);
      && k + 2 <= |layout| && (forall j :: 0 <= j <= k ==> layout[j] == Kept(rtn[j]))
      && layout[k + 1] == AddedJump(rtn[k], ds.first(rtn[k]))
  {
    hide AlwaysFalls, IsControlFlow, EmitBlock, BlockFound;
    forall j | 0 <= j < |rtn| ensures IsControlFlow(rtn[j].code.ins) <==> !AlwaysFalls(rtn[j].code.ins) {
      ControlFlowIff(rtn[j].code.ins);
    }
    k := FirstTail(rtn);
    FirstPrefix(rtn, edges, ds);
    var first, layout := EmitFirst(rtn, ds), Layout(rtn, edges, ds);
    forall j | 0 <= j < |first| ensures layout[j] == first[j] {
      assert layout[..|first|] == first;
    }
  }

  lemma {:induction false} FirstPrefix(rtn: seq<Item>, edges: seq<BlockEdge>, ds: Displacements)
    requires FirstTail(rtn) < |rtn| && forall e :: e in edges ==> BlockFound(rtn, e)
    ensures EmitFirst(rtn, ds) <= Layout(rtn, edges, ds)
  {
    hide EmitBlock, EmitFirst, BlockFound;
    if edges != [] {
      FirstPrefix(rtn, edges[..|edges| - 1], ds);
    }
  }

  // ----- What the layout does -----

  function Plainly(layout: seq<Emitted>): (items: seq<Item>)
    ensures |items| == |layout| && forall k :: 0 <= k < |items| ==> items[k] == layout[k].item
  {
    seq(|layout|, k requires 0 <= k < |layout| => layout[k].item)
  }

  /** Control that arrives at `e` goes on as the original does at this address: that of the instruction, or the
      target of an added jump. */
  function Standing(e: Emitted): Addr { if e.Added? then TargetOf(e.item) else e.item.addr }

  predicate Continues(e: Emitted, a: Addr) { Standing(e) == a }

  /** An added jump stands behind the instruction whose address it has. */
  predicate FollowsTail(layout: seq<Emitted>, k: nat)
    requires k < |layout|
  {
    && layout[k].item.code.ins.Jmp? && k > 0 && !layout[k - 1].Added?
    && layout[k - 1].item.addr == layout[k].item.addr
  }

  predicate JumpsFollow(layout: seq<Emitted>) {
    forall k :: 0 <= k < |layout| && layout[k].Added? ==> FollowsTail(layout, k)
  }

  predicate JumpBehind(layout: seq<Emitted>, k: nat) { k + 1 < |layout| && layout[k + 1].Added? }

  predicate StandsAt(layout: seq<Emitted>, l: Loc, a: Addr) {
    match l
    case In(k) => k < |layout| && Continues(layout[k], a)
    case Out(b) => b == a
  }

  predicate StandAt(layout: seq<Emitted>, ls: seq<Loc>, addrs: seq<Addr>) {
    |ls| == |addrs| && forall k :: 0 <= k < |ls| ==> StandsAt(layout, ls[k], addrs[k])
  }

  /** The displacements at entry `k` are right: control goes on, for each outcome, to the original successor. */
  ghost predicate WellPlacedAt(image: Segment, layout: seq<Emitted>, k: nat)
    requires k < |layout|
  {
    match layout[k]
    case Kept(it) =>
      && Fetch(image, it.addr) == Some(it.code)
      && (IsDirect(it.code.ins) && JumpBehind(layout, k) ==> TargetOf(it) != it.addr)
      && (!NeverFalls(it.code.ins) ==> k + 1 < |layout| && Continues(layout[k + 1], NextOf(it)))
    case Inverted(it, orig) =>
      && Fetch(image, orig.addr) == Some(orig.code) && it.addr == orig.addr
      && orig.code.ins.Jcc? && it.code.ins.Jcc? && it.code.ins.cond == Reverted(orig.code.ins.cond)
      && TargetOf(it) == NextOf(orig)
      && k + 1 < |layout| && layout[k + 1].Added? && Continues(layout[k + 1], TargetOf(orig))
    case Added(_) => FollowsTail(layout, k)
  }

  ghost predicate WellPlaced(image: Segment, layout: seq<Emitted>) {
    forall k :: 0 <= k < |layout| ==> WellPlacedAt(image, layout, k)
  }

  lemma {:induction false} WellPlacedJumps(image: Segment, layout: seq<Emitted>)
    requires WellPlaced(image, layout)
    ensures JumpsFollow(layout)
  {
    hide Fetch, TargetOf, NextOf;
    forall k | 0 <= k < |layout| && layout[k].Added? ensures FollowsTail(layout, k) {
      assert WellPlacedAt(image, layout, k);
    }
  }

  /** Every added jump shares the address of the instruction before it, so no other branch is chained to it. */
  lemma {:induction false} LinkStands(layout: seq<Emitted>, k: nat, t: Addr)
    requires JumpsFollow(layout) && k < |layout|
    requires JumpBehind(layout, k) ==> layout[k].Added? || t != layout[k].item.addr
    ensures ArrivesAt(layout, Link(Plainly(layout), k, t), t)
  {
    var r := Resolve(Plainly(layout), k, t);
    if r > 0 && r - 1 != k {
      assert Plainly(layout)[r - 1].addr != t;
    }
    assert JumpBehind(layout, k) ==> FollowsTail(layout, k + 1);
  }

  /** `l` is an instruction laid out for the original one at `a`, or `a` itself; an added jump does not count. */
  predicate ArrivesAt(layout: seq<Emitted>, l: Loc, a: Addr) {
    match l
    case In(k) => k < |layout| && !layout[k].Added? && layout[k].item.addr == a
    case Out(b) => b == a
  }

  lemma {:induction false} LinkArrives(image: Segment, layout: seq<Emitted>, k: nat, t: Addr)
    requires WellPlaced(image, layout) && k < |layout|
    requires JumpBehind(layout, k) ==> layout[k].Added? || t != layout[k].item.addr
    ensures var l := Link(Plainly(layout), k, t);
      StandsAt(layout, l, t) && (l.In? ==> l.index < |layout| && !layout[l.index].Added?)
  {
    hide Fetch, TargetOf, WellPlaced, Link;
    WellPlacedJumps(image, layout);
    LinkStands(layout, k, t);
  }

  /** One step of the original, control being at a location that stands for the same address and is no added jump. */
  lemma {:induction false} PrimaryStep<D(!new)>(
      sem: Sem<D>, image: Segment, layout: seq<Emitted>, c: Config<Addr, D>, l: Config<Loc, D>)
    requires WellPlaced(image, layout) && StandAt(layout, l.locs, c.locs) && c.data == l.data
    requires c.locs != [] && (l.locs[0].In? ==> !layout[l.locs[0].index].Added?)
    ensures var c' := Step(sem, Original(image), c);
      c'.Some? ==> var l' := LinkStep(sem, image, Plainly(layout), l);
        l'.Some? && c'.value.data == l'.value.data && StandAt(layout, l'.value.locs, c'.value.locs)
  {
    hide W64, Fetch, TargetOf, WellPlaced, Link, StandsAt, Effect, IsDirect, Holds;
    var items := Plainly(layout);
    StandAtSplit(layout, l.locs, c.locs);
    match l.locs[0]
    case Out(a) =>
      assert a == c.locs[0] by { StandsOut(layout, a, c.locs[0]); }
      if Fetch(image, a).Some? {
        var code := Fetch(image, a).value;
        var ctl := Effect(sem, code.ins, W64(a + code.len), c.data).1;
        StandsOut(layout, W64(a + code.len), W64(a + code.len));
        StandsOut(layout, Goal(ctl), Goal(ctl));
        MovesStand(layout, ctl, ctl, W64(a + code.len), Out(W64(a + code.len)), Out(Goal(ctl)),
          c.locs[1..], l.locs[1..]);
      }
    case In(k) =>
      StandsIn(image, layout, k, c.locs[0]);
      if layout[k].Kept? {
        KeptControl(sem, image, layout, k, c.data);
        var it := layout[k].item;
        var ctl := Effect(sem, it.code.ins, NextOf(it), c.data).1;
        MovesStand(layout, ctl, ctl, NextOf(it), In(k + 1), Target(items, k, ctl), c.locs[1..], l.locs[1..]);
      } else {
        InvertedStep(sem, image, layout, k, c, l);
      }
  }

  lemma {:induction false} StandAtSplit(layout: seq<Emitted>, ls: seq<Loc>, addrs: seq<Addr>)
    requires StandAt(layout, ls, addrs) && addrs != []
    ensures ls != [] && StandsAt(layout, ls[0], addrs[0]) && StandAt(layout, ls[1..], addrs[1..])
  {
  }

  lemma {:induction false} StandsOut(layout: seq<Emitted>, a: Addr, b: Addr)
    ensures StandsAt(layout, Out(a), b) <==> a == b
  {
  }

  lemma {:induction false} StandsIn(image: Segment, layout: seq<Emitted>, k: nat, a: Addr)
    requires WellPlaced(image, layout) && StandsAt(layout, In(k), a)
    ensures k < |layout| && Continues(layout[k], a) && WellPlacedAt(image, layout, k)
  {
    hide WellPlacedAt;
  }

  lemma {:induction false} MovesStand(
      layout: seq<Emitted>, ctl: Control, ctl': Control, fall: Addr, lfall: Loc, goto: Loc,
      rest: seq<Addr>, lrest: seq<Loc>)
    requires StandAt(layout, lrest, rest) && ctl' == ctl
    requires ctl.Fall? || ctl.CallTo? ==> StandsAt(layout, lfall, fall)
    requires ctl.Jump? || ctl.CallTo? ==> StandsAt(layout, goto, Goal(ctl))
    ensures var r, r' := Move(ctl, fall, Goal(ctl), rest), Move(ctl', lfall, goto, lrest);
      r.Some? ==> r'.Some? && StandAt(layout, r'.value, r.value)
  {
    hide StandsAt;
  }

  /** Where a kept instruction sends control, the layout has the original successor. */
  lemma {:induction false} KeptControl<D>(sem: Sem<D>, image: Segment, layout: seq<Emitted>, k: nat, d: D)
    requires WellPlaced(image, layout) && k < |layout| && layout[k].Kept?
    ensures var it := layout[k].item; var ctl := Effect(sem, it.code.ins, NextOf(it), d).1;
      && (ctl.Fall? || ctl.CallTo? ==> StandsAt(layout, In(k + 1), NextOf(it)))
      && (ctl.Jump? || ctl.CallTo? ==> StandsAt(layout, Target(Plainly(layout), k, ctl), Goal(ctl)))
  {
    hide W64, Fetch, Link, TargetOf, WellPlaced, Holds, Continues;
    var it := layout[k].item;
    PlacedHere(image, layout, k);
    var ctl := Effect(sem, it.code.ins, NextOf(it), d).1;
    EffectFalls(sem, it.code.ins, NextOf(it), d);
    if (ctl.Jump? || ctl.CallTo?) && ctl.direct {
      DirectTarget(it);
      LinkArrives(image, layout, k, ctl.dest);
    }
  }

  lemma {:induction false} PlacedHere(image: Segment, layout: seq<Emitted>, k: nat)
    requires WellPlaced(image, layout) && k < |layout|
    ensures WellPlacedAt(image, layout, k)
  {
  }

  /** An inverted condition: what was taken falls through to the added jump, what fell through is now taken. */
  lemma {:induction false} InvertedControl<D>(sem: Sem<D>, image: Segment, layout: seq<Emitted>, k: nat, d: D)
    requires k < |layout| && layout[k].Inverted? && WellPlacedAt(image, layout, k)
    ensures var Inverted(it, orig) := layout[k];
      var (d1, ctl) := Effect(sem, orig.code.ins, NextOf(orig), d);
      var (d2, ctl') := Effect(sem, it.code.ins, NextOf(it), d);
      && d1 == d2 == d && NextOf(orig) != it.addr
      && if ctl.Fall? then ctl' == Jump(true, NextOf(orig)) else ctl == Jump(true, TargetOf(orig)) && ctl'.Fall?
  {
    hide W64, Fetch, TargetOf, Holds;
    var Inverted(it, orig) := layout[k];
    RevertedHolds(orig.code.ins.cond, sem.flags(d));
    DirectTarget(it);
    DirectTarget(orig);
    FetchNext(image, orig);
  }

  lemma {:induction false} InvertedStep<D(!new)>(
      sem: Sem<D>, image: Segment, layout: seq<Emitted>, k: nat, c: Config<Addr, D>, l: Config<Loc, D>)
    requires WellPlaced(image, layout) && k < |layout| && layout[k].Inverted?
    requires c.data == l.data && c.locs != [] && l.locs != [] && StandAt(layout, l.locs[1..], c.locs[1..])
    requires l.locs[0] == In(k) && c.locs[0] == layout[k].item.addr
    ensures var c' := Step(sem, Original(image), c);
      c'.Some? ==> var l' := LinkStep(sem, image, Plainly(layout), l);
        l'.Some? && c'.value.data == l'.value.data && StandAt(layout, l'.value.locs, c'.value.locs)
  {
    hide W64, Fetch, Link, TargetOf, WellPlaced, Holds, StandAt, StandsAt, Effect;
    PlacedHere(image, layout, k);
    var Inverted(it, orig) := layout[k];
    InvertedControl(sem, image, layout, k, c.data);
    var goto := Link(Plainly(layout), k, NextOf(orig));
    LinkArrives(image, layout, k, NextOf(orig));
    InStands(layout, k + 1, TargetOf(orig));
    StandAtPush(layout, goto, NextOf(orig), l.locs[1..], c.locs[1..]);
    StandAtPush(layout, In(k + 1), TargetOf(orig), l.locs[1..], c.locs[1..]);
  }

  lemma {:induction false} FetchNext(image: Segment, it: Item)
    requires Fetch(image, it.addr) == Some(it.code)
    ensures NextOf(it) != it.addr
  {
    hide Decode;
    SizeBounds(it.code.ins);
    W64Distinct(it.addr + it.code.len, it.addr);
  }

  lemma {:induction false} InStands(layout: seq<Emitted>, k: nat, a: Addr)
    requires k < |layout| && Continues(layout[k], a)
    ensures StandsAt(layout, In(k), a)
  {
  }

  lemma {:induction false} StandAtPush(layout: seq<Emitted>, l: Loc, a: Addr, ls: seq<Loc>, addrs: seq<Addr>)
    requires StandsAt(layout, l, a) && StandAt(layout, ls, addrs)
    ensures StandAt(layout, [l] + ls, [a] + addrs)
  {
  }

  /** An added jump takes one step to a location that stands for the same address and is no added jump. */
  lemma {:induction false} AddedStep<D(!new)>(
      sem: Sem<D>, image: Segment, layout: seq<Emitted>, c: Config<Addr, D>, l: Config<Loc, D>)
    requires WellPlaced(image, layout) && StandAt(layout, l.locs, c.locs) && c.data == l.data
    requires c.locs != [] && l.locs[0].In? && layout[l.locs[0].index].Added?
    ensures var l' := LinkStep(sem, image, Plainly(layout), l);
      && l'.Some? && c.data == l'.value.data && StandAt(layout, l'.value.locs, c.locs)
      && (l'.value.locs[0].In? ==> l'.value.locs[0].index < |layout| && !layout[l'.value.locs[0].index].Added?)
  {
    hide W64, Fetch, Link, TargetOf, WellPlaced, Holds, StandsAt, Continues;
    StandAtSplit(layout, l.locs, c.locs);
    var k := l.locs[0].index;
    StandsIn(image, layout, k, c.locs[0]);
    var it := layout[k].item;
    assert TargetOf(it) == c.locs[0] by { AddedContinues(layout[k], c.locs[0]); }
    DirectTarget(it);
    LinkArrives(image, layout, k, TargetOf(it));
    StandAtPush(layout, Link(Plainly(layout), k, TargetOf(it)), c.locs[0], l.locs[1..], c.locs[1..]);
    assert [c.locs[0]] + c.locs[1..] == c.locs;
  }

  lemma {:induction false} AddedContinues(e: Emitted, a: Addr)
    requires e.Added?
    ensures Continues(e, a) <==> TargetOf(e.item) == a
  {
  }

  predicate InPlace<D(==)>(layout: seq<Emitted>, c: Config<Addr, D>, l: Config<Loc, D>) {
    c.data == l.data && StandAt(layout, l.locs, c.locs)
  }

  predicate AtJump<D>(layout: seq<Emitted>, l: Config<Loc, D>) {
    l.locs != [] && l.locs[0].In? && l.locs[0].index < |layout| && layout[l.locs[0].index].Added?
  }

  function StepsAt<D>(layout: seq<Emitted>, l: Config<Loc, D>): nat { if AtJump(layout, l) then 2 else 1 }

  lemma {:induction false} LayoutFollowsOriginal<D(!new)>(
      sem: Sem<D>, image: Segment, layout: seq<Emitted>, c: Config<Addr, D>, l: Config<Loc, D>, n: nat) returns (m: nat)
    requires WellPlaced(image, layout) && InPlace(layout, c, l) && Run(Processor(sem, Original(image)), c, n).Some?
    ensures n <= m <= 2 * n
    ensures var l' := Run(Linked(sem, image, Plainly(layout)), l, m);
      l'.Some? && InPlace(layout, Run(Processor(sem, Original(image)), c, n).value, l'.value)
  {
    hide WellPlaced, StandAt, Step, LinkStep;
    var a, b := Processor(sem, Original(image)), Linked(sem, image, Plainly(layout));
    var rel := (c: Config<Addr, D>, l: Config<Loc, D>) => InPlace(layout, c, l);
    var count := (c: Config<Addr, D>, l: Config<Loc, D>) => StepsAt(layout, l);
    var rank := (c: Config<Addr, D>, l: Config<Loc, D>) => 0 as nat;
    forall x: Config<Addr, D>, y: Config<Loc, D> | rel(x, y) && a(x).Some?
      ensures var y' := Run(b, y, count(x, y));
        && y'.Some? && rel(a(x).value, y'.value)
        && count(x, y) <= 2 && rank(a(x).value, y'.value) <= 2
        && (count(x, y) == 0 ==> rank(a(x).value, y'.value) < rank(x, y))
    {
      LayoutFollowsStep(sem, image, layout, x, y);
    }
    m := FollowsRunCounting(a, b, rel, count, rank, c, l, n);
  }

  lemma {:induction false} LayoutFollowsStep<D(!new)>(
      sem: Sem<D>, image: Segment, layout: seq<Emitted>, c: Config<Addr, D>, l: Config<Loc, D>)
    requires WellPlaced(image, layout) && InPlace(layout, c, l) && Step(sem, Original(image), c).Some?
    ensures var k := if AtJump(layout, l) then 2 else 1;
      var l' := Run(Linked(sem, image, Plainly(layout)), l, k);
      l'.Some? && InPlace(layout, Step(sem, Original(image), c).value, l'.value)
  {
    hide WellPlaced, LinkStep, Fetch, Effect, W64, StandAt;
    StandAtSplit(layout, l.locs, c.locs);
    var step := Linked(sem, image, Plainly(layout));
    if AtJump(layout, l) {
      AddedStep(sem, image, layout, c, l);
      PrimaryStep(sem, image, layout, c, step(l).value);
      assert Run(step, l, 2) == Run(step, step(l).value, 1);
      OneStep(step, step(l).value);
    } else {
      PrimaryStep(sem, image, layout, c, l);
      OneStep(step, l);
    }
  }

  ghost predicate ReorderedAs<D>(
      layout: seq<Emitted>, table: seq<Entry>, tc: Addr, c: Config<Addr, D>, m: Config<Addr, D>)
  {
    exists ls :: c.data == m.data && StandAt(layout, ls, c.locs) && Placed(table, tc, ls, m.locs)
  }

  /**
   Reordering preserves control flow over whole runs: whatever the order of the blocks and whatever the flags turn
   out to be, the process with the TC goes through the original addresses in the original order, taking one extra
   step for each added jump it comes across.
  */
  lemma {:induction false} ReorderingPreservesRuns<D(!new)>(
      sem: Sem<D>, image: Segment, layout: seq<Emitted>, table: seq<Entry>, tc: Segment, base: Addr,
      c: Config<Addr, D>, m: Config<Addr, D>, n: nat) returns (k: nat)
    requires WellPlaced(image, layout)
    requires var items := Plainly(layout);
      Translated(items, table, tc, base) && Placeable(items, tc.base, base) && MapHeld(sem, table, base)
    requires Disjoint(image, tc) && |tc.bytes| <= TWO64
    requires ReorderedAs(layout, table, tc.base, c, m) && Run(Processor(sem, Original(image)), c, n).Some?
    ensures n <= k <= 2 * n
    ensures var m' := Run(Processor(sem, WithTc(image, tc)), m, k);
      m'.Some? && ReorderedAs(layout, table, tc.base, Run(Processor(sem, Original(image)), c, n).value, m'.value)
  {
    hide Translated, Encodable, Placeable, CellsHeld, MapHeld, Disjoint, WellPlaced, StandAt, Placed, Step, LinkStep;
    var ls :| c.data == m.data && StandAt(layout, ls, c.locs) && Placed(table, tc.base, ls, m.locs);
    var l := Config(ls, c.data);
    k := LayoutFollowsOriginal(sem, image, layout, c, l, n);
    EncodableIff(Plainly(layout), table, tc, base);
    MapHoldsCells(sem, Plainly(layout), table, tc, base);
    TcFollowsLinkedCode(sem, image, Plainly(layout), table, tc, base, l, m, k);
    var l' := Run(Linked(sem, image, Plainly(layout)), l, k).value;
    assert StandAt(layout, l'.locs, Run(Processor(sem, Original(image)), c, n).value.locs);
  }

  /** A routine entered at the new address of any of its instructions, called from code that is not translated. */
  lemma {:induction false} ReorderedRoutineRuns<D(!new)>(
      sem: Sem<D>, image: Segment, layout: seq<Emitted>, table: seq<Entry>, tc: Segment, base: Addr,
      e: nat, rets: seq<Addr>, d: D, n: nat) returns (k: nat)
    requires WellPlaced(image, layout)
    requires var items := Plainly(layout);
      Translated(items, table, tc, base) && Placeable(items, tc.base, base) && MapHeld(sem, table, base)
    requires Disjoint(image, tc) && |tc.bytes| <= TWO64 && e < |layout| && !layout[e].Added?
    requires Run(Processor(sem, Original(image)), Config([layout[e].item.addr] + rets, d), n).Some?
    ensures n <= k <= 2 * n && |table| == |layout|
    ensures var c' := Run(Processor(sem, Original(image)), Config([layout[e].item.addr] + rets, d), n).value;
      var m' := Run(Processor(sem, WithTc(image, tc)), Config([table[e].newInsAddr] + rets, d), k);
      m'.Some? && m'.value.data == c'.data && ReorderedAs(layout, table, tc.base, c', m'.value)
  {
    hide Translated, Placeable, CellsHeld, MapHeld, Disjoint, WellPlaced, Place, Step;
    LengthOf(Plainly(layout), table, tc, base);
    var c, m := Config([layout[e].item.addr] + rets, d), Config([table[e].newInsAddr] + rets, d);
    var ls := [In(e)] + seq(|rets|, i requires 0 <= i < |rets| => Out(rets[i]));
    forall i | 0 <= i < |ls| ensures OnMap(table, ls[i]) && m.locs[i] == Place(table, tc.base, ls[i]) {
      if i == 0 {
        PlaceHere(Plainly(layout), table, tc, base, e);
      } else {
        PlaceOut(table, tc.base, rets[i - 1]);
      }
    }
    assert StandAt(layout, ls, c.locs) && Placed(table, tc.base, ls, m.locs);
    k := ReorderingPreservesRuns(sem, image, layout, table, tc, base, c, m, n);
  }

  lemma {:induction false} PlaceHere(items: seq<Item>, table: seq<Entry>, tc: Segment, base: Addr, e: nat)
    requires Translated(items, table, tc, base) && e < |table|
    ensures table[e].newInsAddr == Place(table, tc.base, In(e))
  {
    PlaceOfEntry(table, tc.base, e);
  }

  // ----- When the displacements are right -----

  /** The target of a jump of `size` bytes at the address of `tail`. */
  function Reach(tail: Item, size: nat, disp: int): Addr { W64(tail.addr + size + Sext32(disp)) }

  predicate Lost(tail: Item, revert: bool) {
    tail.code.ins.Loop? && (tail.code.ins.kind == JRCXZ || revert)
  }

  /** The displacements for a block ending in `tail` resolve to the original successors. */
  predicate TailRight(tail: Item, revert: bool, ds: Displacements) {
    if tail.code.ins.Jcc? && revert then
      Reach(tail, 6, ds.inverted(tail)) == NextOf(tail) && Reach(tail, 5, ds.jump(tail, true)) == TargetOf(tail)
    else if tail.code.ins.Ret? || CategoryOf(tail.code.ins) == UncondBr then true
    else Reach(tail, 5, ds.jump(tail, false)) == NextOf(tail)
  }

  lemma {:induction false} NeverFallsIff(i: Ins)
    ensures NeverFalls(i) <==> i.Ret? || CategoryOf(i) == UncondBr
  {
  }

  predicate OwnBranch(it: Item) { IsDirect(it.code.ins) && TargetOf(it) == it.addr }

  /** The end of a block goes on right: the displacements are right, and it is not a branch to itself that is kept with
      a jump behind it, as that jump has its address. */
  predicate EndRight(tail: Item, revert: bool, ds: Displacements) {
    && TailRight(tail, revert, ds)
    && (OwnBranch(tail) ==> (tail.code.ins.Jcc? && revert) || CategoryOf(tail.code.ins) == UncondBr)
  }

  /** The end of a block is well placed exactly when it goes on right. */
  lemma {:induction false} TailWellPlacedIff(image: Segment, tail: Item, revert: bool, ds: Displacements)
    requires Fetch(image, tail.addr) == Some(tail.code) && !Lost(tail, revert)
    ensures WellPlaced(image, EmitTail(tail, revert, ds)) <==> EndRight(tail, revert, ds)
  {
    hide W64, Fetch, Sext32;
    NeverFallsIff(tail.code.ins);
    var es := EmitTail(tail, revert, ds);
    assert WellPlacedAt(image, es, 0) <==> EndRight(tail, revert, ds);
    if |es| == 2 {
      assert WellPlacedAt(image, es, 1);
    }
  }

  /** The requirements on the routine: decoded from the image, in one piece. */
  ghost predicate Reorderable(image: Segment, rtn: seq<Item>) {
    ReadFrom(image, rtn) && forall k :: 0 <= k < |rtn| - 1 ==> rtn[k + 1].addr == NextOf(rtn[k])
  }

  // Where a block begins and ends in the routine.

  function From(rtn: seq<Item>, e: BlockEdge): (k: nat)
    ensures k <= |rtn| && (k < |rtn| ==> rtn[k].addr == e.srcBBLHead)
  {
    IndexFrom(rtn, e.srcBBLHead, 0)
  }

  function To(rtn: seq<Item>, e: BlockEdge): (k: nat)
    ensures From(rtn, e) <= k <= |rtn| && (k < |rtn| ==> rtn[k].addr == e.source)
  {
    IndexFrom(rtn, e.source, From(rtn, e))
  }

  /** The last instruction of the block. */
  function TailOf(rtn: seq<Item>, e: BlockEdge): Item
    requires BlockFound(rtn, e)
  {
    rtn[IndexFrom(rtn, e.source, IndexFrom(rtn, e.srcBBLHead, 0))]
  }

  /** The block goes on right, `behind` being what is laid out after it.  If its end is lost, the instruction that is
      now its last must go on to the lost one, so that has to come next; there is nothing to go wrong if nothing of
      the block is left or nothing falls out of it. */
  predicate BlockRight(rtn: seq<Item>, e: BlockEdge, ds: Displacements, behind: seq<Emitted>)
    requires BlockFound(rtn, e)
  {
    var tail, from, to := TailOf(rtn, e), From(rtn, e), To(rtn, e);
    if Lost(tail, ShouldRevert(e)) then
      || from == to || NeverFalls(rtn[to - 1].code.ins)
      || (behind != [] && Continues(behind[0], tail.addr))
    else EndRight(tail, ShouldRevert(e), ds)
  }

  /** The end of the first block goes on right; there is always a jump behind it. */
  predicate FirstRight(rtn: seq<Item>, ds: Displacements)
    requires FirstTail(rtn) < |rtn|
  {
    var t := rtn[FirstTail(rtn)];
    (NeverFalls(t.code.ins) || Reach(t, 5, ds.first(t)) == NextOf(t)) && !OwnBranch(t)
  }

  /** Nothing after `x` matters for `x`: it ends in a jump. */
  predicate Closed(x: seq<Emitted>) {
    x == [] || x[|x| - 1].Added? || (x[|x| - 1].Kept? && NeverFalls(x[|x| - 1].item.code.ins))
  }

  lemma {:induction false} WellPlacedConcat(image: Segment, x: seq<Emitted>, y: seq<Emitted>)
    requires WellPlaced(image, x) && WellPlaced(image, y)
    ensures WellPlaced(image, x + y)
  {
    hide W64, Fetch, TargetOf, NextOf;
    var z := x + y;
    forall k | 0 <= k < |z| ensures WellPlacedAt(image, z, k) {
      if k < |x| {
        assert y != [] ==> WellPlacedAt(image, y, 0);
        assert WellPlacedAt(image, x, k) && z[k] == x[k] && (k > 0 ==> z[k - 1] == x[k - 1]);
        assert k + 1 < |z| ==> z[k + 1] == if k + 1 < |x| then x[k + 1] else y[0];
      } else {
        assert WellPlacedAt(image, y, 0) && WellPlacedAt(image, y, k - |x|);
        SuffixAt(image, x, y, k - |x|);
      }
    }
  }

  /** An instruction of `y` is as well placed behind `x` as it is in `y`. */
  lemma {:induction false} SuffixAt(image: Segment, x: seq<Emitted>, y: seq<Emitted>, i: nat)
    requires i < |y| && (i > 0 || !y[0].Added?)
    ensures WellPlacedAt(image, x + y, |x| + i) <==> WellPlacedAt(image, y, i)
  {
    hide W64, Fetch, TargetOf, NextOf;
    var z, k := x + y, |x| + i;
    assert z[k] == y[i] && (i + 1 < |y| ==> z[k + 1] == y[i + 1]) && (i > 0 ==> z[k - 1] == y[i - 1]);
  }

  lemma {:induction false} WellPlacedSuffix(image: Segment, x: seq<Emitted>, y: seq<Emitted>)
    requires WellPlaced(image, x + y) && (y == [] || !y[0].Added?)
    ensures WellPlaced(image, y)
  {
    hide WellPlacedAt;
    forall i | 0 <= i < |y| ensures WellPlacedAt(image, y, i) {
      assert WellPlacedAt(image, x + y, |x| + i);
      SuffixAt(image, x, y, i);
    }
  }

  /** Behind a jump, what comes before and what comes after can be looked at apart. */
  lemma {:induction false} WellPlacedSplit(image: Segment, x: seq<Emitted>, y: seq<Emitted>)
    requires Closed(x) && (y == [] || !y[0].Added?)
    ensures WellPlaced(image, x + y) <==> WellPlaced(image, x) && WellPlaced(image, y)
  {
    hide W64, Fetch, TargetOf, NextOf;
    if WellPlaced(image, x) && WellPlaced(image, y) {
      WellPlacedConcat(image, x, y);
    }
    if WellPlaced(image, x + y) {
      WellPlacedSuffix(image, x, y);
      var z := x + y;
      forall k | 0 <= k < |x| ensures WellPlacedAt(image, x, k) {
        assert WellPlacedAt(image, z, k) && z[k] == x[k] && (k > 0 ==> z[k - 1] == x[k - 1]);
        assert k + 1 < |x| ==> z[k + 1] == x[k + 1];
      }
    }
  }

  /** A stretch of the routine up to an ending that begins with its successor is as well placed as the ending. */
  lemma {:induction false} StretchWellPlacedIff(
      image: Segment, rtn: seq<Item>, from: nat, to: nat, ending: seq<Emitted>)
    requires Reorderable(image, rtn) && from <= to < |rtn|
    requires ending != [] && !ending[0].Added? && ending[0].item.addr == rtn[to].addr
    ensures WellPlaced(image, KeepAll(rtn[from..to]) + ending) <==> WellPlaced(image, ending)
  {
    hide W64, Fetch, TargetOf, NextOf, NeverFalls;
    var x := KeepAll(rtn[from..to]);
    var z := x + ending;
    if WellPlaced(image, z) {
      WellPlacedSuffix(image, x, ending);
    }
    if WellPlaced(image, ending) {
      forall k | 0 <= k < |z| ensures WellPlacedAt(image, z, k) {
        if k < |x| {
          assert z[k] == Kept(rtn[from + k]) && rtn[from + k + 1].addr == NextOf(rtn[from + k]);
          assert z[k + 1] == if k + 1 < |x| then Kept(rtn[from + k + 1]) else ending[0];
        } else {
          assert WellPlacedAt(image, ending, k - |x|);
          SuffixAt(image, x, ending, k - |x|);
        }
      }
    }
  }

  /** What is left of a block that lost its end. */
  lemma {:induction false} StretchBeforeIff(
      image: Segment, rtn: seq<Item>, from: nat, to: nat, behind: seq<Emitted>)
    requires Reorderable(image, rtn) && from <= to < |rtn| && (behind != [] ==> !behind[0].Added?)
    ensures WellPlaced(image, KeepAll(rtn[from..to]) + behind) <==>
      && WellPlaced(image, behind)
      && (from == to || NeverFalls(rtn[to - 1].code.ins) || (behind != [] && Continues(behind[0], rtn[to].addr)))
  {
    hide W64, Fetch, TargetOf, NextOf, NeverFalls;
    var x := KeepAll(rtn[from..to]);
    var z := x + behind;
    if WellPlaced(image, z) {
      WellPlacedSuffix(image, x, behind);
      if from < to {
        assert WellPlacedAt(image, z, |x| - 1) && z[|x| - 1] == Kept(rtn[to - 1]);
        assert behind != [] ==> z[|x|] == behind[0];
      }
    } else if WellPlaced(image, behind) {
      if from == to || NeverFalls(rtn[to - 1].code.ins) || (behind != [] && Continues(behind[0], rtn[to].addr)) {
        forall k | 0 <= k < |z| ensures WellPlacedAt(image, z, k) {
          if k < |x| {
            assert z[k] == Kept(rtn[from + k]) && rtn[from + k + 1].addr == NextOf(rtn[from + k]);
            assert k + 1 < |x| ==> z[k + 1] == Kept(rtn[from + k + 1]);
            assert k + 1 == |x| && behind != [] ==> z[k + 1] == behind[0];
          } else {
            assert WellPlacedAt(image, behind, k - |x|);
            SuffixAt(image, x, behind, k - |x|);
          }
        }
      }
    }
  }

  lemma {:induction false} BlockWellPlacedIff(
      image: Segment, rtn: seq<Item>, e: BlockEdge, ds: Displacements, behind: seq<Emitted>)
    requires Reorderable(image, rtn) && BlockFound(rtn, e) && (behind != [] ==> !behind[0].Added?)
    ensures WellPlaced(image, EmitBlock(rtn, e, ds) + behind) <==>
      WellPlaced(image, behind) && BlockRight(rtn, e, ds, behind)
    ensures EmitBlock(rtn, e, ds) != [] ==> !EmitBlock(rtn, e, ds)[0].Added?
  {
    hide W64, Fetch, TargetOf, NextOf, NeverFalls, WellPlaced, EndRight, IndexFrom, Standing;
    var from, to := From(rtn, e), To(rtn, e);
    var tail, revert := rtn[to], ShouldRevert(e);
    var ending := EmitTail(tail, revert, ds);
    if Lost(tail, revert) {
      assert KeepAll(rtn[from..to]) + [] == KeepAll(rtn[from..to]);
      StretchBeforeIff(image, rtn, from, to, behind);
    } else {
      NeverFallsIff(tail.code.ins);
      assert Fetch(image, tail.addr) == Some(tail.code);
      TailWellPlacedIff(image, tail, revert, ds);
      StretchWellPlacedIff(image, rtn, from, to, ending);
      WellPlacedSplit(image, KeepAll(rtn[from..to]) + ending, behind);
    }
  }

  lemma {:induction false} FirstWellPlacedIff(image: Segment, rtn: seq<Item>, ds: Displacements)
    requires Reorderable(image, rtn) && FirstTail(rtn) < |rtn|
    ensures var block := EmitFirst(rtn, ds);
      Closed(block) && block != [] && !block[0].Added? && (WellPlaced(image, block) <==> FirstRight(rtn, ds))
  {
    hide W64, Fetch, Sext32;
    var t := FirstTail(rtn);
    var ending := [Kept(rtn[t]), AddedJump(rtn[t], ds.first(rtn[t]))];
    assert WellPlacedAt(image, ending, 0) <==> FirstRight(rtn, ds);
    assert WellPlacedAt(image, ending, 1);
    StretchWellPlacedIff(image, rtn, 0, t, ending);
    assert rtn[..t] == rtn[0..t];
  }

  predicate Selected(rtn: seq<Item>, edges: seq<BlockEdge>) {
    FirstTail(rtn) < |rtn| && forall e :: e in edges ==> BlockFound(rtn, e)
  }

  /** What the blocks of `edges` are laid out as. */
  function BlocksOf(rtn: seq<Item>, edges: seq<BlockEdge>, ds: Displacements): seq<Emitted>
    requires Selected(rtn, edges)
  {
    if edges == [] then []
    else
      (if edges[0].srcBBLHead == rtn[0].addr then [] else EmitBlock(rtn, edges[0], ds)) + BlocksOf(rtn, edges[1..], ds)
  }

  lemma {:induction false} BlocksAppend(rtn: seq<Item>, edges: seq<BlockEdge>, e: BlockEdge, ds: Displacements)
    requires Selected(rtn, edges + [e])
    ensures Selected(rtn, edges)
    ensures BlocksOf(rtn, edges + [e], ds) ==
      BlocksOf(rtn, edges, ds) + if e.srcBBLHead == rtn[0].addr then [] else EmitBlock(rtn, e, ds)
  {
    hide EmitBlock, BlockFound;
    assert forall f :: f in edges ==> f in edges + [e];
    if edges == [] {
      assert [e][1..] == [] && (edges + [e]) == [e];
    } else {
      assert (edges + [e])[1..] == edges[1..] + [e];
      assert forall f :: f in edges[1..] + [e] ==> f in edges + [e];
      BlocksAppend(rtn, edges[1..], e, ds);
    }
  }

  lemma {:induction false} LayoutBlocks(rtn: seq<Item>, edges: seq<BlockEdge>, ds: Displacements)
    requires Selected(rtn, edges)
    ensures Layout(rtn, edges, ds) == EmitFirst(rtn, ds) + BlocksOf(rtn, edges, ds)
  {
    hide EmitBlock, EmitFirst, BlockFound;
    if edges != [] {
      var front, e := edges[..|edges| - 1], edges[|edges| - 1];
      assert front + [e] == edges;
      LayoutBlocks(rtn, front, ds);
      BlocksAppend(rtn, front, e, ds);
    }
  }

  /** Every block goes on right, given what comes behind it. */
  predicate AllRight(rtn: seq<Item>, edges: seq<BlockEdge>, ds: Displacements)
    requires Selected(rtn, edges)
  {
    edges != [] ==>
      && (edges[0].srcBBLHead == rtn[0].addr || BlockRight(rtn, edges[0], ds, BlocksOf(rtn, edges[1..], ds)))
      && AllRight(rtn, edges[1..], ds)
  }

  lemma {:induction false} BlocksWellPlacedIff(
      image: Segment, rtn: seq<Item>, edges: seq<BlockEdge>, ds: Displacements)
    requires Reorderable(image, rtn) && Selected(rtn, edges)
    ensures var b := BlocksOf(rtn, edges, ds);
      (b != [] ==> !b[0].Added?) && (WellPlaced(image, b) <==> AllRight(rtn, edges, ds))
  {
    hide W64, Fetch, TargetOf, WellPlacedAt, BlockRight, Reorderable, EmitBlock, BlockFound;
    if edges != [] {
      BlocksWellPlacedIff(image, rtn, edges[1..], ds);
      if edges[0].srcBBLHead != rtn[0].addr {
        BlockWellPlacedIff(image, rtn, edges[0], ds, BlocksOf(rtn, edges[1..], ds));
      } else {
        assert BlocksOf(rtn, edges, ds) == BlocksOf(rtn, edges[1..], ds);
      }
    }
  }

  /** Any selection of the blocks, in any order, behind the first one: the whole layout is well placed if and only
      if every block goes on right: every displacement resolves to the intended successor, no branch to itself is kept
      with a jump behind it, and no end is lost that is missed. */
  lemma {:induction false} LayoutWellPlacedIff(image: Segment, rtn: seq<Item>, edges: seq<BlockEdge>, ds: Displacements)
    requires Reorderable(image, rtn) && Selected(rtn, edges)
    ensures WellPlaced(image, Layout(rtn, edges, ds)) <==> FirstRight(rtn, ds) && AllRight(rtn, edges, ds)
  {
    hide W64, Fetch, TargetOf, WellPlaced, FirstRight, AllRight, Reorderable, BlocksOf, EmitFirst, Layout, BlockFound;
    LayoutBlocks(rtn, edges, ds);
    FirstWellPlacedIff(image, rtn, ds);
    BlocksWellPlacedIff(image, rtn, edges, ds);
    WellPlacedSplit(image, EmitFirst(rtn, ds), BlocksOf(rtn, edges, ds));
  }

  const LOST_RTN := [
    Item(0x1000, Decoded(Ret, 1)), Item(0x1001, Decoded(Plain([]), 1)),
    Item(0x1002, Decoded(Loop(JRCXZ, -4), 2)), Item(0x1004, Decoded(Ret, 1))]
  const LOST_EDGES := [BlockEdge(0x1001, 0x1002, 0, 9), BlockEdge(0x1004, 0x1004, 0, 0)]

  lemma {:induction false} LostIndexes()
    ensures FirstTail(LOST_RTN) == 0 && Selected(LOST_RTN, LOST_EDGES)
    ensures From(LOST_RTN, LOST_EDGES[0]) == 1 && To(LOST_RTN, LOST_EDGES[0]) == 2
    ensures From(LOST_RTN, LOST_EDGES[1]) == 3 && To(LOST_RTN, LOST_EDGES[1]) == 3
  {
    assert IndexFrom(LOST_RTN, 0x1001, 0) == 1 && IndexFrom(LOST_RTN, 0x1002, 1) == 2;
    assert IndexFrom(LOST_RTN, 0x1004, 0) == 3 && IndexFrom(LOST_RTN, 0x1004, 3) == 3;
  }

  /** A block that ends in a JRCXZ and falls through to the next one, which is laid out right behind it: the JRCXZ is
      lost, and nothing makes up for it. */
  lemma {:induction false} LostTail(ds: Displacements)
    ensures forall k :: 0 <= k < |LOST_RTN| - 1 ==> LOST_RTN[k + 1].addr == NextOf(LOST_RTN[k])
    ensures Selected(LOST_RTN, LOST_EDGES) && !AllRight(LOST_RTN, LOST_EDGES, ds)
  {
    hide IndexFrom;
    LostIndexes();
    var f := LOST_EDGES[1];
    assert LOST_EDGES[1..] == [f] && [f][1..] == [];
    assert EmitBlock(LOST_RTN, f, ds) == [Kept(LOST_RTN[3])];
    assert BlocksOf(LOST_RTN, [f], ds) == [Kept(LOST_RTN[3])];
  }

  // ----- What right displacements mean -----

  /** Where control is after the added jump at `k`, or at `k` itself if there is none. */
  function Through(layout: seq<Emitted>, k: nat): Loc {
    if k < |layout| && layout[k].Added? then Link(Plainly(layout), k, TargetOf(layout[k].item)) else In(k)
  }

  /** With data `d`, the block end laid out at `k` goes on as the original one, `tail`, does: to the same address, and
      after a call, once control has returned, to the instruction behind it. */
  predicate Visits<D>(sem: Sem<D>, layout: seq<Emitted>, k: nat, tail: Item, d: D)
    requires k < |layout|
  {
    var it := layout[k].item;
    var ctl := Effect(sem, tail.code.ins, NextOf(tail), d).1;
    var ctl' := Effect(sem, it.code.ins, NextOf(it), d).1;
    var goes := if ctl'.Fall? then Through(layout, k + 1) else Target(Plainly(layout), k, ctl');
    && (ctl.CallTo? <==> ctl'.CallTo?) && (ctl.Return? <==> ctl'.Return?)
    && match ctl
       case Fall => ArrivesAt(layout, goes, NextOf(tail))
       case Jump(_, t) => ArrivesAt(layout, goes, t)
       case CallTo(_, t) => ArrivesAt(layout, goes, t) && ArrivesAt(layout, Through(layout, k + 1), NextOf(tail))
       case Return => true
  }

  /** The data decide the outcome of a conditional branch both ways. */
  predicate Decide<D>(sem: Sem<D>, tail: Item, taken: D, not: D) {
    CategoryOf(tail.code.ins) == CondBr ==>
      && Effect(sem, tail.code.ins, NextOf(tail), taken).1.Jump?
      && Effect(sem, tail.code.ins, NextOf(tail), not).1.Fall?
  }

  lemma {:induction false} ArrivesOnly(layout: seq<Emitted>, k: nat, t: Addr, a: Addr)
    requires JumpsFollow(layout) && k < |layout|
    requires JumpBehind(layout, k) ==> layout[k].Added? || t != layout[k].item.addr
    ensures ArrivesAt(layout, Link(Plainly(layout), k, t), a) <==> t == a
  {
    LinkStands(layout, k, t);
  }

  lemma {:induction false} ThroughOnly(layout: seq<Emitted>, k: nat, a: Addr)
    requires JumpsFollow(layout) && k < |layout| && layout[k].Added?
    ensures ArrivesAt(layout, Through(layout, k), a) <==> TargetOf(layout[k].item) == a
  {
    hide TargetOf;
    ArrivesOnly(layout, k, TargetOf(layout[k].item), a);
  }

  /** The branch at `k` to its own address has another copy in front of it to go to, or no added jump behind it. */
  predicate SelfSafe(layout: seq<Emitted>, k: nat)
    requires k < |layout|
  {
    JumpBehind(layout, k) ==> exists j :: 0 <= j < k && layout[j].item.addr == layout[k].item.addr
  }

  /** A branch to itself goes round if and only if it is safe in that sense: if not, it is chained to the jump behind it
      and leaves the loop. */
  lemma {:induction false} SelfBranchIff(layout: seq<Emitted>, k: nat)
    requires JumpsFollow(layout) && k < |layout| && !layout[k].Added?
    ensures var a := layout[k].item.addr;
      ArrivesAt(layout, Link(Plainly(layout), k, a), a) <==> SelfSafe(layout, k)
    ensures !SelfSafe(layout, k) ==> Link(Plainly(layout), k, layout[k].item.addr) == In(k + 1)
  {
    var items, a := Plainly(layout), layout[k].item.addr;
    var r := Resolve(items, k, a);
    if JumpBehind(layout, k) {
      assert FollowsTail(layout, k + 1) && items[k + 1].addr == a;
    }
    if r > 0 && layout[r].Added? {
      assert FollowsTail(layout, r) && items[r - 1].addr == a;
    }
    if j :| 0 <= j < k && layout[j].item.addr == a {
      assert items[j].addr == a;
    }
  }

  /** An end that is kept, of whatever kind, visits the original successors for all data if and only if the jump
      behind it, where there can be one, leads to its own successor, and a branch to itself is safe. */
  lemma {:induction false} KeptVisitsIff<D(!new)>(
      sem: Sem<D>, layout: seq<Emitted>, k: nat, tail: Item, taken: D, not: D)
    requires JumpsFollow(layout) && k < |layout| && layout[k] == Kept(tail)
    requires NeverFalls(tail.code.ins) || JumpBehind(layout, k)
    requires Decide(sem, tail, taken, not)
    ensures KeptRight(layout, k) <==> forall d: D :: Visits(sem, layout, k, tail, d)
  {
    hide W64, TargetOf, Holds, ArrivesAt, Link, JumpsFollow, Visits, SelfSafe;
    forall d: D ensures KeptRight(layout, k) ==> Visits(sem, layout, k, tail, d) {
      KeptVisits(sem, layout, k, tail, d);
    }
    KeptVisits(sem, layout, k, tail, not);
    KeptVisits(sem, layout, k, tail, taken);
  }

  predicate KeptRight(layout: seq<Emitted>, k: nat)
    requires k < |layout| && (NeverFalls(layout[k].item.code.ins) || JumpBehind(layout, k))
  {
    var tail := layout[k].item;
    && (NeverFalls(tail.code.ins) || TargetOf(layout[k + 1].item) == NextOf(tail))
    && (OwnBranch(tail) ==> SelfSafe(layout, k))
  }

  lemma {:induction false} KeptVisits<D>(sem: Sem<D>, layout: seq<Emitted>, k: nat, tail: Item, d: D)
    requires JumpsFollow(layout) && k < |layout| && layout[k] == Kept(tail)
    requires NeverFalls(tail.code.ins) || JumpBehind(layout, k)
    ensures var ctl := Effect(sem, tail.code.ins, NextOf(tail), d).1;
      Visits(sem, layout, k, tail, d) <==>
      && (ctl.Fall? || ctl.CallTo? ==> TargetOf(layout[k + 1].item) == NextOf(tail))
      && ((ctl.Jump? || ctl.CallTo?) && OwnBranch(tail) ==> SelfSafe(layout, k))
    ensures var ctl := Effect(sem, tail.code.ins, NextOf(tail), d).1;
      && (NeverFalls(tail.code.ins) || CategoryOf(tail.code.ins) == CondBr || ctl.Fall? || ctl.CallTo?)
      && (OwnBranch(tail) ==> CategoryOf(tail.code.ins) == CondBr || ctl.Jump? || ctl.CallTo?)
  {
    hide W64, TargetOf, Holds, Link, JumpsFollow, SelfSafe;
    var ctl := Effect(sem, tail.code.ins, NextOf(tail), d).1;
    EffectFalls(sem, tail.code.ins, NextOf(tail), d);
    if (ctl.Jump? || ctl.CallTo?) && ctl.direct {
      DirectTarget(tail);
      if OwnBranch(tail) {
        SelfBranchIff(layout, k);
      } else {
        ArrivesOnly(layout, k, ctl.dest, ctl.dest);
      }
    }
    if JumpBehind(layout, k) {
      ThroughOnly(layout, k + 1, NextOf(tail));
    }
  }

  /** An inverted end visits both original successors if and only if both displacements lead to them. */
  lemma {:induction false} InvertedVisitsIff<D(!new)>(
      sem: Sem<D>, layout: seq<Emitted>, k: nat, tail: Item, disp: int, taken: D, not: D)
    requires JumpsFollow(layout) && k < |layout| && tail.code.ins.Jcc? && layout[k] == InvertedBranch(tail, disp)
    requires JumpBehind(layout, k) && NextOf(tail) != tail.addr
    requires Decide(sem, tail, taken, not)
    ensures TargetOf(layout[k].item) == NextOf(tail) && TargetOf(layout[k + 1].item) == TargetOf(tail) <==>
      forall d: D :: Visits(sem, layout, k, tail, d)
  {
    hide W64, TargetOf, Holds, Link, JumpsFollow, Visits, Sext32;
    forall d: D ensures Visits(sem, layout, k, tail, d) <==> if Holds(tail.code.ins.cond, sem.flags(d))
      then TargetOf(layout[k + 1].item) == TargetOf(tail) else TargetOf(layout[k].item) == NextOf(tail)
    {
      InvertedVisits(sem, layout, k, tail, disp, d);
    }
    assert Holds(tail.code.ins.cond, sem.flags(taken)) && !Holds(tail.code.ins.cond, sem.flags(not));
    assert Visits(sem, layout, k, tail, taken) <==> TargetOf(layout[k + 1].item) == TargetOf(tail);
    assert Visits(sem, layout, k, tail, not) <==> TargetOf(layout[k].item) == NextOf(tail);
  }

  lemma {:induction false} InvertedVisits<D>(
      sem: Sem<D>, layout: seq<Emitted>, k: nat, tail: Item, disp: int, d: D)
    requires JumpsFollow(layout) && k < |layout| && tail.code.ins.Jcc? && layout[k] == InvertedBranch(tail, disp)
    requires JumpBehind(layout, k) && NextOf(tail) != tail.addr
    ensures Visits(sem, layout, k, tail, d) <==> if Holds(tail.code.ins.cond, sem.flags(d))
      then TargetOf(layout[k + 1].item) == TargetOf(tail) else TargetOf(layout[k].item) == NextOf(tail)
  {
    hide W64, TargetOf, Holds, Link, JumpsFollow, Sext32, ArrivesAt;
    var it := layout[k].item;
    RevertedHolds(tail.code.ins.cond, sem.flags(d));
    DirectTarget(tail);
    DirectTarget(it);
    if Holds(tail.code.ins.cond, sem.flags(d)) {
      ThroughOnly(layout, k + 1, TargetOf(tail));
    } else if TargetOf(it) != tail.addr {
      ArrivesOnly(layout, k, TargetOf(it), NextOf(tail));
    } else {
      OwnTarget(layout, k, NextOf(tail));
    }
  }

  /** A branch chained to an entry with its own address does not arrive anywhere else. */
  lemma {:induction false} OwnTarget(layout: seq<Emitted>, k: nat, a: Addr)
    requires k < |layout| && layout[k].item.addr != a
    ensures !ArrivesAt(layout, Link(Plainly(layout), k, layout[k].item.addr), a)
  {
  }

  /** A block end, of whatever kind, visits the original successors for all data if and only if its displacements
      are right and a branch to itself that is kept is safe. */
  lemma {:induction false} TailVisitsIff<D(!new)>(
      sem: Sem<D>, layout: seq<Emitted>, k: nat, tail: Item, revert: bool, ds: Displacements, taken: D, not: D)
    requires var es := EmitTail(tail, revert, ds);
      k + |es| <= |layout| && layout[k..k + |es|] == es && JumpsFollow(layout)
    requires ValidItem(tail) && !Lost(tail, revert) && Decide(sem, tail, taken, not)
    ensures TailRight(tail, revert, ds) && (OwnBranch(tail) && layout[k].Kept? ==> SelfSafe(layout, k)) <==>
      forall d: D :: Visits(sem, layout, k, tail, d)
  {
    hide W64, TargetOf, Holds, JumpsFollow, Visits, Sext32, Decide, CategoryOf, SelfSafe;
    var es := EmitTail(tail, revert, ds);
    NeverFallsIff(tail.code.ins);
    NextDistinct(tail);
    assert layout[k] == layout[k..k + |es|][0] == es[0];
    if |es| == 2 {
      assert layout[k + 1] == layout[k..k + |es|][1] == es[1];
      AddedReach(tail, es[1].item);
    }
    if tail.code.ins.Jcc? && revert {
      InvertedReach(tail, ds.inverted(tail));
      InvertedVisitsIff(sem, layout, k, tail, ds.inverted(tail), taken, not);
    } else {
      KeptVisitsIff(sem, layout, k, tail, taken, not);
    }
  }

  lemma {:induction false} NextDistinct(it: Item)
    requires ValidItem(it)
    ensures NextOf(it) != it.addr
  {
    SizeBounds(it.code.ins);
    W64Distinct(it.addr + it.code.len, it.addr);
  }

  lemma {:induction false} AddedReach(tail: Item, jump: Item)
    requires exists disp :: AddedJump(tail, disp).item == jump
    ensures forall disp :: AddedJump(tail, disp).item == jump ==> TargetOf(jump) == Reach(tail, 5, disp)
  {
  }

  lemma {:induction false} InvertedReach(tail: Item, disp: int)
    requires tail.code.ins.Jcc?
    ensures TargetOf(InvertedBranch(tail, disp).item) == Reach(tail, 6, disp)
  {
  }

  /** The same for the end of the first block. */
  lemma {:induction false} FirstVisitsIff<D(!new)>(
      sem: Sem<D>, layout: seq<Emitted>, rtn: seq<Item>, ds: Displacements, taken: D, not: D)
    requires FirstTail(rtn) < |rtn| && EmitFirst(rtn, ds) <= layout && JumpsFollow(layout)
    requires Decide(sem, rtn[FirstTail(rtn)], taken, not)
    ensures var k := FirstTail(rtn); var t := rtn[k];
      && k < |layout|
      && ((NeverFalls(t.code.ins) || Reach(t, 5, ds.first(t)) == NextOf(t)) && (OwnBranch(t) ==> SelfSafe(layout, k))
          <==> forall d: D :: Visits(sem, layout, k, t, d))
  {
    hide W64, TargetOf, Holds, JumpsFollow, Visits, Sext32, Decide, SelfSafe;
    var k, es := FirstTail(rtn), EmitFirst(rtn, ds);
    assert es[k] == Kept(rtn[k]) && es[k + 1] == AddedJump(rtn[k], ds.first(rtn[k]));
    assert layout[..|es|] == es && layout[k] == layout[..|es|][k] && layout[k + 1] == layout[..|es|][k + 1];
    AddedReach(rtn[k], layout[k + 1].item);
    KeptVisitsIff(sem, layout, k, rtn[k], taken, not);
  }

  /** A LOOP to itself that is kept with a jump behind it goes round at most once. */
  lemma {:induction false} KeptLoopLeaves(disp: int)
    ensures var tail := Item(0x1000, Decoded(Loop(LOOP, -2), 2));
      var layout := [Kept(tail), AddedJump(tail, disp)];
      JumpsFollow(layout) && OwnBranch(tail) && Link(Plainly(layout), 0, TargetOf(tail)) == In(1)
  {
    var tail := Item(0x1000, Decoded(Loop(LOOP, -2), 2));
    SelfBranchIff([Kept(tail), AddedJump(tail, disp)], 0);
  }

  /** In every layout the added jumps stand where the two lemmas above want them. */
  lemma {:induction false} LayoutJumps(rtn: seq<Item>, edges: seq<BlockEdge>, ds: Displacements)
    requires FirstTail(rtn) < |rtn| && forall e :: e in edges ==> BlockFound(rtn, e)
    ensures JumpsFollow(Layout(rtn, edges, ds))
  {
    hide IndexFrom, BlockFound;
    if edges != [] {
      var front, e := edges[..|edges| - 1], edges[|edges| - 1];
      LayoutJumps(rtn, front, ds);
      assert e in edges;
      if e.srcBBLHead != rtn[0].addr {
        BlockJumps(rtn, e, ds);
        JumpsConcat(Layout(rtn, front, ds), EmitBlock(rtn, e, ds));
      }
    }
  }

  /** Where the end of block `i` is in the layout. */
  function EndAt(rtn: seq<Item>, edges: seq<BlockEdge>, i: nat, ds: Displacements): nat
    requires Selected(rtn, edges) && i < |edges|
  {
    |Layout(rtn, edges[..i], ds)| + To(rtn, edges[i]) - From(rtn, edges[i])
  }

  lemma {:induction false} LayoutPrefix(rtn: seq<Item>, edges: seq<BlockEdge>, i: nat, ds: Displacements)
    requires Selected(rtn, edges) && i <= |edges|
    ensures Layout(rtn, edges[..i], ds) <= Layout(rtn, edges, ds)
    decreases |edges|
  {
    hide EmitBlock, EmitFirst, BlockFound;
    if i < |edges| {
      var front := edges[..|edges| - 1];
      assert front[..i] == edges[..i];
      LayoutPrefix(rtn, front, i, ds);
    } else {
      assert edges[..i] == edges;
    }
  }

  /** In the layout of a routine: every block end that is laid out visits the original successors for all data if and
      only if its displacements are right and a branch to itself that is kept is safe. */
  lemma {:induction false} LayoutVisitsIff<D(!new)>(
      sem: Sem<D>, rtn: seq<Item>, edges: seq<BlockEdge>, i: nat, ds: Displacements, taken: D, not: D)
    requires Selected(rtn, edges) && i < |edges| && edges[i].srcBBLHead != rtn[0].addr
    requires var tail := TailOf(rtn, edges[i]);
      ValidItem(tail) && !Lost(tail, ShouldRevert(edges[i])) && Decide(sem, tail, taken, not)
    ensures var layout, k := Layout(rtn, edges, ds), EndAt(rtn, edges, i, ds);
      var tail, revert := TailOf(rtn, edges[i]), ShouldRevert(edges[i]);
      && k < |layout|
      && (TailRight(tail, revert, ds) && (OwnBranch(tail) && layout[k].Kept? ==> SelfSafe(layout, k)) <==>
          forall d: D :: Visits(sem, layout, k, tail, d))
  {
    hide TailRight, OwnBranch, SelfSafe, Visits, Decide, IndexFrom, Layout, JumpsFollow, EmitTail;
    var layout, k := Layout(rtn, edges, ds), EndAt(rtn, edges, i, ds);
    var tail, revert := TailOf(rtn, edges[i]), ShouldRevert(edges[i]);
    var es := EmitTail(tail, revert, ds);
    LayoutJumps(rtn, edges, ds);
    EndPlace(rtn, edges, i, ds);
    EndEmitted(tail, revert, ds);
    TailVisitsIff(sem, layout, k, tail, revert, ds, taken, not);
  }

  lemma {:induction false} EndEmitted(tail: Item, revert: bool, ds: Displacements)
    requires !Lost(tail, revert)
    ensures EmitTail(tail, revert, ds) != []
  {
  }

  lemma {:induction false} EndPlace(rtn: seq<Item>, edges: seq<BlockEdge>, i: nat, ds: Displacements)
    requires Selected(rtn, edges) && i < |edges| && edges[i].srcBBLHead != rtn[0].addr
    ensures var layout, k := Layout(rtn, edges, ds), EndAt(rtn, edges, i, ds);
      var es := EmitTail(TailOf(rtn, edges[i]), ShouldRevert(edges[i]), ds);
      k + |es| <= |layout| && layout[k..k + |es|] == es
  {
    hide IndexFrom, EmitTail, Layout;
    var from, to := From(rtn, edges[i]), To(rtn, edges[i]);
    var es := EmitTail(TailOf(rtn, edges[i]), ShouldRevert(edges[i]), ds);
    LayoutNext(rtn, edges, i, ds);
    LayoutPrefix(rtn, edges, i + 1, ds);
    SliceBehind(Layout(rtn, edges[..i], ds), KeepAll(rtn[from..to]), es, Layout(rtn, edges, ds));
  }

  lemma {:induction false} LayoutNext(rtn: seq<Item>, edges: seq<BlockEdge>, i: nat, ds: Displacements)
    requires Selected(rtn, edges) && i < |edges| && edges[i].srcBBLHead != rtn[0].addr
    ensures Layout(rtn, edges[..i + 1], ds) == Layout(rtn, edges[..i], ds) + EmitBlock(rtn, edges[i], ds)
  {
    hide EmitBlock, EmitFirst;
    assert edges[..i + 1][..i] == edges[..i] && edges[i] in edges;
  }

  /** The whole of a selected block is laid out, from its head to its end, which may be inverted and is only missing if
      it gets lost; and at most one added jump goes with it. */
  lemma {:induction false} BlockLaidOut(rtn: seq<Item>, edges: seq<BlockEdge>, i: nat, ds: Displacements)
    requires Selected(rtn, edges) && i < |edges| && edges[i].srcBBLHead != rtn[0].addr
    ensures var layout, e := Layout(rtn, edges, ds), edges[i];
      var from, to, p := From(rtn, e), To(rtn, e), |Layout(rtn, edges[..i], ds)|;
      var after := |Layout(rtn, edges[..i + 1], ds)|;
      && from <= to < |rtn| && rtn[from].addr == e.srcBBLHead && rtn[to].addr == e.source
      && p + (to - from) <= after <= |layout|
      && layout[p..p + (to - from)] == KeepAll(rtn[from..to])
      && var tail := rtn[to].code.ins;
         (if tail.Loop? && (tail.kind == JRCXZ || e.takenCount > e.notTakenCount) then after == p + (to - from)
          else
            var k := p + (to - from);
            && k < after <= k + 2 && !layout[k].Added? && layout[k].item.addr == e.source
            && (k + 1 < after ==> layout[k + 1].Added?))
  {
    hide IndexFrom, Layout, EmitTail, ShouldRevert;
    var e := edges[i];
    assert BlockFound(rtn, e) by { assert e in edges; }
    var from, to, before := From(rtn, e), To(rtn, e), Layout(rtn, edges[..i], ds);
    var es := EmitTail(rtn[to], ShouldRevert(e), ds);
    LayoutNext(rtn, edges, i, ds);
    LayoutPrefix(rtn, edges, i + 1, ds);
    var kept, layout := KeepAll(rtn[from..to]), Layout(rtn, edges, ds);
    PrefixOf(before, kept, es, layout);
    SliceBehind(before, [], kept, layout);
    SliceBehind(before, kept, es, layout);
    TailIs(rtn[to], e, ds);
    assert es != [] ==> layout[|before| + |kept|] == es[0];
    assert |es| > 1 ==> layout[|before| + |kept| + 1] == es[1];
  }

  lemma {:induction false} PrefixOf<T>(x: seq<T>, y: seq<T>, z: seq<T>, all: seq<T>)
    requires x + (y + z) <= all
    ensures x + ([] + y) <= all
  {
    assert all[..|x| + |y|] == (x + (y + z))[..|x| + |y|] == x + y;
  }

  lemma {:induction false} TailIs(tail: Item, e: BlockEdge, ds: Displacements)
    ensures var es := EmitTail(tail, ShouldRevert(e), ds);
      if tail.code.ins.Loop? && (tail.code.ins.kind == JRCXZ || e.takenCount > e.notTakenCount) then es == []
      else
        && 1 <= |es| <= 2 && !es[0].Added? && es[0].item.addr == tail.addr && (|es| > 1 ==> es[1].Added?)
  {
  }

  /** The head block is not laid out a second time. */
  lemma {:induction false} HeadBlockOnce(rtn: seq<Item>, edges: seq<BlockEdge>, i: nat, ds: Displacements)
    requires Selected(rtn, edges) && i < |edges| && edges[i].srcBBLHead == rtn[0].addr
    ensures Layout(rtn, edges[..i + 1], ds) == Layout(rtn, edges[..i], ds)
  {
    assert edges[..i + 1][..i] == edges[..i] && edges[i] in edges;
  }

  /** Branches to the head of a block that is laid out stay in the layout. */
  lemma {:induction false} HeadLinked(rtn: seq<Item>, edges: seq<BlockEdge>, i: nat, ds: Displacements, k: nat)
    requires Selected(rtn, edges) && i < |edges| && edges[i].srcBBLHead != rtn[0].addr
    requires From(rtn, edges[i]) < To(rtn, edges[i]) && k != |Layout(rtn, edges[..i], ds)|
    ensures Link(Plainly(Layout(rtn, edges, ds)), k, edges[i].srcBBLHead).In?
  {
    hide Layout, IndexFrom;
    BlockLaidOut(rtn, edges, i, ds);
    var p := |Layout(rtn, edges[..i], ds)|;
    var layout, from, to := Layout(rtn, edges, ds), From(rtn, edges[i]), To(rtn, edges[i]);
    var block := rtn[from..to];
    assert layout[p] == layout[p..p + (to - from)][0];
    assert KeepAll(block)[0] == Kept(block[0]) && block[0] == rtn[from];
    assert Plainly(layout)[p].addr == edges[i].srcBBLHead;
  }

  lemma {:induction false} SliceBehind<T>(x: seq<T>, y: seq<T>, z: seq<T>, all: seq<T>)
    requires x + (y + z) <= all
    ensures |x| + |y| + |z| <= |all| && all[|x| + |y|..|x| + |y| + |z|] == z
  {
    var n, slice := |x| + |y|, all[|x| + |y|..|x| + |y| + |z|];
    forall i | 0 <= i < |z| ensures slice[i] == z[i] {
      assert (x + (y + z))[n + i] == (y + z)[|y| + i] == z[i];
    }
  }

  lemma {:induction false} BlockJumps(rtn: seq<Item>, e: BlockEdge, ds: Displacements)
    requires BlockFound(rtn, e)
    ensures JumpsFollow(EmitBlock(rtn, e, ds))
  {
  }

  lemma {:induction false} JumpsConcat(x: seq<Emitted>, y: seq<Emitted>)
    requires JumpsFollow(x) && JumpsFollow(y)
    ensures JumpsFollow(x + y)
  {
    var z := x + y;
    forall k | 0 <= k < |z| && z[k].Added? ensures FollowsTail(z, k) {
      if k < |x| {
        assert FollowsTail(x, k);
      } else {
        assert FollowsTail(y, k - |x|) && z[k - 1] == y[k - |x| - 1];
      }
    }
  }

  /** How often `c` holds in the states in which the end of a block was reached. */
  function HeldIn<D>(sem: Sem<D>, c: Cond, visits: seq<D>): nat {
    if visits == [] then 0
    else HeldIn(sem, c, visits[..|visits| - 1]) + if Holds(c, sem.flags(visits[|visits| - 1])) then 1 else 0
  }

  lemma {:induction false} HeldOrReverted<D>(sem: Sem<D>, c: Cond, visits: seq<D>)
    ensures HeldIn(sem, c, visits) + HeldIn(sem, Reverted(c), visits) == |visits|
  {
    if visits != [] {
      RevertedHolds(c, sem.flags(visits[|visits| - 1]));
      HeldOrReverted(sem, c, visits[..|visits| - 1]);
    }
  }

  /** The rewrite pays: over the visits that were profiled, the condition laid down is the one that is taken less
      often. */
  lemma {:induction false} RarerOutcomeTaken<D>(
      sem: Sem<D>, tail: Item, e: BlockEdge, ds: Displacements, visits: seq<D>)
    requires tail.code.ins.Jcc?
    requires e.takenCount == HeldIn(sem, tail.code.ins.cond, visits) && e.takenCount + e.notTakenCount == |visits|
    ensures var i := EmitTail(tail, ShouldRevert(e), ds)[0].item.code.ins;
      i.Jcc? && HeldIn(sem, i.cond, visits) == if e.takenCount < e.notTakenCount then e.takenCount else e.notTakenCount
  {
    HeldOrReverted(sem, tail.code.ins.cond, visits);
  }

  /** The displacements the program uses are right for these block ends only: an inverted condition of two bytes
      whose target is seven bytes on, and a seven-byte end of any other block that control can leave downwards. */
  lemma {:induction false} FixedRightIff(tail: Item, revert: bool)
    requires ValidItem(tail)
    ensures TailRight(tail, revert, FIXED) <==>
      if tail.code.ins.Jcc? && revert then tail.code.len == 2 && TargetOf(tail) == W64(tail.addr + 7)
      else tail.code.ins.Ret? || CategoryOf(tail.code.ins) == UncondBr || tail.code.len == 7
    ensures Reach(tail, 5, FIXED.first(tail)) == NextOf(tail) <==> tail.code.len == 5
  {
    hide TargetOf;
    var a: int := tail.addr;
    assert Sext32(0) == 0 && Sext32(2) == 2 && Sext32(-4) == -4;
    W64Equal(a + 5 + 0, a + tail.code.len);
    W64Equal(a + 6 - 4, a + tail.code.len);
    W64Equal(a + 5 + 2, a + tail.code.len);
  }

  /** An everyday block end they are wrong for: a two-byte JZ that is mostly not taken goes on to the wrong address. */
  lemma {:induction false} FixedWrong()
    ensures var tail := Item(0x1000, Decoded(Jcc(Z, Short, 16), 2));
      ValidItem(tail) && !TailRight(tail, ShouldRevert(BlockEdge(0x1000, 0x1000, 1, 9)), FIXED)
  {
    FixedRightIff(Item(0x1000, Decoded(Jcc(Z, Short, 16), 2)), false);
  }
}
