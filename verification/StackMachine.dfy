/**
 A stack machine for inlined callees: pushing, popping and access relative to the stack pointer.  The stack requirements
 become conditions that can be read off the callee's instructions.
*/
module StackMachine {
  import opened Words
  import opened Instructions
  import opened InstrMap
  import opened Machine
  import opened Simulation
  import opened LinkedCode
  import opened Routines
  import opened Reordering
  import opened Inlining
  import opened InliningStack

  // ----- The machine -----

  /** The stack, its top first, and everything else as one register. */
  datatype StackData = StackData(slots: seq<int>, ax: int)

  /** What instructions do to the register, and what is decided by it. */
  datatype Alu = Alu(
    other: (seq<byte>, int) -> int,
    memory: (byte, seq<byte>, Addr, int) -> int,
    flags: int -> Flags,
    count: (LoopKind, int) -> int,
    loops: (LoopKind, int) -> bool,
    reg: (nat, int) -> Addr,
    cell: (Addr, int) -> Addr)

  /** Instructions on the stack; the slot at the stack pointer has displacement 0. */
  datatype StackOp = Push | Pop | Load(n: nat) | Store(n: nat) | NoStack

  function OpOf(payload: seq<byte>): StackOp {
    if payload == [0x50] then Push
    else if payload == [0x58] then Pop
    else if |payload| == 2 && payload[0] == 0x8B then Load(payload[1])
    else if |payload| == 2 && payload[0] == 0x89 then Store(payload[1])
    else NoStack
  }

  function Exec(alu: Alu, payload: seq<byte>, d: StackData): StackData {
    match OpOf(payload)
    case Push => d.(slots := [d.ax] + d.slots)
    case Pop => if d.slots == [] then d else StackData(d.slots[1..], d.slots[0])
    case Load(n) => d.(ax := if n < |d.slots| then d.slots[n] else 0)
    case Store(n) => if n < |d.slots| then d.(slots := d.slots[n := d.ax]) else d
    case NoStack => d.(ax := alu.other(payload, d.ax))
  }

  function StackSem(alu: Alu): Sem<StackData> {
    Sem(
      (payload, d: StackData) => Exec(alu, payload, d),
      (op, imm, ea, d: StackData) => d.(ax := alu.memory(op, imm, ea, d.ax)),
      (d: StackData) => alu.flags(d.ax),
      (k, d: StackData) => d.(ax := alu.count(k, d.ax)),
      (k, d: StackData) => alu.loops(k, d.ax),
      (r, d: StackData) => alu.reg(r, d.ax),
      (a, d: StackData) => alu.cell(a, d.ax),
      (d: StackData) => d.(slots := [0] + d.slots),
      (d: StackData) => d.(slots := if d.slots == [] then [] else d.slots[1..]))
  }

  // ----- What can be read off the instructions -----

  /** With `h` slots on top of the return address, the instruction stays above it. */
  predicate StaysAbove(i: Ins, h: nat) {
    i.Plain? ==>
      match OpOf(i.payload)
      case Pop => h > 0
      case Load(n) => n < h
      case Store(n) => n < h
      case _ => true
  }

  function HeightAfter(i: Ins, h: nat): int {
    if i.Plain? && OpOf(i.payload).Push? then h + 1 else if i.Plain? && OpOf(i.payload).Pop? then h - 1 else h
  }

  /** Control stays in the body: no call, no RET, nothing indirect. */
  predicate Local(i: Ins) {
    i.Plain? || i.Jmp? || i.Jcc? || i.Loop? || ((i.Rip? || i.Abs?) && i.use.Data?)
  }

  predicate BalancedAt(body: seq<Item>, heights: seq<nat>, k: nat)
    requires k < |body| && |heights| == |body| + 1
  {
    var i := body[k].code.ins;
    && Local(i) && StaysAbove(i, heights[k])
    && (!i.Jmp? ==> heights[k + 1] == HeightAfter(i, heights[k]))
    && (IsDirect(i) ==> forall j :: 0 <= j < |body| && body[j].addr == TargetOf(body[k]) ==> heights[j] == heights[k])
  }

  /**
   Items 6 and 7 as conditions on the instructions: to each instruction there is a number of slots on top of the
   return address, none at the head and none at the RET, that all ways to it agree on; and no instruction reaches
   below those slots.
  */
  predicate Balanced(body: seq<Item>, heights: seq<nat>) {
    && |heights| == |body| + 1 && heights[0] == 0 && heights[|body|] == 0
    && forall k :: 0 <= k < |body| ==> BalancedAt(body, heights, k)
  }

  // ----- They suffice -----

  /** `x` is `y` with a slot put in under the first `h`. */
  predicate Slotted(h: nat, x: StackData, y: StackData) {
    && x.ax == y.ax && h <= |y.slots| && |x.slots| == |y.slots| + 1
    && x.slots[..h] == y.slots[..h] && x.slots[h + 1..] == y.slots[h..]
  }

  lemma {:induction false} ExecSlotted(alu: Alu, payload: seq<byte>, h: nat, x: StackData, y: StackData)
    requires Slotted(h, x, y) && StaysAbove(Plain(payload), h)
    ensures HeightAfter(Plain(payload), h) >= 0
    ensures Slotted(HeightAfter(Plain(payload), h), Exec(alu, payload, x), Exec(alu, payload, y))
  {
    match OpOf(payload)
    case Push =>
      assert ([x.ax] + x.slots)[..h + 1] == [x.ax] + x.slots[..h];
      assert ([y.ax] + y.slots)[..h + 1] == [y.ax] + y.slots[..h];
      assert ([x.ax] + x.slots)[h + 2..] == x.slots[h + 1..] && ([y.ax] + y.slots)[h + 1..] == y.slots[h..];
    case Pop =>
      assert x.slots[0] == x.slots[..h][0] && y.slots[0] == y.slots[..h][0];
      assert x.slots[1..][..h - 1] == x.slots[..h][1..] && y.slots[1..][..h - 1] == y.slots[..h][1..];
      assert x.slots[1..][h..] == x.slots[h + 1..] && y.slots[1..][h - 1..] == y.slots[h..];
    case Load(n) =>
      assert x.slots[n] == x.slots[..h][n] && y.slots[n] == y.slots[..h][n];
    case Store(n) =>
      assert x.slots[n := x.ax][..h] == x.slots[..h][n := x.ax] && y.slots[n := y.ax][..h] == y.slots[..h][n := y.ax];
      assert x.slots[n := x.ax][h + 1..] == x.slots[h + 1..] && y.slots[n := y.ax][h..] == y.slots[h..];
    case NoStack =>
  }

  /** Control is at instruction `k` of the body, or behind it. */
  predicate AtIndex(s: Inlined, k: nat, l: Loc) {
    || l == In(s.at + k)
    || (k < |s.body| && l == Out(s.body[k].addr) && s.body[k].code.ins.Jmp? && TargetOf(s.body[k]) == s.body[k].addr)
  }

  predicate HeightLagAt(s: Inlined, heights: seq<nat>, k: nat, path: seq<Loc>, x: StackData, y: StackData) {
    k < |heights| && |path| == 1 && AtIndex(s, k, path[0]) && Slotted(heights[k], x, y)
  }

  ghost function HeightLag(s: Inlined, heights: seq<nat>): (seq<Loc>, StackData, StackData) -> bool {
    (path: seq<Loc>, x: StackData, y: StackData) => exists k: nat :: HeightLagAt(s, heights, k, path, x, y)
  }

  /** An instruction has the same effect on both, a slot apart. */
  lemma {:induction false} EffectSlotted(
      alu: Alu, it: Item, h: nat, x: StackData, y: StackData)
    requires Slotted(h, x, y) && Local(it.code.ins) && StaysAbove(it.code.ins, h)
    ensures HeightAfter(it.code.ins, h) >= 0
    ensures var (x', ctl) := Effect(StackSem(alu), it.code.ins, NextOf(it), x);
      var (y', ctl') := Effect(StackSem(alu), it.code.ins, NextOf(it), y);
      && ctl == ctl' && Slotted(HeightAfter(it.code.ins, h), x', y')
      && (ctl.Fall? ==> !it.code.ins.Jmp?)
      && (ctl.Fall? || (ctl.Jump? && ctl.direct && IsDirect(it.code.ins) && ctl.dest == TargetOf(it)))
      && (ctl.Jump? ==> HeightAfter(it.code.ins, h) == h)
  {
    hide W64, Exec, Holds, Slotted;
    var i := it.code.ins;
    if i.Plain? {
      ExecSlotted(alu, i.payload, h, x, y);
    } else {
      SameRegister(h, x, y);
    }
    if IsDirect(i) {
      DirectTarget(it);
    }
  }

  lemma {:induction false} SameRegister(h: nat, x: StackData, y: StackData)
    requires Slotted(h, x, y)
    ensures x.ax == y.ax && forall a :: Slotted(h, x.(ax := a), y.(ax := a))
  {
  }

  lemma {:induction false} BodyStepsAlike(
      alu: Alu, image: Segment, s: Inlined, heights: seq<nat>, k: nat, path: seq<Loc>, x: StackData, y: StackData)
    requires s.Shape(image) && s.Inlinable() && Balanced(s.body, heights) && k < |s.body|
    requires HeightLagAt(s, heights, k, path, x, y) && path[0] == In(s.at + k)
    ensures StepsAlike(StackSem(alu), image, s, HeightLag(s, heights), path, x, y)
  {
    hide W64, Fetch, Link, Effect, StackSem, TargetOf, Inlined.Shape, Inlined.Inlinable, Slotted, StaysAbove,
      HeightAfter, Inlined.Inside, Inlined.Spins, NextOf;
    BodyItem(s, image, s.at + k);
    BodyStays(s, image, s.at + k);
    var it, h, sem := s.body[k], heights[k], StackSem(alu);
    assert BalancedAt(s.body, heights, k);
    EffectSlotted(alu, it, h, x, y);
    var (x', ctl) := Effect(sem, it.code.ins, NextOf(it), x);
    var (y', ctl') := Effect(sem, it.code.ins, NextOf(it), y);
    assert path == [In(s.at + k)] && s.Items()[s.at + k] == it && path[1..] == [];
    if ctl.Fall? {
      assert [In(s.at + k + 1)] + [] == [In(s.at + (k + 1))];
      assert HeightLagAt(s, heights, k + 1, [In(s.at + (k + 1))], x', y');
    } else {
      var l := Link(s.Items(), s.at + k, ctl.dest);
      BodyControl(sem, s, it, x);
      LinkInside(s, image, s.at + k, ctl.dest);
      var j := IndexOf(s, image, l, ctl.dest);
      assert [l] + [] == [l] && HeightLagAt(s, heights, j, [l], x', y');
    }
  }

  lemma {:induction false} IndexOf(s: Inlined, image: Segment, l: Loc, a: Addr) returns (j: nat)
    requires s.Shape(image) && s.Inside(l, a) && s.HasBody(a)
    ensures j < |s.body| && s.body[j].addr == a && AtIndex(s, j, l)
  {
    hide W64, Fetch, TargetOf, Inlined.Shape;
    RetNotInBody(s, image);
    match l
    case In(r) =>
      BodyItem(s, image, r);
      j := r - s.at;
    case Out(_) =>
      j :| 0 <= j < |s.body| && s.body[j].addr == a && s.body[j].code.ins.Jmp? && TargetOf(s.body[j]) == a;
  }

  lemma {:induction false} SpinStepsAlike(
      alu: Alu, image: Segment, s: Inlined, heights: seq<nat>, k: nat, path: seq<Loc>, x: StackData, y: StackData)
    requires s.Shape(image) && k < |s.body| && |heights| == |s.body| + 1
    requires HeightLagAt(s, heights, k, path, x, y) && path[0].Out?
    ensures StepsAlike(StackSem(alu), image, s, HeightLag(s, heights), path, x, y)
  {
    hide W64, Fetch, TargetOf, Inlined.Shape, Slotted, StackSem;
    BodyItem(s, image, s.at + k);
    DirectTarget(s.body[k]);
    assert path == [Out(s.body[k].addr)] && path[1..] == [] && [path[0]] + [] == path;
    assert HeightLagAt(s, heights, k, path, x, y);
  }

  /** A callee whose stack is balanced and that stays above its return address meets the stack requirement of
      inlining, whatever its branches and loops. */
  lemma {:induction false} BalancedKept(alu: Alu, image: Segment, s: Inlined, heights: seq<nat>)
    requires s.Shape(image) && s.Inlinable() && Balanced(s.body, heights)
    ensures StackKept(StackSem(alu), image, s, HeightLag(s, heights))
  {
    hide Inlined.Shape, Inlined.Inlinable, StepsAlike, HeightLagAt, BalancedAt;
    var sem, lag := StackSem(alu), HeightLag(s, heights);
    forall d ensures lag([In(s.at)], sem.call(d), d) {
      HeightLagCall(alu, s, heights, d);
    }
    forall path: seq<Loc>, x, y | lag(path, x, y) ensures path == [In(s.End())] ==> sem.ret(x) == y {
      var k: nat :| HeightLagAt(s, heights, k, path, x, y);
      HeightLagRet(alu, s, heights, k, path, x, y);
    }
    forall path: seq<Loc>, x, y | lag(path, x, y) && path != [In(s.End())]
      ensures StepsAlike(sem, image, s, lag, path, x, y)
    {
      var k: nat :| HeightLagAt(s, heights, k, path, x, y);
      HeightLagIndex(s, heights, k, path, x, y);
      if path[0].Out? {
        SpinStepsAlike(alu, image, s, heights, k, path, x, y);
      } else {
        BodyStepsAlike(alu, image, s, heights, k, path, x, y);
      }
    }
  }

  lemma {:induction false} HeightLagCall(alu: Alu, s: Inlined, heights: seq<nat>, d: StackData)
    requires Balanced(s.body, heights)
    ensures HeightLagAt(s, heights, 0, [In(s.at)], StackSem(alu).call(d), d)
  {
    hide BalancedAt;
    assert ([0] + d.slots)[1..] == d.slots;
  }

  lemma {:induction false} HeightLagRet(
      alu: Alu, s: Inlined, heights: seq<nat>, k: nat, path: seq<Loc>, x: StackData, y: StackData)
    requires Balanced(s.body, heights) && HeightLagAt(s, heights, k, path, x, y)
    ensures path == [In(s.End())] ==> StackSem(alu).ret(x) == y
  {
    hide BalancedAt;
    if path == [In(s.End())] {
      assert path[0] == In(s.End()) && k == |s.body|;
      assert y.slots[0..] == y.slots;
    }
  }

  lemma {:induction false} HeightLagIndex(
      s: Inlined, heights: seq<nat>, k: nat, path: seq<Loc>, x: StackData, y: StackData)
    requires HeightLagAt(s, heights, k, path, x, y) && |heights| == |s.body| + 1 && path != [In(s.End())]
    ensures k < |s.body| && |path| == 1 && (path[0].In? ==> path[0] == In(s.at + k))
  {
    assert path == [path[0]];
  }

  /** A callee with a loop that saves the register, uses the slot in the loop, and restores the register. */
  lemma {:induction false} SavingCallee()
    ensures Balanced(
      [Item(0x2000, Decoded(Plain([0x50]), 2)), Item(0x2002, Decoded(Plain([0x89, 0]), 3)),
       Item(0x2005, Decoded(Loop(LOOP, -5), 2)), Item(0x2007, Decoded(Plain([0x58]), 2))], [0, 1, 1, 1, 0])
  {
  }

  // ----- A callee that does not meet them -----

  const ONE_CALL := Segment(0x1000, [0xE8, 1, 0, 0, 0, 0xC3, 0x12, 0x8B, 1, 0xC3])
  const ONE_CALLER := [Item(0x1000, Decoded(Call(1), 5)), Item(0x1005, Decoded(Ret, 1))]
  const ONE_CALLEE := [Item(0x1006, Decoded(Plain([0x8B, 1]), 3)), Item(0x1009, Decoded(Ret, 1))]

  lemma {:induction false} OneCallRead()
    ensures ReadFrom(ONE_CALL, ONE_CALLER) && ReadFrom(ONE_CALL, ONE_CALLEE)
  {
    hide Fetch, Encode;
    SmallEncodings();
    assert ONE_CALL.bytes[0..5] == [0xE8, 1, 0, 0, 0] && ONE_CALL.bytes[6..9] == [0x12, 0x8B, 1];
    FetchHere(ONE_CALL, 0, Call(1));
    FetchByte(ONE_CALL, 5, Ret);
    FetchHere(ONE_CALL, 6, Plain([0x8B, 1]));
    FetchByte(ONE_CALL, 9, Ret);
  }

  lemma {:induction false} OneCallShape()
    ensures SingleExit(ONE_CALLEE, 0x1006)
    ensures var s := SplicedIn(ONE_CALLER, 0, ONE_CALLEE, []);
      s.Shape(ONE_CALL) && s.Inlinable() && s.body == ONE_CALLEE[..1] && s.site == ONE_CALLER[0] && s.at == 0
  {
    hide Fetch;
    OneCallRead();
    SplicedShape(ONE_CALL, ONE_CALLER, 0, ONE_CALLEE, []);
    SplicedOnce(ONE_CALLER, 0, ONE_CALLEE, 0x1006);
    var s := SplicedIn(ONE_CALLER, 0, ONE_CALLEE, []);
    assert s.layout == [Kept(ONE_CALLEE[0]), Kept(ONE_CALLER[1])];
  }

  /** A callee that reads an argument from the stack is accepted and inlined, and reads another slot then. */
  lemma {:induction false} StackArgumentLost(alu: Alu)
    ensures SingleExit(ONE_CALLEE, ONE_CALLEE[0].addr)
    ensures var s, d := SplicedIn(ONE_CALLER, 0, ONE_CALLEE, []), StackData([7], 0);
      var c' := Run(Processor(StackSem(alu), Original(ONE_CALL)), Config([0x1000], d), 3);
      var l' := Run(Linked(StackSem(alu), ONE_CALL, s.Items()), Config([In(0)], d), 1);
      && s.Shape(ONE_CALL) && s.Inlinable()
      && c'.Some? && c'.value.locs == [0x1005] && l'.Some? && l'.value.locs == [In(1)]
      && c'.value.data != l'.value.data
  {
    hide Step, LinkStep, Inlined.Shape, Inlined.Inlinable, Run;
    OneCallShape();
    var s, d := SplicedIn(ONE_CALLER, 0, ONE_CALLEE, []), StackData([7], 0);
    var sem, it := StackSem(alu), ONE_CALLEE[0];
    StraightBodyIff(sem, ONE_CALL, s, [], [], d);
    BodyDataNext(sem, s.body, 0, d);
    BodyDataNext(sem, s.body, 0, sem.call(d));
    assert BodyData(sem, s.body, 1, d).ax == 0;
    assert sem.call(d).slots == [0, 7] && BodyData(sem, s.body, 1, sem.call(d)).ax == 7;
    assert [s.site.addr] + [] == [0x1000] && [NextOf(s.site)] + [] == [0x1005];
    assert [In(s.at)] + [] == [In(0)] && [In(s.End())] + [] == [In(1)];
  }
}
