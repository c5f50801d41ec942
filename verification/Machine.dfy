/**
 Running code: an instruction changes the data state and says where control goes.

 The data state `D` (registers, flags, memory) is a parameter, and so is what instructions do to it.
 The return addresses themselves live in a separate stack of locations: the program counter first, then
 the return addresses, innermost first.  What a call and a return do to the stack pointer is part of `D`.
*/
module Machine {
  import opened Words
  import opened Instructions

  /** The status flags the conditions look at (Intel SDM volume 1, Appendix B). */
  datatype Flags = Flags(cf: bool, pf: bool, zf: bool, sf: bool, of: bool)

  predicate Holds(c: Cond, f: Flags) {
    match c
    case O => f.of
    case NO => !f.of
    case B => f.cf
    case NB => !f.cf
    case Z => f.zf
    case NZ => !f.zf
    case BE => f.cf || f.zf
    case NBE => !f.cf && !f.zf
    case S => f.sf
    case NS => !f.sf
    case P => f.pf
    case NP => !f.pf
    case L => f.sf != f.of
    case NL => f.sf == f.of
    case LE => f.zf || f.sf != f.of
    case NLE => !f.zf && f.sf == f.of
  }

  // The flags a comparison of two 64-bit numbers leaves, the parity flag aside.
  function Compared(x: Addr, y: Addr, pf: bool): Flags {
    var d := W64(x - y);
    Flags(x < y, pf, d == 0, d >= TWO63, Signed64(x) - Signed64(y) != Signed64(d))
  }

  /** What the conditions say after a comparison: B and BE compare unsigned numbers, ... */
  lemma {:induction false} UnsignedHolds(x: Addr, y: Addr, pf: bool)
    ensures var f := Compared(x, y, pf);
      && (Holds(Z, f) <==> x == y) && (Holds(NZ, f) <==> x != y)
      && (Holds(B, f) <==> x < y) && (Holds(NB, f) <==> x >= y)
      && (Holds(BE, f) <==> x <= y) && (Holds(NBE, f) <==> x > y)
      && (Holds(P, f) <==> pf) && (Holds(NP, f) <==> !pf)
  {
    Difference(x, y);
  }

  /** ... L and LE signed ones. */
  lemma {:induction false} SignedHolds(x: Addr, y: Addr, pf: bool)
    ensures var f := Compared(x, y, pf);
      && (Holds(L, f) <==> Signed64(x) < Signed64(y)) && (Holds(NL, f) <==> Signed64(x) >= Signed64(y))
      && (Holds(LE, f) <==> Signed64(x) <= Signed64(y)) && (Holds(NLE, f) <==> Signed64(x) > Signed64(y))
      && (Holds(S, f) <==> Signed64(W64(x - y)) < 0) && (Holds(NS, f) <==> Signed64(W64(x - y)) >= 0)
      && (Holds(O, f) <==> Signed64(x) - Signed64(y) != Signed64(W64(x - y)))
      && (Holds(NO, f) <==> Signed64(x) - Signed64(y) == Signed64(W64(x - y)))
  {
    hide W64, Signed64;
    Difference(x, y);
    SignedOf(x);
    SignedOf(y);
    SignedOf(W64(x - y));
  }

  lemma {:induction false} Difference(x: Addr, y: Addr)
    ensures W64(x - y) == if x < y then x - y + TWO64 else x - y
  {
  }

  lemma {:induction false} SignedOf(x: Addr)
    ensures Signed64(x) == if x < TWO63 then x else x - TWO64
  {
  }

  /** What instructions do to the data state. */
  datatype Sem<!D> = Sem(
    plain: (seq<byte>, D) -> D,
    memory: (byte, seq<byte>, Addr, D) -> D,   // opcode, immediate, effective address
    flags: D -> Flags,
    count: (LoopKind, D) -> D,                 // LOOP-type instructions step a counter...
    loops: (LoopKind, D) -> bool,              // ...and look at it
    reg: (nat, D) -> Addr,
    cell: (Addr, D) -> Addr,                   // the code address stored in a memory cell
    call: D -> D,                              // a call makes room for its return address on the stack...
    ret: D -> D)                               // ...and a return gives it up

  /** Where control goes; `direct` tells a displacement in the code from an address found in the data. */
  datatype Control =
    | Fall
    | Jump(direct: bool, dest: Addr)
    | CallTo(direct: bool, dest: Addr)
    | Return

  /** The effect of `i` on `d`; `next` is the address of the byte after the instruction. */
  function Effect<D>(sem: Sem<D>, i: Ins, next: Addr, d: D): (D, Control) {
    match i
    case Plain(payload) => (sem.plain(payload, d), Fall)
    case Rip(u, disp) => UseEffect(sem, u, W64(next + disp), d)
    case Abs(u, disp) => UseEffect(sem, u, W64(disp), d)
    case Jmp(_, disp) => (d, Jump(true, W64(next + disp)))
    case Jcc(c, _, disp) => (d, if Holds(c, sem.flags(d)) then Jump(true, W64(next + disp)) else Fall)
    case Call(disp) => (sem.call(d), CallTo(true, W64(next + disp)))
    case Loop(k, disp) => (sem.count(k, d), if sem.loops(k, d) then Jump(true, W64(next + disp)) else Fall)
    case JmpReg(r) => (d, Jump(false, sem.reg(r, d)))
    case CallReg(r) => (sem.call(d), CallTo(false, sem.reg(r, d)))
    case Ret => (sem.ret(d), Return)
  }

  function UseEffect<D>(sem: Sem<D>, u: MemUse, ea: Addr, d: D): (D, Control) {
    match u
    case Data(op, imm) => (sem.memory(op, imm, ea, d), Fall)
    case JumpThrough => (d, Jump(false, sem.cell(ea, d)))
    case CallThrough => (sem.call(d), CallTo(false, sem.cell(ea, d)))
  }

  /** A configuration: the stack of locations, program counter first, and the data. */
  datatype Config<L, D> = Config(locs: seq<L>, data: D)

  /** Moves control: `fall` is the location after the instruction, `goto` the one it names. */
  function Move<L>(ctl: Control, fall: L, goto: L, rest: seq<L>): Option<seq<L>> {
    match ctl
    case Fall => Some([fall] + rest)
    case Jump(_, _) => Some([goto] + rest)
    case CallTo(_, _) => Some([goto, fall] + rest)
    case Return => if rest == [] then None else Some(rest)
  }

  function Goal(ctl: Control): Addr {
    if ctl.Jump? || ctl.CallTo? then ctl.dest else 0
  }

  /** A run of bytes somewhere in memory. */
  datatype Segment = Segment(base: Addr, bytes: seq<byte>) {
    function Offset(a: Addr): nat { W64(a - base) }

    predicate Has(a: Addr) { Offset(a) < |bytes| }
  }

  /** A segment takes up the addresses from its base on, one for each byte, around the end of the address space. */
  lemma {:induction false} HasIff(seg: Segment, k: Addr)
    ensures seg.Has(W64(seg.base + k)) <==> k < |seg.bytes|
  {
    W64Absorbs(seg.base + k, 0 - seg.base);
    W64Id(k);
  }

  /** The instruction at address `a`, if the segment holds one there. */
  function Fetch(seg: Segment, a: Addr): (r: Option<Decoded>)
    ensures r.Some? ==> Valid(r.value.ins) && Size(r.value.ins) <= r.value.len <= MAX_BYTES && seg.Has(a)
  {
    if seg.Has(a) then
      var bs := seg.bytes[seg.Offset(a)..];
      (if Decode(bs).Some? then DecodeValid(bs); Decode(bs) else None)
    else None
  }

  /** A processor whose code is what `code` fetches. */
  function Processor<D>(sem: Sem<D>, code: Addr -> Option<Decoded>): Config<Addr, D> -> Option<Config<Addr, D>> {
    (c: Config<Addr, D>) => Step(sem, code, c)
  }

  function Step<D>(sem: Sem<D>, code: Addr -> Option<Decoded>, c: Config<Addr, D>): Option<Config<Addr, D>> {
    if c.locs == [] || code(c.locs[0]).None? then None
    else
      var Decoded(i, len) := code(c.locs[0]).value;
      var next := W64(c.locs[0] + len);
      var (d, ctl) := Effect(sem, i, next, c.data);
      Landed(Move(ctl, next, Goal(ctl), c.locs[1..]), d)
  }

  function Landed<L, D>(locs: Option<seq<L>>, d: D): Option<Config<L, D>> {
    if locs.None? then None else Some(Config(locs.value, d))
  }
}
