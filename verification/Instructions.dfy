/**
 The instruction set the translator works on, with its encoder and decoder.

 Control transfers keep their x86-64 opcodes, widths and lengths.  Every other instruction is a
 length-tagged block of bytes: only its length and whether it has a memory operand addressed
 relative to RIP or absolutely matter to the translator.
*/
module Instructions {
  import opened Words

  datatype Option<+T> = None | Some(value: T)

  /** The sixteen conditions, named as XED's instruction classes name them. */
  datatype Cond = O | NO | B | NB | Z | NZ | BE | NBE | S | NS | P | NP | L | NL | LE | NLE

  /** What an instruction does with its memory operand. */
  datatype MemUse = Data(op: byte, imm: seq<byte>) | JumpThrough | CallThrough

  datatype Width = Short | Near

  datatype LoopKind = LOOPNE | LOOPE | LOOP | JRCXZ

  datatype Ins =
    | Plain(payload: seq<byte>)
    | Rip(use: MemUse, disp: int)     // operand at RIP + disp
    | Abs(use: MemUse, disp: int)     // operand at the sign-extended disp
    | Jmp(width: Width, disp: int)
    | Jcc(cond: Cond, width: Width, disp: int)
    | Call(disp: int)
    | Loop(kind: LoopKind, disp: int) // one-byte displacement only
    | JmpReg(reg: nat)
    | CallReg(reg: nat)
    | Ret

  /** An instruction together with the number of bytes it was decoded from. */
  datatype Decoded = Decoded(ins: Ins, len: nat)

  datatype Category = CondBr | UncondBr | CallCat | RetCat | Other

  const MAX_BYTES := 15
  const IGNORED_PREFIX: byte := 0x3E

  function CategoryOf(i: Ins): Category {
    match i
    case Jmp(_, _) | JmpReg(_) => UncondBr
    case Jcc(_, _, _) | Loop(_, _) => CondBr
    case Call(_) | CallReg(_) => CallCat
    case Rip(u, _) => UseCategory(u)
    case Abs(u, _) => UseCategory(u)
    case Ret => RetCat
    case Plain(_) => Other
  }

  function UseCategory(u: MemUse): Category {
    match u
    case JumpThrough => UncondBr
    case CallThrough => CallCat
    case Data(_, _) => Other
  }

  /** Branches with a displacement in their own encoding. */
  predicate IsDirect(i: Ins) { i.Jmp? || i.Jcc? || i.Call? || i.Loop? }

  predicate ValidUse(u: MemUse) { u.Data? ==> |u.imm| <= 7 }

  predicate FitsWidth(w: Width, disp: int) { if w == Short then Fits8(disp) else Fits32(disp) }

  predicate Valid(i: Ins) {
    match i
    case Plain(payload) => |payload| <= 14
    case Rip(u, disp) => ValidUse(u) && Fits32(disp)
    case Abs(u, disp) => ValidUse(u) && Fits32(disp)
    case Jmp(w, disp) => FitsWidth(w, disp)
    case Jcc(_, w, disp) => FitsWidth(w, disp)
    case Call(disp) => Fits32(disp)
    case Loop(_, disp) => Fits8(disp)
    case JmpReg(r) => r < 8
    case CallReg(r) => r < 8
    case Ret => true
  }

  function UseSize(u: MemUse): nat { if u.Data? then 7 + |u.imm| else 6 }

  /** The length depends on form and width alone, never on the displacement. */
  function Size(i: Ins): nat {
    match i
    case Plain(payload) => 1 + |payload|
    case Rip(u, _) => UseSize(u)
    case Abs(u, _) => UseSize(u) + 1
    case Jmp(w, _) => if w == Short then 2 else 5
    case Jcc(_, w, _) => if w == Short then 2 else 6
    case Call(_) => 5
    case Loop(_, _) => 2
    case JmpReg(_) | CallReg(_) => 2
    case Ret => 1
  }

  lemma {:induction false} SizeBounds(i: Ins)
    requires Valid(i)
    ensures 1 <= Size(i) <= MAX_BYTES
  {
  }

  function CondCode(c: Cond): (n: byte)
    ensures n < 16
  {
    match c
    case O => 0 case NO => 1 case B => 2 case NB => 3
    case Z => 4 case NZ => 5 case BE => 6 case NBE => 7
    case S => 8 case NS => 9 case P => 10 case NP => 11
    case L => 12 case NL => 13 case LE => 14 case NLE => 15
  }

  function CondOf(n: nat): (c: Cond)
    requires n < 16
    ensures CondCode(c) == n
  {
    if n == 0 then O else if n == 1 then NO else if n == 2 then B else if n == 3 then NB
    else if n == 4 then Z else if n == 5 then NZ else if n == 6 then BE else if n == 7 then NBE
    else if n == 8 then S else if n == 9 then NS else if n == 10 then P else if n == 11 then NP
    else if n == 12 then L else if n == 13 then NL else if n == 14 then LE else NLE
  }

  function KindCode(k: LoopKind): byte {
    match k case LOOPNE => 0xE0 case LOOPE => 0xE1 case LOOP => 0xE2 case JRCXZ => 0xE3
  }

  /** ModRM (and SIB) bytes: mod 00 rm 101 is RIP-relative; an absolute operand needs one more byte. */
  function Encode(i: Ins): (bs: seq<byte>)
    requires Valid(i)
    ensures |bs| == Size(i)
  {
    match i
    case Plain(payload) => [0x10 + |payload|] + payload
    case Rip(Data(op, imm), disp) => [0x20 + |imm|, op, 0x05] + LE32(disp) + imm
    case Abs(Data(op, imm), disp) => [0x20 + |imm|, op, 0x04, 0x25] + LE32(disp) + imm
    case Rip(JumpThrough, disp) => [0xFF, 0x25] + LE32(disp)
    case Abs(JumpThrough, disp) => [0xFF, 0x24, 0x25] + LE32(disp)
    case Rip(CallThrough, disp) => [0xFF, 0x15] + LE32(disp)
    case Abs(CallThrough, disp) => [0xFF, 0x14, 0x25] + LE32(disp)
    case Jmp(Short, disp) => [0xEB, disp % 256]
    case Jmp(Near, disp) => [0xE9] + LE32(disp)
    case Jcc(c, Short, disp) => [0x70 + CondCode(c), disp % 256]
    case Jcc(c, Near, disp) => [0x0F, 0x80 + CondCode(c)] + LE32(disp)
    case Call(disp) => [0xE8] + LE32(disp)
    case Loop(k, disp) => [KindCode(k), disp % 256]
    case JmpReg(r) => [0xFF, 0xE0 + r]
    case CallReg(r) => [0xFF, 0xD0 + r]
    case Ret => [0xC3]
  }

  /** Cuts an `n`-byte instruction off the front of `bs`, if that many bytes are there. */
  function Cut(bs: seq<byte>, n: nat, i: Ins): Option<Decoded> {
    if |bs| < n then None else Some(Decoded(i, n))
  }

  /** The displacement at offset `k`, or 0 past the end (where `Cut` fails anyway). */
  function Disp32At(bs: seq<byte>, k: nat): int {
    if k + 4 <= |bs| then FromLE32(bs[k..k + 4]) else 0
  }

  function Slice(bs: seq<byte>, k: nat, n: nat): seq<byte> {
    if k + n <= |bs| then bs[k..k + n] else []
  }

  function DecodeBody(bs: seq<byte>): (r: Option<Decoded>) {
    if bs == [] then None
    else
      var b := bs[0];
      if 0x10 <= b <= 0x1E then Cut(bs, b - 0x0F, Plain(Slice(bs, 1, b - 0x10)))
      else if b == 0xC3 then Some(Decoded(Ret, 1))
      else if |bs| < 2 then None
      else if b == 0xEB then Some(Decoded(Jmp(Short, Signed8(bs[1])), 2))
      else if 0x70 <= b <= 0x7F then Some(Decoded(Jcc(CondOf(b - 0x70), Short, Signed8(bs[1])), 2))
      else if 0xE0 <= b <= 0xE3 then
        Some(Decoded(Loop([LOOPNE, LOOPE, LOOP, JRCXZ][b - 0xE0], Signed8(bs[1])), 2))
      else if b == 0xE9 then Cut(bs, 5, Jmp(Near, Disp32At(bs, 1)))
      else if b == 0xE8 then Cut(bs, 5, Call(Disp32At(bs, 1)))
      else if b == 0x0F && 0x80 <= bs[1] <= 0x8F then Cut(bs, 6, Jcc(CondOf(bs[1] - 0x80), Near, Disp32At(bs, 2)))
      else if 0x20 <= b <= 0x27 then DecodeData(bs, b - 0x20)
      else if b == 0xFF then DecodeGroup5(bs)
      else None
  }

  function DecodeData(bs: seq<byte>, n: nat): Option<Decoded>
    requires |bs| >= 2 && n <= 7
  {
    if |bs| >= 3 && bs[2] == 0x05 then Cut(bs, 7 + n, Rip(Data(bs[1], Slice(bs, 7, n)), Disp32At(bs, 3)))
    else if |bs| >= 4 && bs[2] == 0x04 && bs[3] == 0x25 then
      Cut(bs, 8 + n, Abs(Data(bs[1], Slice(bs, 8, n)), Disp32At(bs, 4)))
    else None
  }

  function DecodeGroup5(bs: seq<byte>): Option<Decoded>
    requires |bs| >= 2
  {
    if 0xE0 <= bs[1] <= 0xE7 then Some(Decoded(JmpReg(bs[1] - 0xE0), 2))
    else if 0xD0 <= bs[1] <= 0xD7 then Some(Decoded(CallReg(bs[1] - 0xD0), 2))
    else if bs[1] == 0x25 then Cut(bs, 6, Rip(JumpThrough, Disp32At(bs, 2)))
    else if bs[1] == 0x15 then Cut(bs, 6, Rip(CallThrough, Disp32At(bs, 2)))
    else if |bs| >= 3 && bs[1] == 0x24 && bs[2] == 0x25 then Cut(bs, 7, Abs(JumpThrough, Disp32At(bs, 3)))
    else if |bs| >= 3 && bs[1] == 0x14 && bs[2] == 0x25 then Cut(bs, 7, Abs(CallThrough, Disp32At(bs, 3)))
    else None
  }

  /** Decodes the first instruction of `bs`; a prefix without effect counts in the length only. */
  function Decode(bs: seq<byte>): Option<Decoded> {
    if bs != [] && bs[0] == IGNORED_PREFIX then
      var r := DecodeBody(bs[1..]);
      if r.Some? && r.value.len < MAX_BYTES then Some(Decoded(r.value.ins, r.value.len + 1)) else None
    else DecodeBody(bs)
  }

  /** Whatever is decoded is a valid instruction no shorter than its encoding. */
  lemma {:induction false} DecodeValid(bs: seq<byte>)
    requires Decode(bs).Some?
    ensures var Decoded(i, len) := Decode(bs).value; Valid(i) && Size(i) <= len <= MAX_BYTES && len <= |bs|
  {
    if bs[0] == IGNORED_PREFIX {
      DecodeBodyValid(bs[1..]);
    } else {
      DecodeBodyValid(bs);
    }
  }

  lemma {:induction false} DecodeBodyValid(bs: seq<byte>)
    requires DecodeBody(bs).Some?
    ensures var Decoded(i, len) := DecodeBody(bs).value; Valid(i) && Size(i) == len <= |bs|
  {
    assert forall x :: Fits32(Sext32(x));
  }

  /** Decoding undoes encoding, whatever bytes follow. */
  lemma {:induction false} DecodeEncode(i: Ins, rest: seq<byte>)
    requires Valid(i)
    ensures Decode(Encode(i) + rest) == Some(Decoded(i, Size(i)))
  {
    var bs := Encode(i) + rest;
    assert bs[0] == Encode(i)[0] && bs[..Size(i)] == Encode(i);
    if i.Plain? {
      assert bs[1..Size(i)] == i.payload;
    } else if (i.Rip? || i.Abs?) && i.use.Data? {
      var k := if i.Rip? then 3 else 4;
      Disp32Found(bs, k, i.disp);
      assert bs[k + 4..Size(i)] == i.use.imm;
    } else if Size(i) > 2 {
      var k := Size(i) - 4;
      Disp32Found(bs, k, i.disp);
    } else if i.Jmp? || i.Jcc? || i.Loop? {
      Signed8Low(i.disp);
      SextFits(i.disp);
    }
  }

  /** What is decoded is what is encoded: the bytes are the encoding of the instruction, with or without the prefix. */
  lemma {:induction false} DecodeOnly(bs: seq<byte>)
    requires Decode(bs).Some?
    ensures var Decoded(i, len) := Decode(bs).value;
      Valid(i) && len <= |bs| && (bs[..len] == Encode(i) || bs[..len] == [0x3E] + Encode(i))
  {
    DecodeValid(bs);
    hide DecodeBody, Encode;
    if bs[0] == IGNORED_PREFIX {
      DecodeBodyOnly(bs[1..]);
      var len := DecodeBody(bs[1..]).value.len;
      assert bs[..len + 1] == [bs[0]] + bs[1..][..len];
    } else {
      DecodeBodyOnly(bs);
    }
  }

  lemma {:induction false} DecodeBodyOnly(bs: seq<byte>)
    requires DecodeBody(bs).Some?
    ensures var Decoded(i, len) := DecodeBody(bs).value; Valid(i) && len <= |bs| && bs[..len] == Encode(i)
  {
    hide FromLE32, LE32, Sext32, CondCode, CondOf, DecodeData, DecodeGroup5;
    DecodeBodyValid(bs);
    var b := bs[0];
    var Decoded(i, len) := DecodeBody(bs).value;
    if 0x20 <= b <= 0x27 {
      DecodeDataOnly(bs, b - 0x20);
    } else if b == 0xFF {
      DecodeGroup5Only(bs);
    } else if i.Call? || ((i.Jmp? || i.Jcc?) && i.width == Near) {
      Disp32Back(bs, len - 4);
      assert bs[..len] == bs[..len - 4] + bs[len - 4..len];
    } else if i.Jmp? || i.Jcc? || i.Loop? {
      assert Signed8(bs[1]) % 256 == bs[1];
      assert bs[..len] == [bs[0], bs[1]];
    } else {
      assert bs[..len] == Encode(i);
    }
  }

  lemma {:induction false} DecodeDataOnly(bs: seq<byte>, n: nat)
    requires |bs| >= 2 && n <= 7 && bs[0] == 0x20 + n && DecodeData(bs, n).Some?
    ensures var Decoded(i, len) := DecodeData(bs, n).value; Valid(i) && len <= |bs| && bs[..len] == Encode(i)
  {
    hide FromLE32, LE32, Sext32;
    var Decoded(i, len) := DecodeData(bs, n).value;
    var k := len - n;
    Disp32Back(bs, k - 4);
    assert bs[..len] == bs[..k - 4] + bs[k - 4..k] + bs[k..len];
  }

  lemma {:induction false} DecodeGroup5Only(bs: seq<byte>)
    requires |bs| >= 2 && bs[0] == 0xFF && DecodeGroup5(bs).Some?
    ensures var Decoded(i, len) := DecodeGroup5(bs).value; Valid(i) && len <= |bs| && bs[..len] == Encode(i)
  {
    hide FromLE32, LE32, Sext32;
    var Decoded(i, len) := DecodeGroup5(bs).value;
    if len == 2 {
      assert bs[..2] == [bs[0], bs[1]];
    } else {
      Disp32Back(bs, len - 4);
      assert bs[..len] == bs[..len - 4] + bs[len - 4..len];
    }
  }

  /** A displacement that was read is the one these four bytes encode. */
  lemma {:induction false} Disp32Back(bs: seq<byte>, k: nat)
    requires k + 4 <= |bs|
    ensures LE32(Disp32At(bs, k)) == bs[k..k + 4] && Fits32(Disp32At(bs, k))
  {
    hide LE32;
    LE32Back(bs[k..k + 4]);
  }

  lemma {:induction false} KnownBytes()
    ensures LE32(0x1234) == [0x34, 0x12, 0, 0] && LE32(-2) == [0xFE, 0xFF, 0xFF, 0xFF] && LE32(0) == [0, 0, 0, 0]
  {
  }

  /** Encodings as in the instruction set reference (Intel SDM volume 2): jumps, ... */
  lemma {:induction false} KnownJumps()
    ensures Encode(Jmp(Short, -2)) == [0xEB, 0xFE] && Encode(Jmp(Near, 0x1234)) == [0xE9, 0x34, 0x12, 0, 0]
    ensures Encode(Jcc(Z, Short, 5)) == [0x74, 5]
    ensures Encode(Jcc(NLE, Near, -2)) == [0x0F, 0x8F, 0xFE, 0xFF, 0xFF, 0xFF]
  {
    hide LE32;
    KnownBytes();
  }

  /** ... loops, ... */
  lemma {:induction false} KnownLoops()
    ensures Encode(Loop(LOOP, -4)) == [0xE2, 0xFC] && Encode(Loop(JRCXZ, 4)) == [0xE3, 4]
    ensures Encode(Loop(LOOPE, 0)) == [0xE1, 0] && Encode(Loop(LOOPNE, 0)) == [0xE0, 0]
  {
  }

  /** ... calls and returns, ... */
  lemma {:induction false} KnownCalls()
    ensures Encode(Call(0x1234)) == [0xE8, 0x34, 0x12, 0, 0] && Encode(Ret) == [0xC3]
    ensures Encode(JmpReg(0)) == [0xFF, 0xE0] && Encode(CallReg(0)) == [0xFF, 0xD0]
  {
    hide LE32;
    KnownBytes();
  }

  /** ... and jumps and calls through memory. */
  lemma {:induction false} KnownIndirect()
    ensures Encode(Rip(JumpThrough, 0)) == [0xFF, 0x25, 0, 0, 0, 0]
    ensures Encode(Rip(CallThrough, 0)) == [0xFF, 0x15, 0, 0, 0, 0]
  {
    hide LE32;
    KnownBytes();
  }

  /** A prefix without effect makes an instruction longer, and nothing else. */
  lemma {:induction false} PrefixIgnored(i: Ins, rest: seq<byte>)
    requires Valid(i) && Size(i) < MAX_BYTES
    ensures Decode([0x3E] + Encode(i) + rest) == Some(Decoded(i, Size(i) + 1))
  {
    hide DecodeBody, Encode;
    var bs := Encode(i) + rest;
    assert ([0x3E] + Encode(i) + rest)[1..] == bs;
    DecodeEncode(i, rest);
    NoPrefix(i);
  }

  lemma {:induction false} NoPrefix(i: Ins)
    requires Valid(i)
    ensures Encode(i)[0] != IGNORED_PREFIX
  {
  }

  lemma {:induction false} Disp32Found(bs: seq<byte>, k: nat, disp: int)
    requires Fits32(disp) && k + 4 <= |bs| && bs[k..k + 4] == LE32(disp)
    ensures Disp32At(bs, k) == disp
  {
    FromLE32LE32(disp);
    SextFits(disp);
  }

  type Buffer = bs: seq<byte> | |bs| == MAX_BYTES witness seq(MAX_BYTES, _ => 0)

  /** The encoder writes over the front of a buffer and leaves the rest as it was. */
  function EncodeInto(buf: Buffer, i: Ins): (r: Buffer)
    requires Valid(i)
    ensures r[..Size(i)] == Encode(i) && r[Size(i)..] == buf[Size(i)..]
    ensures Decode(r) == Some(Decoded(i, Size(i)))
  {
    SizeBounds(i);
    DecodeEncode(i, buf[Size(i)..]);
    Encode(i) + buf[Size(i)..]
  }

  // ----- The rewrites the translator asks the encoder for -----

  /** A direct branch with a new displacement: four bytes wide, except that loops only have one byte. */
  function Retarget(i: Ins, disp: int): (r: Ins)
    requires IsDirect(i)
    ensures Valid(r) && IsDirect(r) && CategoryOf(r) == CategoryOf(i)
  {
    match i
    case Jmp(_, _) => Jmp(Near, Sext32(disp))
    case Jcc(c, _, _) => Jcc(c, Near, Sext32(disp))
    case Call(_) => Call(Sext32(disp))
    case Loop(k, _) => Loop(k, Sext8(disp))
  }

  /** A jump or call through the memory cell at RIP + disp. */
  function ThroughCell(isCall: bool, disp: int): (r: Ins)
    ensures Valid(r) && Size(r) == 6
  {
    Rip(if isCall then CallThrough else JumpThrough, Sext32(disp))
  }
}
