/**
 The stack requirements on an inlined callee in their simplest form, exactly what they are worth for a callee without
 branches, and callees that do not meet the requirements although the tool inlines them.
*/
module InliningStack {
  import opened Words
  import opened Instructions
  import opened InstrMap
  import opened Machine
  import opened Simulation
  import opened LinkedCode
  import opened Encodability
  import opened MapMemory
  import opened Routines
  import opened Reordering
  import opened Inlining

  // ----- Instructions that commute with the call -----

  /**
   Items 6 and 7 read as laws: what a call does to the data, a return undoes, and every instruction that can run with
   an inlined frame below it commutes with the call and goes the same way with or without it.  `under` holds of
   the stacks of locations, down to that frame, with which an instruction can run.
  */
  ghost predicate Unshifted<D(!new)>(sem: Sem<D>, image: Segment, s: Inlined, under: seq<Loc> -> bool) {
    && under([In(s.at)]) && (forall d :: sem.ret(sem.call(d)) == d)
    && forall path, d {:trigger under(path), sem.call(d)} :: under(path) && path != [In(s.End())] ==>
      CommutesAt(sem, image, s, under, path, d)
  }

  ghost predicate CommutesAt<D(!new)>(
    sem: Sem<D>, image: Segment, s: Inlined, under: seq<Loc> -> bool, path: seq<Loc>, d: D)
  {
    var r := LinkStep(sem, image, s.Items(), Config(path, d));
    var r' := LinkStep(sem, image, s.Items(), Config(path, sem.call(d)));
    r'.Some? ==> r.Some? && r'.value == Config(r.value.locs, sem.call(r.value.data)) && under(r.value.locs)
  }

  /** One call behind. */
  ghost function OneCall<D(!new)>(sem: Sem<D>, under: seq<Loc> -> bool): (seq<Loc>, D, D) -> bool {
    (path: seq<Loc>, d: D, e: D) => under(path) && d == sem.call(e)
  }

  lemma {:induction false} UnshiftedKept<D(!new)>(sem: Sem<D>, image: Segment, s: Inlined, under: seq<Loc> -> bool)
    requires Unshifted(sem, image, s, under)
    ensures StackKept(sem, image, s, OneCall(sem, under))
  {
    hide LinkStep;
    var lag := OneCall(sem, under);
    forall path, d, e | lag(path, d, e) && path != [In(s.End())] ensures StepsAlike(sem, image, s, lag, path, d, e) {
      assert CommutesAt(sem, image, s, under, path, e);
    }
  }

  function Calls<D>(sem: Sem<D>, n: nat, d: D): D {
    if n == 0 then d else sem.call(Calls(sem, n - 1, d))
  }

  lemma {:induction false} LaggingCalls<D(!new)>(
      sem: Sem<D>, under: seq<Loc> -> bool, ls: seq<Loc>, inl: seq<bool>, p: nat, x: D, y: D)
    requires |inl| == |ls| && p <= |ls| && Lagging(OneCall(sem, under), ls, inl, p, x, y)
    ensures x == Calls(sem, Count(inl[p..]), y)
    decreases |ls| - p
  {
    if p < |ls| {
      assert inl[p..][1..] == inl[p + 1..];
      if inl[p] {
        var z :| OneCall(sem, under)(ls[..p + 1], x, z) && Lagging(OneCall(sem, under), ls, inl, p + 1, z, y);
        LaggingCalls(sem, under, ls, inl, p + 1, z, y);
      } else {
        LaggingCalls(sem, under, ls, inl, p + 1, x, y);
      }
    }
  }

  /** Then the original data are those of the translated process with one call made for each inlined frame open, and
      there are as many of them as there are return addresses more. */
  lemma {:induction false} InlinedRunsOneCallBehind<D(!new)>(
      sem: Sem<D>, image: Segment, s: Inlined, under: seq<Loc> -> bool,
      table: seq<Entry>, tc: Segment, base: Addr, e: nat, rets: seq<Addr>, d: D, n: nat) returns (k: nat)
    requires s.Shape(image) && s.Inlinable() && Unshifted(sem, image, s, under)
    requires Translated(s.Items(), table, tc, base) && Placeable(s.Items(), tc.base, base)
    requires MapHeld(sem, table, base) && Disjoint(image, tc) && |tc.bytes| <= TWO64
    requires e < |s.layout| && !s.InBody(e) && !s.layout[e].Added?
    requires Run(Processor(sem, Original(image)), Config([s.layout[e].item.addr] + rets, d), n).Some?
    ensures |s.Items()| == |table| && k <= 2 * n && n <= 3 * k + 2
    ensures var c' := Run(Processor(sem, Original(image)), Config([s.layout[e].item.addr] + rets, d), n).value;
      var m' := Run(Processor(sem, WithTc(image, tc)), Config([table[e].newInsAddr] + rets, d), k);
      && m'.Some? && |m'.value.locs| <= |c'.locs|
      && c'.data == Calls(sem, |c'.locs| - |m'.value.locs|, m'.value.data)
  {
    hide Translated, Placeable, CellsHeld, MapHeld, Disjoint, Inlined.Shape, Inlined.Inlinable, StackKept,
      Unshifted, Step;
    var lag := OneCall(sem, under);
    UnshiftedKept(sem, image, s, under);
    k := InlinedRoutineRuns(sem, image, s, lag, table, tc, base, e, rets, d, n);
    var c' := Run(Processor(sem, Original(image)), Config([s.layout[e].item.addr] + rets, d), n).value;
    var m' := Run(Processor(sem, WithTc(image, tc)), Config([table[e].newInsAddr] + rets, d), k).value;
    var ls :| Behind(s, lag, c', Config(ls, m'.data)) && Placed(table, tc.base, ls, m'.locs);
    var inl :| |inl| == |ls| && s.Nested(c'.locs, ls, inl) && Lagging(lag, ls, inl, 0, c'.data, m'.data);
    FramesOpen(s, c'.locs, ls, inl);
    LaggingCalls(sem, under, ls, inl, 0, c'.data, m'.data);
    assert inl[0..] == inl;
  }

  // ----- A callee without branches -----

  predicate Straight(body: seq<Item>) {
    forall k :: 0 <= k < |body| ==>
      var i := body[k].code.ins; i.Plain? || ((i.Rip? || i.Abs?) && i.use.Data?)
  }

  /** What the first `k` instructions of the body do to the data. */
  function BodyData<D>(sem: Sem<D>, body: seq<Item>, k: nat, d: D): D
    requires k <= |body|
  {
    if k == 0 then d
    else Effect(sem, body[k - 1].code.ins, NextOf(body[k - 1]), BodyData(sem, body, k - 1, d)).0
  }

  /** The address of the `k`th instruction of the callee. */
  function CalleeAt(s: Inlined, k: nat): Addr { if k < |s.body| then s.body[k].addr else s.ret.addr }

  lemma {:induction false} BodyStep<D(!new)>(sem: Sem<D>, image: Segment, s: Inlined, rest: seq<Addr>, k: nat, d: D)
    requires s.Shape(image) && Straight(s.body) && k < |s.body|
    ensures Step(sem, Original(image), Config([CalleeAt(s, k)] + rest, d)) ==
      Some(Config([CalleeAt(s, k + 1)] + rest, Effect(sem, s.body[k].code.ins, NextOf(s.body[k]), d).0))
  {
    hide W64, Fetch, TargetOf, Inlined.OuterPlaced;
    CodeAt(image, s.body, k);
    assert s.BodyFollowed(k);
    assert ([CalleeAt(s, k)] + rest)[1..] == rest;
  }

  lemma {:induction false} OriginalBody<D(!new)>(
      sem: Sem<D>, image: Segment, s: Inlined, rest: seq<Addr>, k: nat, d: D)
    requires s.Shape(image) && Straight(s.body) && k <= |s.body|
    ensures Run(Processor(sem, Original(image)), Config([s.Head()] + rest, d), k) ==
      Some(Config([CalleeAt(s, k)] + rest, BodyData(sem, s.body, k, d)))
  {
    hide Step, Effect, Inlined.Shape, Straight;
    if k > 0 {
      OriginalBody(sem, image, s, rest, k - 1, d);
      var p := Processor(sem, Original(image));
      RunAdd(p, Config([s.Head()] + rest, d), k - 1, 1);
      BodyStep(sem, image, s, rest, k - 1, BodyData(sem, s.body, k - 1, d));
      OneStep(p, Config([CalleeAt(s, k - 1)] + rest, BodyData(sem, s.body, k - 1, d)));
    }
  }

  lemma {:induction false} InlinedStep<D(!new)>(
      sem: Sem<D>, image: Segment, s: Inlined, rest: seq<Loc>, k: nat, d: D)
    requires s.Shape(image) && Straight(s.body) && k < |s.body|
    ensures LinkStep(sem, image, s.Items(), Config([In(s.at + k)] + rest, d)) ==
      Some(Config([In(s.at + k + 1)] + rest, Effect(sem, s.body[k].code.ins, NextOf(s.body[k]), d).0))
  {
    hide W64, Fetch, TargetOf, Inlined.Shape;
    BodyItem(s, image, s.at + k);
    assert s.Items()[s.at + k] == s.body[k];
    assert ([In(s.at + k)] + rest)[1..] == rest;
  }

  lemma {:induction false} InlinedBody<D(!new)>(
      sem: Sem<D>, image: Segment, s: Inlined, rest: seq<Loc>, k: nat, d: D)
    requires s.Shape(image) && Straight(s.body) && k <= |s.body|
    ensures Run(Linked(sem, image, s.Items()), Config([In(s.at)] + rest, d), k) ==
      Some(Config([In(s.at + k)] + rest, BodyData(sem, s.body, k, d)))
  {
    hide LinkStep, Effect, Inlined.Shape, Straight;
    if k > 0 {
      InlinedBody(sem, image, s, rest, k - 1, d);
      var p := Linked(sem, image, s.Items());
      RunAdd(p, Config([In(s.at)] + rest, d), k - 1, 1);
      InlinedStep(sem, image, s, rest, k - 1, BodyData(sem, s.body, k - 1, d));
      OneStep(p, Config([In(s.at + k - 1)] + rest, BodyData(sem, s.body, k - 1, d)));
    }
  }

  lemma {:induction false} SiteStep<D(!new)>(sem: Sem<D>, image: Segment, s: Inlined, rest: seq<Addr>, d: D)
    requires s.Shape(image)
    ensures Step(sem, Original(image), Config([s.site.addr] + rest, d)) ==
      Some(Config([s.Head()] + ([NextOf(s.site)] + rest), sem.call(d)))
  {
    hide W64, Fetch, TargetOf, Inlined.OuterPlaced;
    CodeAt(image, [s.site, s.ret], 0);
    DirectTarget(s.site);
    assert ([s.site.addr] + rest)[1..] == rest;
    assert [s.Head(), NextOf(s.site)] + rest == [s.Head()] + ([NextOf(s.site)] + rest);
  }

  lemma {:induction false} RetStep<D(!new)>(sem: Sem<D>, image: Segment, s: Inlined, rest: seq<Addr>, d: D)
    requires s.Shape(image) && rest != []
    ensures Step(sem, Original(image), Config([s.ret.addr] + rest, d)) == Some(Config(rest, sem.ret(d)))
  {
    hide W64, Fetch, TargetOf, Inlined.OuterPlaced;
    CodeAt(image, [s.site, s.ret], 1);
    assert (s.body + [s.ret])[|s.body|] == s.ret && ([s.ret.addr] + rest)[1..] == rest;
  }

  /** Call, body and RET on the one side, the body alone on the other: they agree on the data behind the call exactly
      if the body does not notice the return address. */
  lemma {:induction false} StraightBodyIff<D(!new)>(
      sem: Sem<D>, image: Segment, s: Inlined, rest: seq<Addr>, lrest: seq<Loc>, d: D)
    requires s.Shape(image) && Straight(s.body)
    ensures var n := |s.body|;
      var c' := Run(Processor(sem, Original(image)), Config([s.site.addr] + rest, d), n + 2);
      var l' := Run(Linked(sem, image, s.Items()), Config([In(s.at)] + lrest, d), n);
      && c'.Some? && c'.value.locs == [NextOf(s.site)] + rest
      && l'.Some? && l'.value.locs == [In(s.End())] + lrest
      && (c'.value.data == l'.value.data <==>
          sem.ret(BodyData(sem, s.body, n, sem.call(d))) == BodyData(sem, s.body, n, d))
  {
    hide Step, Effect, BodyData, Inlined.Shape, Straight;
    var n, p := |s.body|, Processor(sem, Original(image));
    InlinedBody(sem, image, s, lrest, n, d);
    var c0, back := Config([s.site.addr] + rest, d), [NextOf(s.site)] + rest;
    SiteStep(sem, image, s, rest, d);
    OneStep(p, c0);
    OriginalBody(sem, image, s, back, n, sem.call(d));
    RunAdd(p, c0, 1, n);
    RetStep(sem, image, s, back, BodyData(sem, s.body, n, sem.call(d)));
    OneStep(p, Config([s.ret.addr] + back, BodyData(sem, s.body, n, sem.call(d))));
    RunAdd(p, c0, n + 1, 1);
  }

  /** So the requirement on the stack is exact for such callees: it can be met if and only if the body does not notice
      the return address, whatever the data. */
  lemma {:induction false} StraightNecessary<D(!new)>(
      sem: Sem<D>, image: Segment, s: Inlined, lag: (seq<Loc>, D, D) -> bool, d: D)
    requires s.Shape(image) && Straight(s.body) && StackKept(sem, image, s, lag)
    ensures sem.ret(BodyData(sem, s.body, |s.body|, sem.call(d))) == BodyData(sem, s.body, |s.body|, d)
  {
    hide StepsAlike, BodyData, Inlined.Shape, Straight;
    var n := |s.body|;
    BodyDataNone(sem, s.body, sem.call(d));
    BodyDataNone(sem, s.body, d);
    assert [In(s.at + 0)] == [In(s.at)];
    for k := 0 to n
      invariant lag([In(s.at + k)], BodyData(sem, s.body, k, sem.call(d)), BodyData(sem, s.body, k, d))
    {
      var x, y := BodyData(sem, s.body, k, sem.call(d)), BodyData(sem, s.body, k, d);
      assert [In(s.at + k)][0] != In(s.End());
      PathStep(sem, image, s, lag, [In(s.at + k)], x, y);
      InlinedStep(sem, image, s, [], k, x);
      InlinedStep(sem, image, s, [], k, y);
      assert [In(s.at + k)] + [] == [In(s.at + k)] && [In(s.at + k + 1)] + [] == [In(s.at + k + 1)];
      BodyDataNext(sem, s.body, k, sem.call(d));
      BodyDataNext(sem, s.body, k, d);
      assert StepsAlike(sem, image, s, lag, [In(s.at + k)], x, y);
      StepsOn(sem, image, s, lag, [In(s.at + k)], x, y);
    }
  }

  lemma {:induction false} StepsOn<D(!new)>(
      sem: Sem<D>, image: Segment, s: Inlined, lag: (seq<Loc>, D, D) -> bool, path: seq<Loc>, d: D, e: D)
    requires StepsAlike(sem, image, s, lag, path, d, e) && LinkStep(sem, image, s.Items(), Config(path, d)).Some?
    ensures var r := LinkStep(sem, image, s.Items(), Config(path, d));
      var r' := LinkStep(sem, image, s.Items(), Config(path, e));
      r'.Some? && lag(r.value.locs, r.value.data, r'.value.data)
  {
  }

  lemma {:induction false} BodyDataNone<D>(sem: Sem<D>, body: seq<Item>, d: D)
    ensures BodyData(sem, body, 0, d) == d
  {
  }

  lemma {:induction false} BodyDataNext<D>(sem: Sem<D>, body: seq<Item>, k: nat, d: D)
    requires k < |body|
    ensures BodyData(sem, body, k + 1, d) ==
      Effect(sem, body[k].code.ins, NextOf(body[k]), BodyData(sem, body, k, d)).0
  {
  }

  ghost function StraightLag<D(!new)>(sem: Sem<D>, s: Inlined): (seq<Loc>, D, D) -> bool {
    (path: seq<Loc>, x: D, y: D) => exists k: nat, d :: BodyLag(sem, s, k, d, path, x, y)
  }

  predicate BodyLag<D(==)>(sem: Sem<D>, s: Inlined, k: nat, d: D, path: seq<Loc>, x: D, y: D) {
    && k <= |s.body| && path == [In(s.at + k)]
    && x == BodyData(sem, s.body, k, sem.call(d)) && y == BodyData(sem, s.body, k, d)
  }

  lemma {:induction false} StraightSufficient<D(!new)>(sem: Sem<D>, image: Segment, s: Inlined)
    requires s.Shape(image) && Straight(s.body)
    requires forall d :: sem.ret(BodyData(sem, s.body, |s.body|, sem.call(d))) == BodyData(sem, s.body, |s.body|, d)
    ensures StackKept(sem, image, s, StraightLag(sem, s))
  {
    hide Inlined.Shape, Straight, StepsAlike, BodyLag, BodyData;
    var lag := StraightLag(sem, s);
    forall d ensures lag([In(s.at)], sem.call(d), d) {
      BodyLagStart(sem, s, d);
    }
    forall path, x, y | lag(path, x, y) ensures path == [In(s.End())] ==> sem.ret(x) == y {
      var k: nat, d :| BodyLag(sem, s, k, d, path, x, y);
      BodyLagEnd(sem, s, k, d, path, x, y);
    }
    forall path, x, y | lag(path, x, y) && path != [In(s.End())] ensures StepsAlike(sem, image, s, lag, path, x, y) {
      var k: nat, d :| BodyLag(sem, s, k, d, path, x, y);
      BodyLagStep(sem, image, s, k, d, path, x, y);
    }
  }

  lemma {:induction false} BodyLagStart<D(!new)>(sem: Sem<D>, s: Inlined, d: D)
    ensures BodyLag(sem, s, 0, d, [In(s.at)], sem.call(d), d)
  {
  }

  lemma {:induction false} BodyLagEnd<D(!new)>(sem: Sem<D>, s: Inlined, k: nat, d: D, path: seq<Loc>, x: D, y: D)
    requires sem.ret(BodyData(sem, s.body, |s.body|, sem.call(d))) == BodyData(sem, s.body, |s.body|, d)
    requires BodyLag(sem, s, k, d, path, x, y)
    ensures path == [In(s.End())] ==> sem.ret(x) == y
  {
    hide BodyData;
    assert path[0] == In(s.at + k);
  }

  lemma {:induction false} BodyLagStep<D(!new)>(
      sem: Sem<D>, image: Segment, s: Inlined, k: nat, d: D, path: seq<Loc>, x: D, y: D)
    requires s.Shape(image) && Straight(s.body) && BodyLag(sem, s, k, d, path, x, y) && path != [In(s.End())]
    ensures StepsAlike(sem, image, s, StraightLag(sem, s), path, x, y)
  {
    hide Inlined.Shape, Straight, LinkStep, BodyData;
    InlinedStep(sem, image, s, [], k, x);
    InlinedStep(sem, image, s, [], k, y);
    assert [In(s.at + k)] + [] == [In(s.at + k)] && [In(s.at + k + 1)] + [] == [In(s.at + k + 1)];
    BodyDataNext(sem, s.body, k, sem.call(d));
    BodyDataNext(sem, s.body, k, d);
    var r, r' := LinkStep(sem, image, s.Items(), Config(path, x)), LinkStep(sem, image, s.Items(), Config(path, y));
    assert BodyLag(sem, s, k + 1, d, r.value.locs, r.value.data, r'.value.data);
  }

  // ----- Callees that are inlined and should not be -----

  lemma {:induction false} FetchHere(seg: Segment, off: nat, i: Ins)
    requires Valid(i) && off + Size(i) <= |seg.bytes| && seg.bytes[off..off + Size(i)] == Encode(i)
    requires seg.base + off < TWO64
    ensures Fetch(seg, seg.base + off) == Some(Decoded(i, Size(i)))
  {
    hide Decode, Encode;
    SizeBounds(i);
    assert seg.bytes[off..] == Encode(i) + seg.bytes[off + Size(i)..];
    DecodeEncode(i, seg.bytes[off + Size(i)..]);
    assert seg.Offset(seg.base + off) == off;
  }

  lemma {:induction false} FetchByte(seg: Segment, off: nat, i: Ins)
    requires Valid(i) && Size(i) == 1 && off < |seg.bytes| && Encode(i) == [seg.bytes[off]]
    requires seg.base + off < TWO64
    ensures Fetch(seg, seg.base + off) == Some(Decoded(i, 1))
  {
    hide Fetch, Encode;
    assert seg.bytes[off..off + 1] == [seg.bytes[off]];
    FetchHere(seg, off, i);
  }

  /** The encodings of the examples below. */
  lemma {:induction false} SmallEncodings()
    ensures Encode(Call(1)) == [0xE8, 1, 0, 0, 0] && Encode(Call(6)) == [0xE8, 6, 0, 0, 0]
    ensures Encode(Ret) == [0xC3] && Encode(Jmp(Short, 1)) == [0xEB, 1]
    ensures Encode(Plain([])) == [0x10] && Encode(Plain([0x8B, 1])) == [0x12, 0x8B, 1]
  {
    assert LE32(1) == [1, 0, 0, 0] && LE32(6) == [6, 0, 0, 0];
  }

  /**
   A callee that jumps to its own RET, which the requirements allow and the test accepts.  The jump goes out to the
   original RET, and as no return address was pushed, that one returns from the caller: what is left of the caller is
   skipped, whatever the callee, the data and the stack.
  */
  lemma {:induction false} JumpToRetSkips<D(!new)>(
      sem: Sem<D>, image: Segment, s: Inlined, j: nat, rest: seq<Addr>, lrest: seq<Loc>, d: D)
    requires s.Shape(image) && s.Apart() && s.InBody(j) && lrest != []
    requires var it := s.layout[j].item; it.code.ins.Jmp? && TargetOf(it) == s.ret.addr
    ensures Run(Processor(sem, Original(image)), Config([s.layout[j].item.addr, NextOf(s.site)] + rest, d), 2) ==
      Some(Config([NextOf(s.site)] + rest, sem.ret(d)))
    ensures Run(Linked(sem, image, s.Items()), Config([In(j)] + lrest, d), 2) == Some(Config(lrest, sem.ret(d)))
  {
    hide Step, LinkStep, Inlined.Shape, TargetOf, Link;
    var p, q, back := Processor(sem, Original(image)), Linked(sem, image, s.Items()), [NextOf(s.site)] + rest;
    BodyItem(s, image, j);
    JumpStep(sem, image, s, j, back, lrest, d);
    var c := Config([s.layout[j].item.addr] + back, d);
    assert [s.layout[j].item.addr, NextOf(s.site)] + rest == c.locs;
    OneStep(p, c);
    RetStep(sem, image, s, back, d);
    OneStep(p, Config([s.ret.addr] + back, d));
    RunAdd(p, c, 1, 1);
    var l := Config([In(j)] + lrest, d);
    OneStep(q, l);
    RetOut(sem, image, s, lrest, d);
    OneStep(q, Config([Out(s.ret.addr)] + lrest, d));
    RunAdd(q, l, 1, 1);
  }

  lemma {:induction false} JumpStep<D(!new)>(
      sem: Sem<D>, image: Segment, s: Inlined, j: nat, rest: seq<Addr>, lrest: seq<Loc>, d: D)
    requires s.Shape(image) && s.Apart() && s.InBody(j)
    requires var it := s.layout[j].item; it.code.ins.Jmp? && TargetOf(it) == s.ret.addr
    ensures Step(sem, Original(image), Config([s.layout[j].item.addr] + rest, d)) ==
      Some(Config([s.ret.addr] + rest, d))
    ensures LinkStep(sem, image, s.Items(), Config([In(j)] + lrest, d)) ==
      Some(Config([Out(s.ret.addr)] + lrest, d))
  {
    hide W64, Fetch, TargetOf, Link, Inlined.Shape;
    BodyItem(s, image, j);
    var it := s.layout[j].item;
    DirectTarget(it);
    RetLink(s, image, j);
    var c, ls := Config([it.addr] + rest, d), [In(j)] + lrest;
    EntrySteps(sem, image, s.Items(), c, ls, j);
    assert c.locs[1..] == rest && ls[1..] == lrest;
  }

  lemma {:induction false} RetOut<D(!new)>(sem: Sem<D>, image: Segment, s: Inlined, lrest: seq<Loc>, d: D)
    requires s.Shape(image) && lrest != []
    ensures LinkStep(sem, image, s.Items(), Config([Out(s.ret.addr)] + lrest, d)) == Some(Config(lrest, sem.ret(d)))
  {
    hide W64, Fetch, TargetOf, Inlined.OuterPlaced;
    CodeAt(image, [s.site, s.ret], 1);
    assert (s.body + [s.ret])[|s.body|] == s.ret && ([Out(s.ret.addr)] + lrest)[1..] == lrest;
  }

  /** A conditional branch to the RET is noticed: it makes the translation fail. */
  lemma {:induction false} BranchToRetFails(s: Inlined, image: Segment, j: nat)
    requires s.Shape(image) && s.Apart() && s.InBody(j) && s.ret.addr != 0
    requires var it := s.layout[j].item; CategoryOf(it.code.ins) == CondBr && TargetOf(it) == s.ret.addr
    ensures Leaving(s.Items())
  {
    hide W64, Fetch, TargetOf, CategoryOf, Inlined.Shape;
    BodyItem(s, image, j);
    RetLink(s, image, j);
    assert LeavingAt(s.Items(), j);
  }

  const TO_RET := Segment(0x1000, [0xE8, 1, 0, 0, 0, 0xC3, 0xEB, 1, 0x10, 0xC3])
  const TO_RET_CALLER := [Item(0x1000, Decoded(Call(1), 5)), Item(0x1005, Decoded(Ret, 1))]
  const TO_RET_CALLEE := [
    Item(0x1006, Decoded(Jmp(Short, 1), 2)), Item(0x1008, Decoded(Plain([]), 1)), Item(0x1009, Decoded(Ret, 1))]

  lemma {:induction false} ToRetRead()
    ensures ReadFrom(TO_RET, TO_RET_CALLER) && ReadFrom(TO_RET, TO_RET_CALLEE)
  {
    hide Fetch, Encode;
    SmallEncodings();
    assert TO_RET.bytes[0..5] == [0xE8, 1, 0, 0, 0];
    FetchHere(TO_RET, 0, Call(1));
    FetchByte(TO_RET, 5, Ret);
    assert TO_RET.bytes[6..8] == [0xEB, 1];
    FetchHere(TO_RET, 6, Jmp(Short, 1));
    FetchByte(TO_RET, 8, Plain([]));
    FetchByte(TO_RET, 9, Ret);
  }

  const TO_RET_INLINED := Inlined(
    [Kept(TO_RET_CALLEE[0]), Kept(TO_RET_CALLEE[1]), Kept(TO_RET_CALLER[1])], 0, TO_RET_CALLER[0],
    [TO_RET_CALLEE[0], TO_RET_CALLEE[1]], TO_RET_CALLEE[2])

  lemma {:induction false} ToRetShape()
    ensures SingleExit(TO_RET_CALLEE, TO_RET_CALLEE[0].addr)
    ensures SplicedIn(TO_RET_CALLER, 0, TO_RET_CALLEE, []) == TO_RET_INLINED
    ensures TO_RET_INLINED.Shape(TO_RET) && TO_RET_INLINED.Apart()
  {
    hide Fetch, Inlined.Shape;
    ToRetRead();
    SplicedShape(TO_RET, TO_RET_CALLER, 0, TO_RET_CALLEE, []);
    SplicedOnce(TO_RET_CALLER, 0, TO_RET_CALLEE, 0x1006);
    assert TO_RET_CALLEE[..2] == TO_RET_INLINED.body;
    assert SplicedIn(TO_RET_CALLER, 0, TO_RET_CALLEE, []).layout == TO_RET_INLINED.layout;
  }

  lemma {:induction false} ToRetStays()
    ensures !Leaving(TO_RET_INLINED.Items())
  {
    assert TO_RET_INLINED.Items() == [TO_RET_CALLEE[0], TO_RET_CALLEE[1], TO_RET_CALLER[1]];
  }

  /** Such a callee: accepted, translated without failure, and the RET of its caller is skipped. */
  lemma {:induction false} JumpToRetAccepted<D(!new)>(sem: Sem<D>, d: D)
    ensures SingleExit(TO_RET_CALLEE, TO_RET_CALLEE[0].addr)
    ensures SplicedIn(TO_RET_CALLER, 0, TO_RET_CALLEE, []) == TO_RET_INLINED
    ensures TO_RET_INLINED.Shape(TO_RET) && TO_RET_INLINED.Apart() && !Leaving(TO_RET_INLINED.Items())
    ensures var c' := Run(Processor(sem, Original(TO_RET)), Config([0x1000, 0x5000], d), 3);
      var l' := Run(Linked(sem, TO_RET, TO_RET_INLINED.Items()), Config([In(0), Out(0x5000)], d), 2);
      && c'.Some? && c'.value.locs == [0x1005, 0x5000]
      && l'.Some? && l'.value.locs == [Out(0x5000)]
  {
    hide Run, Inlined.Shape, Inlined.Apart, Leaving, SplicedIn;
    ToRetShape();
    ToRetStays();
    JumpToRetRuns(sem, TO_RET_INLINED, d);
  }

  lemma {:induction false} JumpToRetRuns<D(!new)>(sem: Sem<D>, s: Inlined, d: D)
    requires s.Shape(TO_RET) && s.Apart() && s.at == 0 && s.site == TO_RET_CALLER[0] && s.ret == TO_RET_CALLEE[2]
    requires |s.body| == 2 && s.layout != [] && s.layout[0] == Kept(TO_RET_CALLEE[0])
    requires s.body[0] == TO_RET_CALLEE[0]
    ensures var c' := Run(Processor(sem, Original(TO_RET)), Config([0x1000, 0x5000], d), 3);
      var l' := Run(Linked(sem, TO_RET, s.Items()), Config([In(0), Out(0x5000)], d), 2);
      && c'.Some? && c'.value.locs == [0x1005, 0x5000] && l'.Some? && l'.value.locs == [Out(0x5000)]
  {
    hide Step, Run, Inlined.Shape, Inlined.Apart;
    var p, c := Processor(sem, Original(TO_RET)), Config([0x1000, 0x5000], d);
    SiteStep(sem, TO_RET, s, [0x5000], d);
    assert [s.site.addr] + [0x5000] == c.locs;
    OneStep(p, c);
    JumpToRetSkips(sem, TO_RET, s, 0, [0x5000], [Out(0x5000)], sem.call(d));
    JumpToRetSkips(sem, TO_RET, s, 0, [0x5000], [Out(0x5000)], d);
    assert [s.Head()] + ([NextOf(s.site)] + [0x5000]) == [0x1006, NextOf(s.site)] + [0x5000];
    RunAdd(p, c, 1, 2);
    assert [In(0)] + [Out(0x5000)] == [In(0), Out(0x5000)];
    assert [NextOf(s.site)] + [0x5000] == [0x1005, 0x5000];
  }

  const TWO_CALLS := Segment(0x1000, [0xE8, 6, 0, 0, 0, 0xE8, 1, 0, 0, 0, 0xC3, 0x10, 0xC3])
  const TWICE_CALLER := [
    Item(0x1000, Decoded(Call(6), 5)), Item(0x1005, Decoded(Call(1), 5)), Item(0x100A, Decoded(Ret, 1))]
  const TWICE_CALLEE := [Item(0x100B, Decoded(Plain([]), 1)), Item(0x100C, Decoded(Ret, 1))]

  lemma {:induction false} TwoCallsRead()
    ensures ReadFrom(TWO_CALLS, TWICE_CALLER) && ReadFrom(TWO_CALLS, TWICE_CALLEE)
  {
    hide Fetch, Encode;
    SmallEncodings();
    assert TWO_CALLS.bytes[0..5] == [0xE8, 6, 0, 0, 0] && TWO_CALLS.bytes[5..10] == [0xE8, 1, 0, 0, 0];
    FetchHere(TWO_CALLS, 0, Call(6));
    FetchHere(TWO_CALLS, 5, Call(1));
    FetchByte(TWO_CALLS, 10, Ret);
    FetchByte(TWO_CALLS, 11, Plain([]));
    FetchByte(TWO_CALLS, 12, Ret);
  }

  /** With two calls of the callee in the caller, one inlined, the other is captured: control enters the body with a
      return address to behind the second call, runs into the second call again, and never gets behind it. */
  lemma {:induction false} SecondCallCaptured<D(!new)>(sem: Sem<D>, d: D, n: nat)
    ensures SingleExit(TWICE_CALLEE, TWICE_CALLEE[0].addr)
    ensures var s := SplicedIn(TWICE_CALLER, 0, TWICE_CALLEE, []);
      var l' := Run(Linked(sem, TWO_CALLS, s.Items()), Config([In(0)], d), 2 * n);
      && s.Shape(TWO_CALLS) && s.Apart()
      && l'.Some? && l'.value.locs == [In(0)] + seq(n, _ => In(2))
  {
    hide Fetch, Run;
    TwoCallsRead();
    SplicedShape(TWO_CALLS, TWICE_CALLER, 0, TWICE_CALLEE, []);
    SplicedOnce(TWICE_CALLER, 0, TWICE_CALLEE, 0x100B);
    var s := SplicedIn(TWICE_CALLER, 0, TWICE_CALLEE, []);
    assert s.layout == [Kept(TWICE_CALLEE[0]), Kept(TWICE_CALLER[1]), Kept(TWICE_CALLER[2])];
    var items := [TWICE_CALLEE[0], TWICE_CALLER[1], TWICE_CALLER[2]];
    assert s.Items() == items;
    Captured(sem, items, d, n);
  }

  lemma {:induction false} Captured<D(!new)>(sem: Sem<D>, items: seq<Item>, d: D, n: nat)
    requires items == [TWICE_CALLEE[0], TWICE_CALLER[1], TWICE_CALLER[2]]
    ensures var l' := Run(Linked(sem, TWO_CALLS, items), Config([In(0)], d), 2 * n);
      l'.Some? && l'.value.locs == [In(0)] + seq(n, _ => In(2))
  {
    var p := Linked(sem, TWO_CALLS, items);
    if n == 0 {
      assert [In(0)] + seq(0, _ => In(2)) == [In(0)];
    } else {
      Captured(sem, items, d, n - 1);
      var l := Run(p, Config([In(0)], d), 2 * n - 2).value;
      RunAdd(p, Config([In(0)], d), 2 * n - 2, 2);
      CapturedAgain(sem, items, l, seq(n - 1, _ => In(2)));
      assert [In(2)] + seq(n - 1, _ => In(2)) == seq(n, _ => In(2));
    }
  }

  lemma {:induction false} CapturedAgain<D(!new)>(sem: Sem<D>, items: seq<Item>, l: Config<Loc, D>, rest: seq<Loc>)
    requires items == [TWICE_CALLEE[0], TWICE_CALLER[1], TWICE_CALLER[2]] && l.locs == [In(0)] + rest
    ensures var l' := Run(Linked(sem, TWO_CALLS, items), l, 2);
      l'.Some? && l'.value.locs == [In(0)] + ([In(2)] + rest)
  {
    hide LinkStep, Run;
    var p := Linked(sem, TWO_CALLS, items);
    CapturedPlain(sem, items, l, rest);
    OneStep(p, l);
    var mid := p(l).value;
    CapturedCall(sem, items, mid, rest);
    OneStep(p, mid);
    RunAdd(p, l, 1, 1);
  }

  lemma {:induction false} CapturedPlain<D(!new)>(sem: Sem<D>, items: seq<Item>, l: Config<Loc, D>, rest: seq<Loc>)
    requires items == [TWICE_CALLEE[0], TWICE_CALLER[1], TWICE_CALLER[2]] && l.locs == [In(0)] + rest
    ensures var l' := LinkStep(sem, TWO_CALLS, items, l); l'.Some? && l'.value.locs == [In(1)] + rest
  {
    hide Fetch, W64;
    assert l.locs[1..] == rest;
  }

  lemma {:induction false} CapturedCall<D(!new)>(sem: Sem<D>, items: seq<Item>, l: Config<Loc, D>, rest: seq<Loc>)
    requires items == [TWICE_CALLEE[0], TWICE_CALLER[1], TWICE_CALLER[2]] && l.locs == [In(1)] + rest
    ensures var l' := LinkStep(sem, TWO_CALLS, items, l);
      l'.Some? && l'.value.locs == [In(0)] + ([In(2)] + rest)
  {
    hide Fetch;
    assert l.locs[1..] == rest && Resolve(items, 1, 0x100B) == 0;
    assert [In(0), In(2)] + rest == [In(0)] + ([In(2)] + rest);
  }
}
