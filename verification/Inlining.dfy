/**
 Inlining: the body of a callee, without its RET, takes the place of the one call of it.

 While control is in the inlined body, the original program has one more return address on its stack than the
 process with the translation: the one that the removed call would have pushed.  So the data are not the same
 either: the stack pointer of the original is one slot further on.  The code around the body may be reordered.
*/
module Inlining {
  import opened Words
  import opened Instructions
  import opened InstrMap
  import opened Machine
  import opened Simulation
  import opened LinkedCode
  import opened Encodability
  import opened MapMemory
  import opened Routines
  import opened Translation
  import opened Reordering

  // ----- Building the list of instructions -----

  /** Entered at its head, one RET, and that one at the end. */
  ghost predicate SingleExit(callee: seq<Item>, address: Addr) {
    && callee != [] && callee[0].addr == address
    && callee[|callee| - 1].code.ins.Ret?
    && forall k :: 0 <= k < |callee| - 1 ==> !callee[k].code.ins.Ret?
  }

  method CanInlineCallee(callee: seq<Item>, address: Addr) returns (ok: bool)
    ensures ok <==> SingleExit(callee, address)
  {
    if callee == [] || !callee[|callee| - 1].code.ins.Ret? || address != callee[0].addr {
      return false;
    }
    var retCount := 0;
    for k := 0 to |callee|
      invariant retCount == 0 || retCount == 1
      invariant retCount == 0 <==> forall i :: 0 <= i < k ==> !callee[i].code.ins.Ret?
      invariant forall i :: 0 <= i < k && callee[i].code.ins.Ret? ==>
        forall j :: 0 <= j < k && j != i ==> !callee[j].code.ins.Ret?
    {
      if callee[k].code.ins.Ret? {
        retCount := retCount + 1;
      }
      if retCount > 1 {
        assert exists i :: 0 <= i < k && callee[i].code.ins.Ret?;
        return false;
      }
    }
    ok := true;
  }

  ghost function WithoutRets(items: seq<Item>): seq<Item> {
    if items == [] then []
    else WithoutRets(items[..|items| - 1]) +
         if items[|items| - 1].code.ins.Ret? then [] else [items[|items| - 1]]
  }

  /** The caller with every instruction at `site` replaced by the callee without its RETs. */
  ghost function Spliced(caller: seq<Item>, site: Addr, callee: seq<Item>): seq<Item> {
    if caller == [] then []
    else
      var last := caller[|caller| - 1];
      Spliced(caller[..|caller| - 1], site, callee) + if last.addr == site then WithoutRets(callee) else [last]
  }

  method SpliceCallee(caller: seq<Item>, site: Addr, callee: seq<Item>) returns (local: seq<Item>)
    ensures local == Spliced(caller, site, callee)
  {
    local := [];
    for i := 0 to |caller|
      invariant local == Spliced(caller[..i], site, callee)
    {
      assert caller[..i + 1][..i] == caller[..i];
      if caller[i].addr != site {
        local := local + [caller[i]];
        continue;
      }
      ghost var before := local;
      for k := 0 to |callee|
        invariant local == before + WithoutRets(callee[..k])
      {
        assert callee[..k + 1][..k] == callee[..k];
        if callee[k].code.ins.Ret? {
          continue;
        }
        local := local + [callee[k]];
      }
      assert callee[..|callee|] == callee;
    }
    assert caller[..|caller|] == caller;
  }

  /** What the inner loop does to each instruction of the callee, one after the other. */
  lemma {:induction false} WithoutRetsConcat(xs: seq<Item>, ys: seq<Item>)
    ensures WithoutRets(xs + ys) == WithoutRets(xs) + WithoutRets(ys)
  {
    if ys == [] {
      assert xs + ys == xs;
    } else {
      assert (xs + ys)[..|xs + ys| - 1] == xs + ys[..|ys| - 1];
      WithoutRetsConcat(xs, ys[..|ys| - 1]);
    }
  }

  /** And the outer loop to each of the caller. */
  lemma {:induction false} SplicedConcat(xs: seq<Item>, ys: seq<Item>, site: Addr, callee: seq<Item>)
    ensures Spliced(xs + ys, site, callee) == Spliced(xs, site, callee) + Spliced(ys, site, callee)
  {
    hide WithoutRets;
    if ys == [] {
      assert xs + ys == xs;
    } else {
      assert (xs + ys)[..|xs + ys| - 1] == xs + ys[..|ys| - 1];
      SplicedConcat(xs, ys[..|ys| - 1], site, callee);
    }
  }

  lemma {:induction false} SplicedOne(it: Item, site: Addr, callee: seq<Item>)
    ensures WithoutRets([it]) == if it.code.ins == Ret then [] else [it]
    ensures Spliced([it], site, callee) == if it.addr == site then WithoutRets(callee) else [it]
  {
    assert [it][..0] == [];
  }

  lemma {:induction false} WithoutRetsNone(items: seq<Item>)
    requires forall k :: 0 <= k < |items| ==> !items[k].code.ins.Ret?
    ensures WithoutRets(items) == items
  {
    if items != [] {
      WithoutRetsNone(items[..|items| - 1]);
    }
  }

  lemma {:induction false} SplicedElsewhere(caller: seq<Item>, site: Addr, callee: seq<Item>)
    requires forall k :: 0 <= k < |caller| ==> caller[k].addr != site
    ensures Spliced(caller, site, callee) == caller
  {
    if caller != [] {
      SplicedElsewhere(caller[..|caller| - 1], site, callee);
    }
  }

  /** With one call at `at` and a callee with a single exit, exactly that call is replaced by the body. */
  lemma {:induction false} SplicedOnce(caller: seq<Item>, at: nat, callee: seq<Item>, address: Addr)
    requires at < |caller| && SingleExit(callee, address)
    requires forall k :: 0 <= k < |caller| && k != at ==> caller[k].addr != caller[at].addr
    ensures Spliced(caller, caller[at].addr, callee) == caller[..at] + callee[..|callee| - 1] + caller[at + 1..]
    decreases |caller|
  {
    var front := caller[..|caller| - 1];
    if at == |caller| - 1 {
      SplicedElsewhere(front, caller[at].addr, callee);
      WithoutRetsNone(callee[..|callee| - 1]);
    } else {
      SplicedOnce(front, at, callee, address);
      assert front[at + 1..] + [caller[|caller| - 1]] == caller[at + 1..];
    }
  }

  // ----- What the spliced code does -----

  /** A layout with the `body` of a callee at `at`, in place of the call `site`; `ret` is the RET that is left out. */
  datatype Inlined = Inlined(layout: seq<Emitted>, at: nat, site: Item, body: seq<Item>, ret: Item) {
    function Items(): seq<Item> { Plainly(layout) }

    /** One past the inlined body. */
    function End(): nat { at + |body| }

    predicate InBody(k: nat) { at <= k < End() }

    predicate HasBody(a: Addr) { exists k :: 0 <= k < |body| && body[k].addr == a }

    predicate OfCallee(a: Addr) { a == ret.addr || HasBody(a) }

    function Head(): Addr { if body == [] then ret.addr else body[0].addr }

    /** The shape: the body stands where the call was, everything comes from the image, and instructions are
        followed by their successors but for the two seams. */
    ghost predicate Shape(image: Segment) {
      && SingleExit(body + [ret], Head())
      && End() < |layout| && layout[at..End()] == KeepAll(body) && Continues(layout[End()], NextOf(site))
      && ReadFrom(image, body) && ReadFrom(image, [site, ret])
      && site.code.ins.Call? && TargetOf(site) == Head()
      && (forall k :: 0 <= k < |body| ==> BodyFollowed(k))
      && (forall k :: 0 <= k < |layout| && !InBody(k) ==> OuterPlaced(image, k))
    }

    predicate BodyFollowed(k: nat)
      requires k < |body|
    {
      NextOf(body[k]) == if k + 1 < |body| then body[k + 1].addr else ret.addr
    }

    /** What `WellPlacedAt` says, the seam in front of the body allowed for. */
    ghost predicate OuterPlaced(image: Segment, k: nat)
      requires k < |layout|
    {
      if layout[k].Kept? then
        var it := layout[k].item;
        && Fetch(image, it.addr) == Some(it.code)
        && (IsDirect(it.code.ins) && JumpBehind(layout, k) ==> TargetOf(it) != it.addr)
        && (NeverFalls(it.code.ins) || Outside(In(k + 1), NextOf(it)))
      else WellPlacedAt(image, layout, k)
    }

    /** No other entry is made from an address of the callee. */
    ghost predicate Apart() {
      && !OfCallee(site.addr)
      && forall k :: 0 <= k < |layout| && !InBody(k) ==>
        !OfCallee(layout[k].item.addr) && !OfCallee(Standing(layout[k]))
    }

    /** The requirements on the callee: it is called from one site only, nothing else branches into it, and its own
        branches stay in it and off the RET that is removed. */
    ghost predicate Inlinable() {
      && Apart()
      && (forall k :: 0 <= k < |layout| && !InBody(k) && IsDirect(layout[k].item.code.ins) ==>
        !HasBody(TargetOf(layout[k].item)))
      && (forall k :: 0 <= k < |body| ==> StaysInCallee(body[k]))
    }

    ghost predicate StaysInCallee(it: Item) {
      && !it.code.ins.JmpReg? && ((it.code.ins.Rip? || it.code.ins.Abs?) ==> !it.code.ins.use.JumpThrough?)
      && (it.code.ins.Call? ==> !HasBody(TargetOf(it)))
      && (IsDirect(it.code.ins) && !it.code.ins.Call? ==>
        OfCallee(TargetOf(it)) && TargetOf(it) != ret.addr && (TargetOf(it) == it.addr ==> it.code.ins.Jmp?))
    }

    /** The callee has a jump to itself at `a`: not chained, it is made in the original code from then on. */
    predicate Spins(a: Addr) {
      exists k :: 0 <= k < |body| && body[k].addr == a && body[k].code.ins.Jmp? && TargetOf(body[k]) == a
    }

    /** `l` stands for `a`, control being outside the inlined body. */
    predicate Outside(l: Loc, a: Addr) {
      match l
      case In(k) => (k == at && a == site.addr) || (k < |layout| && !InBody(k) && Continues(layout[k], a))
      case Out(b) => b == a
    }

    /** `l` stands for `a` in the inlined body; behind its end is the removed RET. */
    predicate Inside(l: Loc, a: Addr) {
      match l
      case In(k) => (InBody(k) && k < |layout| && layout[k].item.addr == a) || (k == End() && a == ret.addr)
      case Out(b) => b == a && Spins(a)
    }

    /** The stacks: a location marked in `inl` is in the inlined body and stands for two, the second being the
        return to the call site. */
    predicate Nested(addrs: seq<Addr>, ls: seq<Loc>, inl: seq<bool>)
      decreases |ls|
    {
      && |inl| == |ls|
      && if ls == [] then addrs == []
         else if inl[0] then
           && |addrs| >= 2 && Inside(ls[0], addrs[0]) && addrs[1] == NextOf(site)
           && Nested(addrs[2..], ls[1..], inl[1..])
         else |addrs| >= 1 && Outside(ls[0], addrs[0]) && Nested(addrs[1..], ls[1..], inl[1..])
    }

    /** The original program is at the call that was removed, or at the RET that was. */
    predicate AtSite(addrs: seq<Addr>, ls: seq<Loc>) {
      addrs != [] && ls != [] && ls[0] == In(at) && addrs[0] == site.addr
    }

    predicate AtRet(addrs: seq<Addr>, ls: seq<Loc>) {
      addrs != [] && ls != [] && ls[0] == In(End()) && addrs[0] == ret.addr
    }

    /** The translated process is at an added jump. */
    predicate AtAdded(ls: seq<Loc>) {
      ls != [] && ls[0].In? && ls[0].index < |layout| && layout[ls[0].index].Added?
    }

    predicate NoJumpsAdded() { forall k :: 0 <= k < |layout| ==> !layout[k].Added? }

    function Rank(addrs: seq<Addr>, ls: seq<Loc>): nat {
      if AtSite(addrs, ls) then 2 else if AtRet(addrs, ls) then 1 else 0
    }

    /** The steps that answer one of the original: the removed call and the removed RET take none, an added jump
        takes one more. */
    function Steps(addrs: seq<Addr>, ls: seq<Loc>): (n: nat)
      ensures NoJumpsAdded() ==> n <= 1
    {
      if AtSite(addrs, ls) || AtRet(addrs, ls) then 0 else if AtAdded(ls) then 2 else 1
    }
  }

  /** What splicing makes of a caller and a callee, each in one piece, has that shape, also with a well placed layout
      of other code `behind` it. */
  lemma {:induction false} SplicedShape(
      image: Segment, caller: seq<Item>, at: nat, callee: seq<Item>, behind: seq<Emitted>)
    requires at + 1 < |caller| && ReadFrom(image, caller) && ReadFrom(image, callee)
    requires forall k :: 0 <= k < |caller| && k != at ==> caller[k].addr != caller[at].addr
    requires forall k :: 0 <= k < |caller| - 1 ==> caller[k + 1].addr == NextOf(caller[k])
    requires NeverFalls(caller[|caller| - 1].code.ins)
    requires callee != [] && SingleExit(callee, callee[0].addr)
    requires forall k :: 0 <= k < |callee| - 1 ==> callee[k + 1].addr == NextOf(callee[k])
    requires caller[at].code.ins.Call? && TargetOf(caller[at]) == callee[0].addr
    requires WellPlaced(image, behind)
    ensures SplicedIn(caller, at, callee, behind).Shape(image)
  {
    hide W64, Fetch, TargetOf, NextOf, NeverFalls, Spliced, Inlined.OuterPlaced, WellPlaced;
    SplicedOnce(caller, at, callee, callee[0].addr);
    var m := |callee| - 1;
    var body, ret := callee[..m], callee[m];
    var s := SplicedIn(caller, at, callee, behind);
    assert body + [ret] == callee;
    assert s.layout == KeepAll(caller[..at] + body + caller[at + 1..]) + behind;
    forall k | 0 <= k < |s.layout| && !s.InBody(k) ensures s.OuterPlaced(image, k) {
      SplicedOuter(image, caller, at, s, behind, k);
    }
    SplicedAt(caller, at, body, behind, s.End());
    forall k | 0 <= k < m ensures s.BodyFollowed(k) {
      assert body[k] == callee[k] && callee[k + 1].addr == NextOf(callee[k]);
    }
    assert s.layout[at..s.End()] == KeepAll(body) && s.Head() == callee[0].addr;
    assert ReadFrom(image, body) && ReadFrom(image, [s.site, s.ret]);
    assert SingleExit(s.body + [s.ret], s.Head());
  }

  /** Which instruction of the caller is at `k`. */
  lemma {:induction false} SplicedAt(caller: seq<Item>, at: nat, body: seq<Item>, behind: seq<Emitted>, k: nat)
    requires at < |caller| && k < |caller| - 1 + |body| && !(at <= k < at + |body|)
    ensures var items := caller[..at] + body + caller[at + 1..]; var i := if k < at then k else k - |body| + 1;
      |items| == |caller| - 1 + |body| && (KeepAll(items) + behind)[k] == Kept(caller[i])
  {
    var items := caller[..at] + body + caller[at + 1..];
    assert items[k] == if k < at then caller[k] else caller[at + 1..][k - at - |body|];
  }

  lemma {:induction false} SplicedOuter(
      image: Segment, caller: seq<Item>, at: nat, s: Inlined, behind: seq<Emitted>, k: nat)
    requires at + 1 < |caller| && ReadFrom(image, caller) && NeverFalls(caller[|caller| - 1].code.ins)
    requires forall i :: 0 <= i < |caller| - 1 ==> caller[i + 1].addr == NextOf(caller[i])
    requires s.layout == KeepAll(caller[..at] + s.body + caller[at + 1..]) + behind
    requires s.at == at && s.site == caller[at]
    requires WellPlaced(image, behind) && k < |s.layout| && !s.InBody(k)
    ensures s.OuterPlaced(image, k)
  {
    hide W64, Fetch, TargetOf, NextOf, NeverFalls, Inlined.OuterPlaced, WellPlacedAt;
    var n := |caller| - 1 + |s.body|;
    if k < n {
      SplicedCaller(image, caller, at, s, behind, k);
    } else {
      assert behind != [] && WellPlacedAt(image, behind, 0) && WellPlacedAt(image, behind, k - n);
      HeadNotAdded(image, behind);
      SuffixAt(image, s.layout[..n], behind, k - n);
      assert s.layout == s.layout[..n] + behind;
      OuterBehind(image, s, k);
    }
  }

  lemma {:induction false} HeadNotAdded(image: Segment, layout: seq<Emitted>)
    requires layout != [] && WellPlacedAt(image, layout, 0)
    ensures !layout[0].Added?
  {
  }

  lemma {:induction false} SplicedCaller(
      image: Segment, caller: seq<Item>, at: nat, s: Inlined, behind: seq<Emitted>, k: nat)
    requires at + 1 < |caller| && ReadFrom(image, caller) && NeverFalls(caller[|caller| - 1].code.ins)
    requires forall i :: 0 <= i < |caller| - 1 ==> caller[i + 1].addr == NextOf(caller[i])
    requires s.layout == KeepAll(caller[..at] + s.body + caller[at + 1..]) + behind
    requires s.at == at && s.site == caller[at]
    requires WellPlaced(image, behind) && k < |caller| - 1 + |s.body| && !s.InBody(k)
    ensures s.OuterPlaced(image, k)
  {
    hide W64, Fetch, TargetOf, NextOf, NeverFalls, WellPlacedAt;
    var n := |caller| - 1 + |s.body|;
    SplicedAt(caller, at, s.body, behind, k);
    if k + 1 == n && behind != [] {
      assert WellPlacedAt(image, behind, 0) && s.layout[n] == behind[0];
      HeadNotAdded(image, behind);
    } else if k + 1 < n && !s.InBody(k + 1) {
      SplicedAt(caller, at, s.body, behind, k + 1);
    }
    assert s.InBody(k + 1) ==> k + 1 == at;
  }

  lemma {:induction false} OuterBehind(image: Segment, s: Inlined, k: nat)
    requires k < |s.layout| && s.at + |s.body| <= k && WellPlacedAt(image, s.layout, k)
    ensures s.OuterPlaced(image, k)
  {
    hide W64, Fetch, TargetOf, NextOf, NeverFalls;
  }

  /** The inlining of `callee` at the call `at` of `caller`. */
  ghost function SplicedIn(caller: seq<Item>, at: nat, callee: seq<Item>, behind: seq<Emitted>): Inlined
    requires at < |caller| && callee != []
  {
    Inlined(KeepAll(Spliced(caller, caller[at].addr, callee)) + behind, at, caller[at], callee[..|callee| - 1],
            callee[|callee| - 1])
  }

  /** One map for both rewrites: the caller with the callee inlined, and behind it a reordered routine whose
      displacements are right. */
  lemma {:induction false} CombinedShape(
      image: Segment, caller: seq<Item>, at: nat, callee: seq<Item>,
      rtn: seq<Item>, edges: seq<BlockEdge>, ds: Displacements)
    requires at + 1 < |caller| && ReadFrom(image, caller) && ReadFrom(image, callee)
    requires forall k :: 0 <= k < |caller| && k != at ==> caller[k].addr != caller[at].addr
    requires forall k :: 0 <= k < |caller| - 1 ==> caller[k + 1].addr == NextOf(caller[k])
    requires NeverFalls(caller[|caller| - 1].code.ins)
    requires callee != [] && SingleExit(callee, callee[0].addr)
    requires forall k :: 0 <= k < |callee| - 1 ==> callee[k + 1].addr == NextOf(callee[k])
    requires caller[at].code.ins.Call? && TargetOf(caller[at]) == callee[0].addr
    requires Reorderable(image, rtn) && Selected(rtn, edges) && FirstRight(rtn, ds) && AllRight(rtn, edges, ds)
    ensures SplicedIn(caller, at, callee, Layout(rtn, edges, ds)).Shape(image)
  {
    hide W64, Fetch, TargetOf, NextOf, NeverFalls, Inlined.Shape, FirstRight, AllRight, Reorderable, Layout,
      WellPlaced;
    LayoutWellPlacedIff(image, rtn, edges, ds);
    SplicedShape(image, caller, at, callee, Layout(rtn, edges, ds));
  }

  lemma {:induction false} ShapeJumps(s: Inlined, image: Segment)
    requires s.Shape(image)
    ensures JumpsFollow(s.layout)
  {
    hide Fetch, TargetOf, NextOf;
    forall k | 0 <= k < |s.layout| && s.layout[k].Added? ensures FollowsTail(s.layout, k) {
      if s.InBody(k) {
        BodyItem(s, image, k);
      } else {
        assert s.OuterPlaced(image, k);
      }
    }
  }

  lemma {:induction false} BodyItem(s: Inlined, image: Segment, k: nat)
    requires s.Shape(image) && s.InBody(k)
    ensures k < |s.layout| && s.layout[k] == Kept(s.body[k - s.at]) && s.HasBody(s.layout[k].item.addr)
    ensures Fetch(image, s.layout[k].item.addr) == Some(s.layout[k].item.code)
  {
    hide Fetch, TargetOf, NextOf;
    assert s.layout[k] == s.layout[s.at..s.End()][k - s.at];
  }

  lemma {:induction false} NestedOutside(s: Inlined, a: Addr, l: Loc, addrs: seq<Addr>, ls: seq<Loc>, inl: seq<bool>)
    requires s.Outside(l, a) && s.Nested(addrs, ls, inl)
    ensures s.Nested([a] + addrs, [l] + ls, [false] + inl)
  {
    assert ([a] + addrs)[1..] == addrs && ([l] + ls)[1..] == ls && ([false] + inl)[1..] == inl;
  }

  lemma {:induction false} NestedInside(s: Inlined, a: Addr, l: Loc, addrs: seq<Addr>, ls: seq<Loc>, inl: seq<bool>)
    requires s.Inside(l, a) && s.Nested(addrs, ls, inl)
    ensures s.Nested([a, NextOf(s.site)] + addrs, [l] + ls, [true] + inl)
  {
    assert ([a, NextOf(s.site)] + addrs)[2..] == addrs && ([l] + ls)[1..] == ls && ([true] + inl)[1..] == inl;
  }

  /** A call out of the inlined body: the callee of that call is outside, the return into the body inside. */
  lemma {:induction false} NestedCall(
      s: Inlined, a: Addr, l: Loc, fall: Addr, lfall: Loc, addrs: seq<Addr>, ls: seq<Loc>, inl: seq<bool>)
    requires s.Outside(l, a) && s.Inside(lfall, fall) && s.Nested(addrs, ls, inl)
    ensures s.Nested([a, fall, NextOf(s.site)] + addrs, [l, lfall] + ls, [false, true] + inl)
  {
    NestedInside(s, fall, lfall, addrs, ls, inl);
    NestedOutside(s, a, l, [fall, NextOf(s.site)] + addrs, [lfall] + ls, [true] + inl);
    assert [a] + ([fall, NextOf(s.site)] + addrs) == [a, fall, NextOf(s.site)] + addrs;
    assert [l] + ([lfall] + ls) == [l, lfall] + ls && [false] + ([true] + inl) == [false, true] + inl;
  }

  /**
   Which branches from outside keep their meaning: all but those to the body.  A direct call of the callee from
   anywhere else is chained into the copy, which has no RET; one to the RET itself goes out to the original.
  */
  lemma {:induction false} OutsideIff(s: Inlined, image: Segment, k: nat, t: Addr)
    requires s.Shape(image) && s.Apart() && k < |s.layout| && !s.InBody(k)
    requires JumpBehind(s.layout, k) ==> s.layout[k].Added? || t != s.layout[k].item.addr
    ensures s.Outside(Link(s.Items(), k, t), t) <==> forall i :: 0 <= i < |s.body| ==> s.body[i].addr != t
  {
    hide W64, Fetch, TargetOf, NextOf, Inlined.Shape;
    LinkOutside(s, image, k, t);
    if i :| 0 <= i < |s.body| && s.body[i].addr == t {
      BodyItem(s, image, s.at + i);
      var r := Resolve(s.Items(), k, t);
      assert s.Items()[s.at + i].addr == t;
      assert s.InBody(r);
    }
  }

  /** A branch that is not to the body goes to a location outside, and never to an added jump. */
  lemma {:induction false} LinkOutside(s: Inlined, image: Segment, k: nat, t: Addr)
    requires s.Shape(image) && k < |s.layout|
    requires JumpBehind(s.layout, k) ==> s.layout[k].Added? || t != s.layout[k].item.addr
    ensures !s.HasBody(t) ==> s.Outside(Link(s.Items(), k, t), t)
    ensures ArrivesAt(s.layout, Link(s.Items(), k, t), t)
  {
    hide W64, Fetch, TargetOf, NextOf, Inlined.Shape;
    ShapeJumps(s, image);
    LinkStands(s.layout, k, t);
    var r := Resolve(s.Items(), k, t);
    if r >= 0 && s.InBody(r) {
      BodyItem(s, image, r);
    }
  }

  /** The address of the RET is none of the body's, which has no RET. */
  lemma {:induction false} RetNotInBody(s: Inlined, image: Segment)
    requires s.Shape(image)
    ensures !s.HasBody(s.ret.addr)
  {
    hide W64, Fetch, TargetOf, NextOf;
    CodeAt(image, [s.site, s.ret], 1);
    assert (s.body + [s.ret])[|s.body|] == s.ret;
    forall i | 0 <= i < |s.body| ensures s.body[i].addr != s.ret.addr {
      CodeAt(image, s.body, i);
      assert (s.body + [s.ret])[i] == s.body[i];
    }
  }

  /** A branch within the body goes to a location in the body. */
  lemma {:induction false} LinkInside(s: Inlined, image: Segment, j: nat, t: Addr)
    requires s.Shape(image) && s.Apart() && s.InBody(j)
    requires s.HasBody(t) && (t == s.layout[j].item.addr ==> s.Spins(t))
    ensures s.Inside(Link(s.Items(), j, t), t)
  {
    hide W64, Fetch, TargetOf, NextOf, Inlined.Shape, Inlined.Spins;
    var i :| 0 <= i < |s.body| && s.body[i].addr == t;
    BodyItem(s, image, s.at + i);
    var r := Resolve(s.Items(), j, t);
    assert s.Items()[s.at + i].addr == t;
    assert r >= 0 ==> s.Items()[r].addr == t;
  }

  /**
   Which branches of the callee to another instruction of it keep their meaning: all but those to its RET.  The RET
   is not in the copy, so such a branch goes out to the original one, and that returns from the caller.
  */
  lemma {:induction false} InsideIff(s: Inlined, image: Segment, j: nat, t: Addr)
    requires s.Shape(image) && s.Apart() && s.InBody(j)
    requires s.OfCallee(t) && t != s.layout[j].item.addr
    ensures s.Inside(Link(s.Items(), j, t), t) <==> t != s.ret.addr
  {
    hide W64, Fetch, TargetOf, NextOf, Inlined.Shape;
    RetNotInBody(s, image);
    if t == s.ret.addr {
      RetLink(s, image, j);
    } else {
      LinkInside(s, image, j, t);
    }
  }

  lemma {:induction false} RetLink(s: Inlined, image: Segment, j: nat)
    requires s.Shape(image) && s.Apart()
    ensures Link(s.Items(), j, s.ret.addr) == Out(s.ret.addr)
  {
    hide W64, Fetch, TargetOf, NextOf, Inlined.Shape;
    RetNotInBody(s, image);
    var r := Resolve(s.Items(), j, s.ret.addr);
    if r >= 0 && s.InBody(r) {
      BodyItem(s, image, r);
    }
  }

  /** Whether the locations moved to are in the inlined body: a call leaves it, everything else stays where it is. */
  function Flags(inl: seq<bool>, n: nat): seq<bool> {
    if n == |inl| + 1 then [false] + inl else if n + 1 == |inl| then inl[1..] else inl
  }

  /** What is claimed of each step, as far as locations go, the data being the same to begin with: the removed call
      and the removed RET take no step of the linked code, everything else is answered. */
  ghost predicate Answers<D(!new)>(
    sem: Sem<D>, image: Segment, s: Inlined, c: Config<Addr, D>, ls: seq<Loc>, inl: seq<bool>)
    requires ls != [] ==> inl != []
  {
    var c' := Step(sem, Original(image), c);
    c'.Some? ==>
      && ls != []
      && if s.AtSite(c.locs, ls) then
        !inl[0] && c'.value.data == sem.call(c.data) && s.Nested(c'.value.locs, ls, [true] + inl[1..])
      else if s.AtRet(c.locs, ls) then
        && inl[0] && c'.value.data == sem.ret(c.data) && s.Nested(c'.value.locs, ls, [false] + inl[1..])
        && c'.value.locs != [] && c'.value.locs[0] == NextOf(s.site)
      else if s.AtAdded(ls) then
        var l' := LinkStep(sem, image, s.Items(), Config(ls, c.data));
        && l'.Some? && l'.value.data == c.data && |l'.value.locs| == |ls| && !inl[0]
        && s.Nested(c.locs, l'.value.locs, inl)
        && l'.value.locs != [] && !s.AtSite(c.locs, l'.value.locs) && !s.AtRet(c.locs, l'.value.locs)
        && !s.AtAdded(l'.value.locs)
      else
        var l' := LinkStep(sem, image, s.Items(), Config(ls, c.data));
        && l'.Some? && c'.value.data == l'.value.data
        && s.Nested(c'.value.locs, l'.value.locs, Flags(inl, |l'.value.locs|))
        && (inl[0] ==> ls[0] != In(s.End()) && |l'.value.locs| >= |ls|)
  }

  /** The address of the call is none of the callee's, and an instruction never follows itself. */
  lemma {:induction false} SiteOutside(s: Inlined, image: Segment)
    requires s.Shape(image) && s.Apart()
    ensures forall k :: s.Inside(In(k), s.site.addr) ==> false
    ensures NextOf(s.site) != s.site.addr && !s.OfCallee(NextOf(s.site))
  {
    hide Fetch, TargetOf, NextOf;
    forall k | s.Inside(In(k), s.site.addr) ensures false {
      if s.InBody(k) {
        BodyItem(s, image, k);
      }
    }
    assert Fetch(image, [s.site, s.ret][0].addr) == Some(s.site.code);
    FetchNext(image, s.site);
    assert !s.InBody(s.End()) && Standing(s.layout[s.End()]) == NextOf(s.site);
  }

  lemma {:induction false} StepAtSite<D(!new)>(
      sem: Sem<D>, image: Segment, s: Inlined, c: Config<Addr, D>, ls: seq<Loc>, inl: seq<bool>)
    requires s.Shape(image) && s.Apart() && s.Nested(c.locs, ls, inl) && s.AtSite(c.locs, ls)
    ensures Answers(sem, image, s, c, ls, inl)
  {
    hide W64, Fetch, Resolve, TargetOf, ReadFrom;
    var rest, lrest, irest := c.locs[1..], ls[1..], inl[1..];
    CodeAt(image, [s.site, s.ret], 0);
    SiteOutside(s, image);
    assert !s.Inside(ls[0], c.locs[0]) && !inl[0] && s.Nested(rest, lrest, irest);
    DirectTarget(s.site);
    FirstInside(s, image);
    NestedInside(s, s.Head(), In(s.at), rest, lrest, irest);
    assert [In(s.at)] + lrest == ls;
    assert [s.Head(), NextOf(s.site)] + rest == [s.Head()] + ([NextOf(s.site)] + rest);
  }

  lemma {:induction false} FirstInside(s: Inlined, image: Segment)
    requires s.Shape(image)
    ensures s.Inside(In(s.at), s.Head())
  {
    hide Fetch, TargetOf;
    if s.at < s.End() {
      BodyItem(s, image, s.at);
    }
  }

  lemma {:induction false} StepAtRet<D(!new)>(
      sem: Sem<D>, image: Segment, s: Inlined, c: Config<Addr, D>, ls: seq<Loc>, inl: seq<bool>)
    requires s.Shape(image) && s.Apart() && s.Nested(c.locs, ls, inl)
    requires s.AtRet(c.locs, ls) && !s.AtSite(c.locs, ls)
    ensures Answers(sem, image, s, c, ls, inl)
  {
    hide W64, Fetch, Resolve, TargetOf;
    assert s.OfCallee(s.ret.addr) && !s.InBody(s.End());
    assert !s.Outside(ls[0], c.locs[0]) && inl[0];
    CodeAt(image, [s.site, s.ret], 1);
    assert (s.body + [s.ret])[|s.body|] == s.ret;
    var rest := c.locs[2..];
    assert s.Outside(In(s.End()), NextOf(s.site));
    NestedOutside(s, NextOf(s.site), In(s.End()), rest, ls[1..], inl[1..]);
    assert [NextOf(s.site)] + rest == c.locs[1..] && [In(s.End())] + ls[1..] == ls;
  }

  /** The same instruction on both sides, from the image and from the layout. */
  lemma {:induction false} EntrySteps<D(!new)>(
      sem: Sem<D>, image: Segment, items: seq<Item>, c: Config<Addr, D>, ls: seq<Loc>, k: nat)
    requires k < |items| && Fetch(image, items[k].addr) == Some(items[k].code)
    requires c.locs != [] && ls != [] && ls[0] == In(k) && c.locs[0] == items[k].addr
    ensures var (d, ctl) := Effect(sem, items[k].code.ins, NextOf(items[k]), c.data);
      && Step(sem, Original(image), c) == Landed(Move(ctl, NextOf(items[k]), Goal(ctl), c.locs[1..]), d)
      && LinkStep(sem, image, items, Config(ls, c.data)) ==
         Landed(Move(ctl, In(k + 1), Target(items, k, ctl), ls[1..]), d)
  {
    hide W64, Fetch, Effect, Target;
  }

  lemma {:induction false} StepInside<D(!new)>(
      sem: Sem<D>, image: Segment, s: Inlined, c: Config<Addr, D>, ls: seq<Loc>, inl: seq<bool>)
    requires s.Shape(image) && s.Inlinable() && s.Nested(c.locs, ls, inl) && ls != [] && inl[0] && ls[0].In?
    requires !s.AtSite(c.locs, ls) && !s.AtRet(c.locs, ls)
    ensures Answers(sem, image, s, c, ls, inl)
  {
    hide W64, Fetch, Resolve, TargetOf, ReadFrom, Inlined.Nested, Inlined.Inside, Inlined.Outside, Inlined.Shape,
      Inlined.Inlinable, Inlined.StaysInCallee, Inlined.Apart, Inlined.HasBody, Inlined.OfCallee, NextOf, Effect, Link,
      Step, LinkStep;
    NestedTop(s, c.locs, ls, inl);
    var k := InsideIndex(s, ls[0], c.locs[0]);
    BodyItem(s, image, k);
    var it := s.layout[k].item;
    BodyStays(s, image, k);
    BodyFalls(s, image, k);
    var (d, ctl) := Effect(sem, it.code.ins, NextOf(it), c.data);
    var rest, lrest, irest := c.locs[2..], ls[1..], inl[1..];
    assert c.locs[1..] == [NextOf(s.site)] + rest && inl == [true] + irest;
    BodyControl(sem, s, it, c.data);
    assert s.Items()[k] == it;
    EntrySteps(sem, image, s.Items(), c, ls, k);
    match ctl
    case Fall =>
      NestedInside(s, NextOf(it), In(k + 1), rest, lrest, irest);
      assert [NextOf(it)] + c.locs[1..] == [NextOf(it), NextOf(s.site)] + rest;
    case Jump(_, t) =>
      LinkInside(s, image, k, t);
      NestedInside(s, t, Link(s.Items(), k, t), rest, lrest, irest);
      assert [t] + c.locs[1..] == [t, NextOf(s.site)] + rest;
    case CallTo(direct, t) =>
      var goto := Target(s.Items(), k, ctl);
      if direct { LinkOutside(s, image, k, t); } else { OutOutside(s, t); }
      NestedCall(s, t, goto, NextOf(it), In(k + 1), rest, lrest, irest);
      assert [t, NextOf(it)] + c.locs[1..] == [t, NextOf(it), NextOf(s.site)] + rest;
      assert [false] + inl == [false, true] + irest;
    case Return =>
  }

  /** The original goes round in a jump to itself, and so does the process, in the original code. */
  lemma {:induction false} StepSpins<D(!new)>(
      sem: Sem<D>, image: Segment, s: Inlined, c: Config<Addr, D>, ls: seq<Loc>, inl: seq<bool>)
    requires s.Shape(image) && s.Nested(c.locs, ls, inl) && ls != [] && inl[0] && ls[0].Out?
    ensures Answers(sem, image, s, c, ls, inl)
  {
    hide W64, Fetch, Resolve, TargetOf, ReadFrom, Inlined.Nested, Inlined.Shape;
    NestedTop(s, c.locs, ls, inl);
    var a := c.locs[0];
    var k :| 0 <= k < |s.body| && s.body[k].addr == a && s.body[k].code.ins.Jmp? && TargetOf(s.body[k]) == a;
    BodyItem(s, image, s.at + k);
    DirectTarget(s.body[k]);
    assert [a] + c.locs[1..] == c.locs && [Out(a)] + ls[1..] == ls;
  }

  lemma {:induction false} NestedTop(s: Inlined, addrs: seq<Addr>, ls: seq<Loc>, inl: seq<bool>)
    requires s.Nested(addrs, ls, inl) && ls != []
    ensures inl != []
    ensures inl[0] ==> |addrs| >= 2 && s.Inside(ls[0], addrs[0]) && addrs[1] == NextOf(s.site)
    ensures inl[0] ==> s.Nested(addrs[2..], ls[1..], inl[1..])
    ensures !inl[0] ==> |addrs| >= 1 && s.Outside(ls[0], addrs[0]) && s.Nested(addrs[1..], ls[1..], inl[1..])
  {
  }

  lemma {:induction false} InsideIndex(s: Inlined, l: Loc, a: Addr) returns (k: nat)
    requires s.Inside(l, a) && l.In? && !(l == In(s.End()) && a == s.ret.addr)
    ensures l == In(k) && s.InBody(k) && k < |s.layout| && s.layout[k].item.addr == a
  {
    k := l.index;
  }

  lemma {:induction false} OutOutside(s: Inlined, a: Addr)
    ensures s.Outside(Out(a), a)
  {
  }

  lemma {:induction false} CodeAt(image: Segment, items: seq<Item>, k: nat)
    requires ReadFrom(image, items) && k < |items|
    ensures Fetch(image, items[k].addr) == Some(items[k].code)
  {
  }

  lemma {:induction false} BodyStays(s: Inlined, image: Segment, k: nat)
    requires s.Shape(image) && s.Inlinable() && s.InBody(k)
    ensures s.StaysInCallee(s.layout[k].item) && !s.layout[k].item.code.ins.Ret? && s.Apart()
    ensures s.layout[k].item in s.body
  {
    hide W64, Fetch, TargetOf;
    BodyItem(s, image, k);
    assert s.layout[k].item == (s.body + [s.ret])[k - s.at];
  }

  /** Behind a body instruction comes the next one, or the place of the removed RET. */
  lemma {:induction false} BodyFalls(s: Inlined, image: Segment, k: nat)
    requires s.Shape(image) && s.InBody(k)
    ensures s.Inside(In(k + 1), NextOf(s.layout[k].item))
  {
    hide W64, Fetch, TargetOf;
    BodyItem(s, image, k);
    assert s.BodyFollowed(k - s.at);
    if k + 1 < s.End() {
      BodyItem(s, image, k + 1);
      assert s.InBody(k + 1) && s.layout[k + 1].item.addr == NextOf(s.layout[k].item);
    } else {
      assert k + 1 == s.End() && NextOf(s.layout[k].item) == s.ret.addr;
    }
  }

  lemma {:induction false} BodyControl<D>(sem: Sem<D>, s: Inlined, it: Item, d: D)
    requires s.StaysInCallee(it) && it in s.body && !it.code.ins.Ret?
    ensures match Effect(sem, it.code.ins, NextOf(it), d).1
      case Jump(direct, t) => direct && s.HasBody(t) && (t == it.addr ==> s.Spins(t))
      case CallTo(direct, t) => direct ==> !s.HasBody(t) && t != it.addr
      case Return => false
      case Fall => true
  {
    hide W64, TargetOf, NextOf, Holds;
    if IsDirect(it.code.ins) {
      DirectTarget(it);
    }
  }

  lemma {:induction false} StepOutside<D(!new)>(
      sem: Sem<D>, image: Segment, s: Inlined, c: Config<Addr, D>, ls: seq<Loc>, inl: seq<bool>)
    requires s.Shape(image) && s.Inlinable() && s.Nested(c.locs, ls, inl) && ls != [] && !inl[0]
    requires !s.AtSite(c.locs, ls) && !s.AtRet(c.locs, ls)
    ensures Answers(sem, image, s, c, ls, inl)
  {
    hide W64, Fetch, Resolve, TargetOf, ReadFrom, Inlined.Nested, Inlined.Inside, Inlined.Outside, Inlined.Inlinable,
      Inlined.Shape, Answers, Effect;
    NestedTop(s, c.locs, ls, inl);
    match ls[0]
    case Out(a) =>
      OutsideOut(s, a, c.locs[0]);
      StepOut(sem, image, s, c, ls, inl);
    case In(k) =>
      OutsideIndex(s, k, c.locs[0]);
      if s.layout[k].Added? {
        StepAdded(sem, image, s, c, ls, inl, k);
      } else if s.layout[k].Inverted? {
        StepInverted(sem, image, s, c, ls, inl, k);
      } else {
        StepKept(sem, image, s, c, ls, inl, k);
      }
  }

  lemma {:induction false} StepOut<D(!new)>(
      sem: Sem<D>, image: Segment, s: Inlined, c: Config<Addr, D>, ls: seq<Loc>, inl: seq<bool>)
    requires ls != [] && inl != [] && c.locs != [] && ls[0] == Out(c.locs[0]) && !inl[0]
    requires s.Nested(c.locs[1..], ls[1..], inl[1..])
    ensures Answers(sem, image, s, c, ls, inl)
  {
    hide W64, Fetch, Resolve, Inlined.Nested, Inlined.Outside;
    var a := c.locs[0];
    if Fetch(image, a).Some? {
      var code := Fetch(image, a).value;
      var next := W64(a + code.len);
      var ctl := Effect(sem, code.ins, next, c.data).1;
      OutOutside(s, next);
      OutOutside(s, Goal(ctl));
      MovesNested(s, ctl, next, Out(next), Out(Goal(ctl)), c.locs[1..], ls[1..], inl[1..]);
      assert [false] + inl[1..] == inl;
    }
  }

  lemma {:induction false} StepKept<D(!new)>(
      sem: Sem<D>, image: Segment, s: Inlined, c: Config<Addr, D>, ls: seq<Loc>, inl: seq<bool>, k: nat)
    requires s.Shape(image) && s.Inlinable() && !s.AtSite(c.locs, ls) && !s.AtRet(c.locs, ls)
    requires ls != [] && inl != [] && c.locs != [] && ls[0] == In(k) && !inl[0]
    requires k < |s.layout| && !s.InBody(k) && s.layout[k].Kept? && s.layout[k].item.addr == c.locs[0]
    requires s.Nested(c.locs[1..], ls[1..], inl[1..])
    ensures Answers(sem, image, s, c, ls, inl)
  {
    hide W64, Fetch, Resolve, TargetOf, ReadFrom, Inlined.Nested, Inlined.Inside, Inlined.Outside, Inlined.Inlinable,
      Inlined.Shape, NextOf, Link, Step, LinkStep;
    var it := s.layout[k].item;
    PlacedOutside(s, image, k);
    assert s.Items()[k] == it;
    EntrySteps(sem, image, s.Items(), c, ls, k);
    var ctl := Effect(sem, it.code.ins, NextOf(it), c.data).1;
    var goto := Target(s.Items(), k, ctl);
    EffectFalls(sem, it.code.ins, NextOf(it), c.data);
    if ctl.Jump? || ctl.CallTo? {
      if ctl.direct {
        DirectTarget(it);
        LinkOutside(s, image, k, ctl.dest);
      } else {
        OutOutside(s, ctl.dest);
      }
    }
    MovesNested(s, ctl, NextOf(it), In(k + 1), goto, c.locs[1..], ls[1..], inl[1..]);
    assert [false] + inl[1..] == inl;
  }

  lemma {:induction false} PlacedOutside(s: Inlined, image: Segment, k: nat)
    requires s.Shape(image) && s.Inlinable() && k < |s.layout| && !s.InBody(k)
    ensures s.OuterPlaced(image, k) && s.Apart() && !s.OfCallee(Standing(s.layout[k]))
    ensures IsDirect(s.layout[k].item.code.ins) ==> !s.HasBody(TargetOf(s.layout[k].item))
  {
    hide W64, Fetch, TargetOf, NextOf;
  }

  lemma {:induction false} StepInverted<D(!new)>(
      sem: Sem<D>, image: Segment, s: Inlined, c: Config<Addr, D>, ls: seq<Loc>, inl: seq<bool>, k: nat)
    requires s.Shape(image) && s.Inlinable() && !s.AtSite(c.locs, ls) && !s.AtRet(c.locs, ls)
    requires ls != [] && inl != [] && c.locs != [] && ls[0] == In(k) && !inl[0]
    requires k < |s.layout| && !s.InBody(k) && s.layout[k].Inverted? && s.layout[k].item.addr == c.locs[0]
    requires s.Nested(c.locs[1..], ls[1..], inl[1..])
    ensures Answers(sem, image, s, c, ls, inl)
  {
    hide W64, Fetch, Resolve, TargetOf, Effect, Inlined.Nested, Inlined.Inside, Inlined.Outside, Inlined.Inlinable,
      Inlined.Shape;
    PlacedOutside(s, image, k);
    InvertedControl(sem, image, s.layout, k, c.data);
    var Inverted(it, orig) := s.layout[k];
    assert s.Items()[k] == it;
    LinkOutside(s, image, k, NextOf(orig));
    AddedOutside(s, image, k + 1);
    var goto := Link(s.Items(), k, NextOf(orig));
    NestedOutside(s, NextOf(orig), goto, c.locs[1..], ls[1..], inl[1..]);
    NestedOutside(s, TargetOf(orig), In(k + 1), c.locs[1..], ls[1..], inl[1..]);
    assert [false] + inl[1..] == inl;
  }

  lemma {:induction false} AddedOutside(s: Inlined, image: Segment, k: nat)
    requires s.Shape(image) && k < |s.layout| && s.layout[k].Added?
    ensures s.Outside(In(k), Standing(s.layout[k]))
  {
    hide W64, Fetch, TargetOf, NextOf;
    if s.InBody(k) {
      BodyItem(s, image, k);
    }
  }

  lemma {:induction false} StepAdded<D(!new)>(
      sem: Sem<D>, image: Segment, s: Inlined, c: Config<Addr, D>, ls: seq<Loc>, inl: seq<bool>, k: nat)
    requires s.Shape(image) && s.Inlinable() && !s.AtSite(c.locs, ls) && !s.AtRet(c.locs, ls)
    requires ls != [] && inl != [] && c.locs != [] && ls[0] == In(k) && !inl[0]
    requires k < |s.layout| && !s.InBody(k) && s.layout[k].Added? && Standing(s.layout[k]) == c.locs[0]
    requires s.Nested(c.locs[1..], ls[1..], inl[1..])
    ensures Answers(sem, image, s, c, ls, inl)
  {
    hide W64, Fetch, Resolve, TargetOf, NextOf, Inlined.Nested, Inlined.Inside, Inlined.Outside, Inlined.Inlinable,
      Inlined.Shape, Link;
    PlacedOutside(s, image, k);
    var it, a := s.layout[k].item, c.locs[0];
    assert s.Items()[k] == it && it.code.ins.Jmp? && TargetOf(it) == a;
    DirectTarget(it);
    LinkOutside(s, image, k, a);
    var goto := Link(s.Items(), k, a);
    NestedOutside(s, a, goto, c.locs[1..], ls[1..], inl[1..]);
    assert [a] + c.locs[1..] == c.locs && [false] + inl[1..] == inl;
    NotAtSeams(s, image, goto, a);
  }

  /** Behind an added jump control is neither at the removed call nor at the removed RET. */
  lemma {:induction false} NotAtSeams(s: Inlined, image: Segment, l: Loc, a: Addr)
    requires s.Shape(image) && s.Apart() && ArrivesAt(s.layout, l, a) && !s.OfCallee(a)
    ensures !(l == In(s.at) && a == s.site.addr) && !(l == In(s.End()) && a == s.ret.addr)
  {
    hide W64, Fetch, TargetOf, NextOf;
    SiteOutside(s, image);
    if l == In(s.at) && s.InBody(s.at) {
      BodyItem(s, image, s.at);
    }
  }

  lemma {:induction false} OutsideOut(s: Inlined, b: Addr, a: Addr)
    requires s.Outside(Out(b), a)
    ensures a == b
  {
  }

  lemma {:induction false} OutsideIndex(s: Inlined, k: nat, a: Addr)
    requires s.Outside(In(k), a) && !(k == s.at && a == s.site.addr)
    ensures k < |s.layout| && !s.InBody(k) && Standing(s.layout[k]) == a
  {
  }

  lemma {:induction false} MovesNested(
      s: Inlined, ctl: Control, fall: Addr, lfall: Loc, goto: Loc, rest: seq<Addr>, lrest: seq<Loc>, irest: seq<bool>)
    requires s.Nested(rest, lrest, irest)
    requires ctl.Fall? || ctl.CallTo? ==> s.Outside(lfall, fall)
    requires ctl.Jump? || ctl.CallTo? ==> s.Outside(goto, Goal(ctl))
    ensures var r, r' := Move(ctl, fall, Goal(ctl), rest), Move(ctl, lfall, goto, lrest);
      r.Some? ==> r'.Some? && s.Nested(r.value, r'.value, Flags([false] + irest, |r'.value|))
  {
    hide Inlined.Outside, Inlined.Inside;
    match ctl
    case Fall => NestedOutside(s, fall, lfall, rest, lrest, irest);
    case Jump(_, t) => NestedOutside(s, t, goto, rest, lrest, irest);
    case CallTo(_, t) =>
      NestedOutside(s, fall, lfall, rest, lrest, irest);
      NestedOutside(s, t, goto, [fall] + rest, [lfall] + lrest, [false] + irest);
      assert [t, fall] + rest == [t] + ([fall] + rest) && [goto, lfall] + lrest == [goto] + ([lfall] + lrest);
    case Return =>
      assert ([false] + irest)[1..] == irest;
  }

  lemma {:induction false} StepAnswered<D(!new)>(
      sem: Sem<D>, image: Segment, s: Inlined, c: Config<Addr, D>, ls: seq<Loc>, inl: seq<bool>)
    requires s.Shape(image) && s.Inlinable() && s.Nested(c.locs, ls, inl)
    ensures Answers(sem, image, s, c, ls, inl)
  {
    hide Inlined.Shape, Inlined.Inlinable, Inlined.Inside, Inlined.Outside, Answers;
    if ls == [] {
      StepNowhere(sem, image, s, c, ls, inl);
    } else if s.AtSite(c.locs, ls) {
      AlsoApart(s);
      StepAtSite(sem, image, s, c, ls, inl);
    } else if s.AtRet(c.locs, ls) {
      AlsoApart(s);
      StepAtRet(sem, image, s, c, ls, inl);
    } else if inl[0] && ls[0].Out? {
      StepSpins(sem, image, s, c, ls, inl);
    } else if inl[0] {
      StepInside(sem, image, s, c, ls, inl);
    } else {
      StepOutside(sem, image, s, c, ls, inl);
    }
  }

  lemma {:induction false} AlsoApart(s: Inlined)
    requires s.Inlinable()
    ensures s.Apart()
  {
  }

  lemma {:induction false} StepNowhere<D(!new)>(
      sem: Sem<D>, image: Segment, s: Inlined, c: Config<Addr, D>, ls: seq<Loc>, inl: seq<bool>)
    requires c.locs == [] && (ls != [] ==> inl != [])
    ensures Answers(sem, image, s, c, ls, inl)
  {
  }

  // ----- The data, one stack slot apart -----

  /**
   What is required of the stack (items 6 and 7), as a relation that holds of the original data `d` and the data
   `e` without the return address of the removed call, `path` being the locations down to the inlined frame.  The
   call establishes it, every instruction that runs with the frame below it keeps it and cannot tell the two apart
   when it decides where to go, and at the RET it is taken back: the stack is balanced.
  */
  ghost predicate StackKept<D(!new)>(sem: Sem<D>, image: Segment, s: Inlined, lag: (seq<Loc>, D, D) -> bool) {
    && (forall d :: lag([In(s.at)], sem.call(d), d))
    && (forall d, e :: lag([In(s.End())], d, e) ==> sem.ret(d) == e)
    && (forall path, d, e :: lag(path, d, e) && path != [In(s.End())] ==> StepsAlike(sem, image, s, lag, path, d, e))
  }

  ghost predicate StepsAlike<D(!new)>(
    sem: Sem<D>, image: Segment, s: Inlined, lag: (seq<Loc>, D, D) -> bool, path: seq<Loc>, d: D, e: D)
  {
    var r := LinkStep(sem, image, s.Items(), Config(path, d));
    r.Some? ==>
      var r' := LinkStep(sem, image, s.Items(), Config(path, e));
      r'.Some? && r'.value.locs == r.value.locs && lag(r.value.locs, r.value.data, r'.value.data)
  }

  /** `x` and `y` differ by one slot for each frame marked in `inl` from position `p` down. */
  ghost predicate Lagging<D(!new)>(
    lag: (seq<Loc>, D, D) -> bool, ls: seq<Loc>, inl: seq<bool>, p: nat, x: D, y: D)
    requires |inl| == |ls|
    decreases |ls| - p
  {
    if p >= |ls| then x == y
    else if inl[p] then
      exists z {:trigger lag(ls[..p + 1], x, z)} :: lag(ls[..p + 1], x, z) && Lagging(lag, ls, inl, p + 1, z, y)
    else Lagging(lag, ls, inl, p + 1, x, y)
  }

  lemma {:induction false} LaggingCases<D(!new)>(
      lag: (seq<Loc>, D, D) -> bool, ls: seq<Loc>, inl: seq<bool>, p: nat, x: D, y: D)
    requires |inl| == |ls| && Lagging(lag, ls, inl, p, x, y)
    ensures p >= |ls| ==> x == y
    ensures p < |ls| && inl[p] ==>
      exists z {:trigger lag(ls[..p + 1], x, z)} :: lag(ls[..p + 1], x, z) && Lagging(lag, ls, inl, p + 1, z, y)
    ensures p < |ls| && !inl[p] ==> Lagging(lag, ls, inl, p + 1, x, y)
  {
  }

  lemma {:induction false} LaggingIn<D(!new)>(
      lag: (seq<Loc>, D, D) -> bool, ls: seq<Loc>, inl: seq<bool>, p: nat, x: D, z: D, y: D)
    requires |inl| == |ls| && p < |ls| && inl[p] && lag(ls[..p + 1], x, z) && Lagging(lag, ls, inl, p + 1, z, y)
    ensures Lagging(lag, ls, inl, p, x, y)
  {
  }

  lemma {:induction false} LaggingOut<D(!new)>(
      lag: (seq<Loc>, D, D) -> bool, ls: seq<Loc>, inl: seq<bool>, p: nat, x: D, y: D)
    requires |inl| == |ls| && (p < |ls| ==> !inl[p]) && Lagging(lag, ls, inl, p + 1, x, y)
    ensures Lagging(lag, ls, inl, p, x, y)
  {
  }

  lemma {:induction false} LaggingEnd<D(!new)>(
      lag: (seq<Loc>, D, D) -> bool, ls: seq<Loc>, inl: seq<bool>, x: D)
    requires |inl| == |ls|
    ensures Lagging(lag, ls, inl, |ls|, x, x)
  {
  }

  /** A step looks at the top of the stack only. */
  lemma {:induction false} LinkStepAppend<D(!new)>(
      sem: Sem<D>, image: Segment, items: seq<Item>, path: seq<Loc>, rest: seq<Loc>, d: D)
    requires path != []
    ensures var r := LinkStep(sem, image, items, Config(path, d));
      var full := LinkStep(sem, image, items, Config(path + rest, d));
      && (r.Some? ==> full == Some(Config(r.value.locs + rest, r.value.data)))
      && (r.None? && full.Some? ==> |path| == 1 && |full.value.locs| == |rest|)
  {
    hide W64, Fetch, Effect, Target;
    assert (path + rest)[0] == path[0] && (path + rest)[1..] == path[1..] + rest;
    match path[0]
    case In(j) =>
      if j < |items| {
        var (d', ctl) := Effect(sem, items[j].code.ins, NextOf(items[j]), d);
        MoveAppend(ctl, In(j + 1), Target(items, j, ctl), path[1..], rest);
      }
    case Out(a) =>
      var code := Fetch(image, a);
      if code.Some? {
        var next := W64(a + code.value.len);
        var (d', ctl) := Effect(sem, code.value.ins, next, d);
        MoveAppend(ctl, Out(next), Out(Goal(ctl)), path[1..], rest);
      }
  }

  lemma {:induction false} MoveAppend<L>(ctl: Control, fall: L, goto: L, xs: seq<L>, ys: seq<L>)
    ensures var r, full := Move(ctl, fall, goto, xs), Move(ctl, fall, goto, xs + ys);
      && (r.Some? ==> full == Some(r.value + ys))
      && (r.None? && full.Some? ==> xs == [] && full.value == ys)
  {
    assert [fall] + (xs + ys) == [fall] + xs + ys && [goto] + (xs + ys) == [goto] + xs + ys;
    assert [goto, fall] + (xs + ys) == [goto, fall] + xs + ys;
    assert xs == [] ==> xs + ys == ys;
  }

  /** Data that lag behind still do after a step, which goes the same way for both. */
  lemma {:induction false} LaggingStep<D(!new)>(
      sem: Sem<D>, image: Segment, s: Inlined, lag: (seq<Loc>, D, D) -> bool,
      ls: seq<Loc>, inl: seq<bool>, p: nat, x: D, y: D)
    requires StackKept(sem, image, s, lag) && |inl| == |ls| && p <= |ls| && ls != []
    requires var r := LinkStep(sem, image, s.Items(), Config(ls, x));
      r.Some? && (p == 0 && inl[0] ==> ls[0] != In(s.End())) && (p == 0 ==> |r.value.locs| >= |ls|)
    requires Lagging(lag, ls, inl, p, x, y)
    ensures var r, r' := LinkStep(sem, image, s.Items(), Config(ls, x)), LinkStep(sem, image, s.Items(), Config(ls, y));
      && r'.Some? && r'.value.locs == r.value.locs && -1 <= |r.value.locs| - |ls| <= 1
      && Lagging(lag, r.value.locs, Flags(inl, |r.value.locs|), p + |r.value.locs| - |ls|, r.value.data, r'.value.data)
    decreases |ls| - p
  {
    hide LinkStep, StackKept, Lagging;
    var r := LinkStep(sem, image, s.Items(), Config(ls, x));
    var ls', x' := r.value.locs, r.value.data;
    StepLength(sem, image, s.Items(), ls, x);
    LaggingCases(lag, ls, inl, p, x, y);
    if p == |ls| {
      LaggingEnd(lag, ls', Flags(inl, |ls'|), x');
    } else {
      if inl[p] {
        var z :| lag(ls[..p + 1], x, z) && Lagging(lag, ls, inl, p + 1, z, y);
        var path, rest := ls[..p + 1], ls[p + 1..];
        assert path + rest == ls && path[0] == ls[0];
        LinkStepAppend(sem, image, s.Items(), path, rest, x);
        LinkStepAppend(sem, image, s.Items(), path, rest, z);
        PathStep(sem, image, s, lag, path, x, z);
        var z' := LinkStep(sem, image, s.Items(), Config(path, z)).value.data;
        LaggingStep(sem, image, s, lag, ls, inl, p + 1, z, y);
        var p' := p + |ls'| - |ls|;
        assert ls'[..p' + 1] == LinkStep(sem, image, s.Items(), Config(path, x)).value.locs;
        LaggingIn(lag, ls', Flags(inl, |ls'|), p', x', z', LinkStep(sem, image, s.Items(), Config(ls, y)).value.data);
      } else {
        LaggingStep(sem, image, s, lag, ls, inl, p + 1, x, y);
        LaggingOut(lag, ls', Flags(inl, |ls'|), p + |ls'| - |ls|, x',
          LinkStep(sem, image, s.Items(), Config(ls, y)).value.data);
      }
    }
  }

  lemma {:induction false} PathStep<D(!new)>(
      sem: Sem<D>, image: Segment, s: Inlined, lag: (seq<Loc>, D, D) -> bool, path: seq<Loc>, d: D, e: D)
    requires StackKept(sem, image, s, lag) && lag(path, d, e) && path != [In(s.End())]
    ensures StepsAlike(sem, image, s, lag, path, d, e)
  {
    hide StepsAlike;
  }

  lemma {:induction false} StepLength<D(!new)>(sem: Sem<D>, image: Segment, items: seq<Item>, ls: seq<Loc>, d: D)
    requires LinkStep(sem, image, items, Config(ls, d)).Some?
    ensures -1 <= |LinkStep(sem, image, items, Config(ls, d)).value.locs| - |ls| <= 1
  {
    hide W64, Fetch, Effect, Target;
  }

  /** Only the marks from `p` on matter. */
  lemma {:induction false} LaggingSame<D(!new)>(
      lag: (seq<Loc>, D, D) -> bool, ls: seq<Loc>, inl: seq<bool>, inl': seq<bool>, p: nat, x: D, y: D)
    requires |inl| == |inl'| == |ls| && Lagging(lag, ls, inl, p, x, y)
    requires forall i :: p <= i < |ls| ==> inl[i] == inl'[i]
    ensures Lagging(lag, ls, inl', p, x, y)
    decreases |ls| - p
  {
    if p < |ls| {
      if inl[p] {
        var z :| lag(ls[..p + 1], x, z) && Lagging(lag, ls, inl, p + 1, z, y);
        LaggingSame(lag, ls, inl, inl', p + 1, z, y);
      } else {
        LaggingSame(lag, ls, inl, inl', p + 1, x, y);
      }
    }
  }

  /** The original configuration and that of the linked code. */
  ghost predicate Behind<D(!new)>(s: Inlined, lag: (seq<Loc>, D, D) -> bool, c: Config<Addr, D>, l: Config<Loc, D>) {
    exists inl :: |inl| == |l.locs| && s.Nested(c.locs, l.locs, inl) && Lagging(lag, l.locs, inl, 0, c.data, l.data)
  }

  /** One step of the original, answered. */
  lemma {:induction false} BehindStep<D(!new)>(
      sem: Sem<D>, image: Segment, s: Inlined, lag: (seq<Loc>, D, D) -> bool, c: Config<Addr, D>, l: Config<Loc, D>)
    requires s.Shape(image) && s.Inlinable() && StackKept(sem, image, s, lag)
    requires Behind(s, lag, c, l) && Step(sem, Original(image), c).Some?
    ensures var c' := Step(sem, Original(image), c).value;
      var l' := Run(Linked(sem, image, s.Items()), l, s.Steps(c.locs, l.locs));
      && l'.Some? && Behind(s, lag, c', l'.value)
      && (s.Steps(c.locs, l.locs) == 0 ==> s.Rank(c'.locs, l'.value.locs) < s.Rank(c.locs, l.locs))
  {
    hide Inlined.Shape, Inlined.Inlinable, Inlined.Nested, StackKept, Lagging, LinkStep, Step, Inlined.AtAdded;
    var inl :| |inl| == |l.locs| && s.Nested(c.locs, l.locs, inl) && Lagging(lag, l.locs, inl, 0, c.data, l.data);
    NestedLength(s, c.locs, l.locs, inl);
    StepAnswered(sem, image, s, c, l.locs, inl);
    var ls, c' := l.locs, Step(sem, Original(image), c).value;
    if s.AtSite(c.locs, ls) {
      LaggingCall(sem, image, s, lag, ls, inl, c.data, l.data);
      RankDrops(s, image, c.locs, c'.locs, ls, [true] + inl[1..]);
    } else if s.AtRet(c.locs, ls) {
      LaggingRet(sem, image, s, lag, ls, inl, c.data, l.data);
      RankDrops(s, image, c.locs, c'.locs, ls, [false] + inl[1..]);
    } else {
      var step := Linked(sem, image, s.Items());
      LaggingTop(sem, image, s, lag, ls, inl, c.data, l.data);
      var mid := LinkStep(sem, image, s.Items(), l).value;
      OneStep(step, l);
      if s.AtAdded(ls) {
        assert Flags(inl, |ls|) == inl;
        StepAnswered(sem, image, s, c, mid.locs, inl);
        NestedLength(s, c.locs, mid.locs, inl);
        LaggingTop(sem, image, s, lag, mid.locs, inl, c.data, mid.data);
        OneStep(step, mid);
        RunAdd(step, l, 1, 1);
      }
    }
  }

  lemma {:induction false} NestedLength(s: Inlined, addrs: seq<Addr>, ls: seq<Loc>, inl: seq<bool>)
    requires s.Nested(addrs, ls, inl)
    ensures |inl| == |ls| && (addrs != [] ==> ls != [])
  {
  }

  lemma {:induction false} RankDrops(
      s: Inlined, image: Segment, addrs: seq<Addr>, addrs': seq<Addr>, ls: seq<Loc>, inl: seq<bool>)
    requires s.Shape(image) && s.Inlinable() && s.Nested(addrs', ls, inl) && ls != []
    requires if s.AtSite(addrs, ls) then inl[0] else s.AtRet(addrs, ls) && addrs' != [] && addrs'[0] == NextOf(s.site)
    ensures s.Rank(addrs', ls) < s.Rank(addrs, ls)
  {
    hide W64, Fetch, TargetOf, NextOf;
    SiteOutside(s, image);
    NestedTop(s, addrs', ls, inl);
    if s.AtSite(addrs, ls) {
      assert s.Inside(ls[0], addrs'[0]);
    }
  }

  lemma {:induction false} LaggingCall<D(!new)>(
      sem: Sem<D>, image: Segment, s: Inlined, lag: (seq<Loc>, D, D) -> bool, ls: seq<Loc>, inl: seq<bool>, x: D, y: D)
    requires StackKept(sem, image, s, lag) && |inl| == |ls| && ls != [] && ls[0] == In(s.at) && !inl[0]
    requires Lagging(lag, ls, inl, 0, x, y)
    ensures Lagging(lag, ls, [true] + inl[1..], 0, sem.call(x), y)
  {
    hide StepsAlike;
    LaggingSame(lag, ls, inl, [true] + inl[1..], 1, x, y);
    assert ls[..1] == [In(s.at)];
    assert lag([In(s.at)], sem.call(x), x);
  }

  lemma {:induction false} LaggingRet<D(!new)>(
      sem: Sem<D>, image: Segment, s: Inlined, lag: (seq<Loc>, D, D) -> bool, ls: seq<Loc>, inl: seq<bool>, x: D, y: D)
    requires StackKept(sem, image, s, lag) && |inl| == |ls| && ls != [] && ls[0] == In(s.End()) && inl[0]
    requires Lagging(lag, ls, inl, 0, x, y)
    ensures Lagging(lag, ls, [false] + inl[1..], 0, sem.ret(x), y)
  {
    hide StepsAlike;
    assert ls[..1] == [In(s.End())];
    var z :| lag(ls[..1], x, z) && Lagging(lag, ls, inl, 1, z, y);
    LaggingSame(lag, ls, inl, [false] + inl[1..], 1, z, y);
  }

  lemma {:induction false} LaggingTop<D(!new)>(
      sem: Sem<D>, image: Segment, s: Inlined, lag: (seq<Loc>, D, D) -> bool, ls: seq<Loc>, inl: seq<bool>, x: D, y: D)
    requires StackKept(sem, image, s, lag) && |inl| == |ls| && ls != [] && Lagging(lag, ls, inl, 0, x, y)
    requires var r := LinkStep(sem, image, s.Items(), Config(ls, x));
      r.Some? && (inl[0] ==> ls[0] != In(s.End()) && |r.value.locs| >= |ls|)
    ensures var r, r' := LinkStep(sem, image, s.Items(), Config(ls, x)), LinkStep(sem, image, s.Items(), Config(ls, y));
      r'.Some? && r'.value.locs == r.value.locs && |Flags(inl, |r.value.locs|)| == |r.value.locs| &&
      Lagging(lag, r.value.locs, Flags(inl, |r.value.locs|), 0, r.value.data, r'.value.data)
  {
    hide LinkStep, StackKept;
    var r := LinkStep(sem, image, s.Items(), Config(ls, x)).value;
    StepLength(sem, image, s.Items(), ls, x);
    if |r.locs| >= |ls| {
      LaggingStep(sem, image, s, lag, ls, inl, 0, x, y);
    } else {
      LaggingStep(sem, image, s, lag, ls, inl, 1, x, y);
    }
  }

  // ----- Whole runs -----

  /** The configurations of the original program and of the translated process, the inlined frames removed. */
  ghost predicate InlinedAs<D(!new)>(
    s: Inlined, lag: (seq<Loc>, D, D) -> bool, table: seq<Entry>, tc: Addr, c: Config<Addr, D>, m: Config<Addr, D>)
  {
    exists ls :: Behind(s, lag, c, Config(ls, m.data)) && Placed(table, tc, ls, m.locs)
  }

  /** With no inlined frame open, as after the call, the data are the same; with any open, there is one return
      address more for each. */
  lemma {:induction false} SameOutside<D(!new)>(
      s: Inlined, lag: (seq<Loc>, D, D) -> bool, table: seq<Entry>, tc: Addr, c: Config<Addr, D>, m: Config<Addr, D>)
    requires InlinedAs(s, lag, table, tc, c, m)
    ensures |m.locs| <= |c.locs| && (|m.locs| == |c.locs| ==> c.data == m.data)
  {
    var ls :| Behind(s, lag, c, Config(ls, m.data)) && Placed(table, tc, ls, m.locs);
    var inl :| |inl| == |ls| && s.Nested(c.locs, ls, inl) && Lagging(lag, ls, inl, 0, c.data, m.data);
    FramesOpen(s, c.locs, ls, inl);
    if |m.locs| == |c.locs| {
      NoneLagging(lag, ls, inl, 0, c.data, m.data);
    }
  }

  function Count(inl: seq<bool>): nat {
    if inl == [] then 0 else Count(inl[1..]) + if inl[0] then 1 else 0
  }

  lemma {:induction false} FramesOpen(s: Inlined, addrs: seq<Addr>, ls: seq<Loc>, inl: seq<bool>)
    requires s.Nested(addrs, ls, inl)
    ensures |addrs| == |ls| + Count(inl) && |inl| == |ls|
    ensures Count(inl) == 0 ==> forall i :: 0 <= i < |inl| ==> !inl[i]
    decreases |ls|
  {
    if ls != [] {
      FramesOpen(s, addrs[if inl[0] then 2 else 1..], ls[1..], inl[1..]);
      forall i | 0 <= i < |inl| && Count(inl) == 0 ensures !inl[i] {
        assert i > 0 ==> inl[i] == inl[1..][i - 1];
      }
    }
  }

  lemma {:induction false} NoneLagging<D(!new)>(
      lag: (seq<Loc>, D, D) -> bool, ls: seq<Loc>, inl: seq<bool>, p: nat, x: D, y: D)
    requires |inl| == |ls| && Lagging(lag, ls, inl, p, x, y) && forall i :: 0 <= i < |inl| ==> !inl[i]
    ensures x == y
    decreases |ls| - p
  {
    if p < |ls| {
      NoneLagging(lag, ls, inl, p + 1, x, y);
    }
  }

  /**
   Inlining preserves behaviour over whole runs, whatever the control flow of the callee.  However many steps
   the original makes, the process with the TC gets to a configuration that agrees with it but for the return
   addresses of removed calls; the data are the same whenever no inlined frame is open.  And it keeps up, the
   original being at most two steps ahead for each of its own.  The code around the body may be laid out in
   another order, with inverted conditions and added jumps.
  */
  lemma {:induction false} InliningPreservesRuns<D(!new)>(
      sem: Sem<D>, image: Segment, s: Inlined, lag: (seq<Loc>, D, D) -> bool,
      table: seq<Entry>, tc: Segment, base: Addr, c: Config<Addr, D>, m: Config<Addr, D>, n: nat) returns (k: nat)
    requires s.Shape(image) && s.Inlinable() && StackKept(sem, image, s, lag)
    requires Translated(s.Items(), table, tc, base) && Placeable(s.Items(), tc.base, base)
    requires MapHeld(sem, table, base) && Disjoint(image, tc) && |tc.bytes| <= TWO64
    requires InlinedAs(s, lag, table, tc.base, c, m) && Run(Processor(sem, Original(image)), c, n).Some?
    ensures k <= 2 * n && n <= 3 * k + 2 && (s.NoJumpsAdded() ==> k <= n)
    ensures var c' := Run(Processor(sem, Original(image)), c, n).value;
      var m' := Run(Processor(sem, WithTc(image, tc)), m, k);
      && m'.Some? && InlinedAs(s, lag, table, tc.base, c', m'.value)
      && |m'.value.locs| <= |c'.locs| && (|m'.value.locs| == |c'.locs| ==> m'.value.data == c'.data)
  {
    hide Translated, Encodable, Placeable, CellsHeld, MapHeld, Disjoint, Inlined.Shape, Inlined.Inlinable, StackKept,
      Behind, Placed, Step, LinkStep;
    var ls :| Behind(s, lag, c, Config(ls, m.data)) && Placed(table, tc.base, ls, m.locs);
    var l := Config(ls, m.data);
    k := LinkedCodeFollowsInlined(sem, image, s, lag, c, l, n);
    EncodableIff(s.Items(), table, tc, base);
    MapHoldsCells(sem, s.Items(), table, tc, base);
    TcFollowsLinkedCode(sem, image, s.Items(), table, tc, base, l, m, k);
    var l' := Run(Linked(sem, image, s.Items()), l, k).value;
    var c', m' := Run(Processor(sem, Original(image)), c, n).value, Run(Processor(sem, WithTc(image, tc)), m, k).value;
    assert l' == Config(l'.locs, m'.data);
    assert Behind(s, lag, c', Config(l'.locs, m'.data)) && Placed(table, tc.base, l'.locs, m'.locs);
    SameOutside(s, lag, table, tc.base, c', m');
  }

  lemma {:induction false} LinkedCodeFollowsInlined<D(!new)>(
      sem: Sem<D>, image: Segment, s: Inlined, lag: (seq<Loc>, D, D) -> bool,
      c: Config<Addr, D>, l: Config<Loc, D>, n: nat) returns (k: nat)
    requires s.Shape(image) && s.Inlinable() && StackKept(sem, image, s, lag)
    requires Behind(s, lag, c, l) && Run(Processor(sem, Original(image)), c, n).Some?
    ensures k <= 2 * n && n <= 3 * k + s.Rank(c.locs, l.locs) && (s.NoJumpsAdded() ==> k <= n)
    ensures var l' := Run(Linked(sem, image, s.Items()), l, k);
      l'.Some? && Behind(s, lag, Run(Processor(sem, Original(image)), c, n).value, l'.value)
  {
    hide Inlined.Shape, Inlined.Inlinable, StackKept, Behind, Step, LinkStep;
    var a, b := Processor(sem, Original(image)), Linked(sem, image, s.Items());
    var rel := (c: Config<Addr, D>, l: Config<Loc, D>) => Behind(s, lag, c, l);
    var count := (c: Config<Addr, D>, l: Config<Loc, D>) => s.Steps(c.locs, l.locs);
    var rank := (c: Config<Addr, D>, l: Config<Loc, D>) => s.Rank(c.locs, l.locs);
    forall x: Config<Addr, D>, y: Config<Loc, D> | rel(x, y) && a(x).Some?
      ensures var y' := Run(b, y, count(x, y));
        && y'.Some? && rel(a(x).value, y'.value)
        && count(x, y) <= 2 && rank(a(x).value, y'.value) <= 2
        && (count(x, y) == 0 ==> rank(a(x).value, y'.value) < rank(x, y))
    {
      BehindStep(sem, image, s, lag, x, y);
    }
    k := FollowsRunCounting(a, b, rel, count, rank, c, l, n);
  }

  lemma {:induction false} NestedReturns(s: Inlined, rets: seq<Addr>, ls: seq<Loc>, inl: seq<bool>)
    requires |ls| == |rets| == |inl| && forall i :: 0 <= i < |rets| ==> ls[i] == Out(rets[i]) && !inl[i]
    ensures s.Nested(rets, ls, inl)
    decreases |rets|
  {
    if rets != [] {
      NestedReturns(s, rets[1..], ls[1..], inl[1..]);
    }
  }

  lemma {:induction false} LaggingNone<D(!new)>(
      lag: (seq<Loc>, D, D) -> bool, ls: seq<Loc>, inl: seq<bool>, p: nat, x: D)
    requires |inl| == |ls| && forall i :: 0 <= i < |inl| ==> !inl[i]
    ensures Lagging(lag, ls, inl, p, x, x)
    decreases |ls| - p
  {
    if p < |ls| {
      LaggingNone(lag, ls, inl, p + 1, x);
    }
  }

  /** A routine entered at the new address of any of its instructions, called from code that is not translated. */
  lemma {:induction false} InlinedEntry<D(!new)>(
      image: Segment, s: Inlined, lag: (seq<Loc>, D, D) -> bool, table: seq<Entry>, tc: Segment, base: Addr,
      e: nat, rets: seq<Addr>, d: D)
    requires Translated(s.Items(), table, tc, base) && e < |s.layout| && !s.InBody(e) && !s.layout[e].Added?
    ensures |s.Items()| == |table|
    ensures InlinedAs(s, lag, table, tc.base, Config([s.layout[e].item.addr] + rets, d),
                      Config([table[e].newInsAddr] + rets, d))
  {
    hide Translated, Place;
    LengthOf(s.Items(), table, tc, base);
    var ls := [In(e)] + seq(|rets|, i requires 0 <= i < |rets| => Out(rets[i]));
    var inl := seq(|ls|, i => false);
    var addrs, m := [s.layout[e].item.addr] + rets, [table[e].newInsAddr] + rets;
    NestedReturns(s, rets, ls[1..], inl[1..]);
    NestedOutside(s, s.layout[e].item.addr, In(e), rets, ls[1..], inl[1..]);
    assert [In(e)] + ls[1..] == ls && [false] + inl[1..] == inl;
    LaggingNone(lag, ls, inl, 0, d);
    assert Behind(s, lag, Config(addrs, d), Config(ls, d));
    forall i | 0 <= i < |ls| ensures OnMap(table, ls[i]) && m[i] == Place(table, tc.base, ls[i]) {
      if i == 0 {
        PlaceHere(s.Items(), table, tc, base, e);
      } else {
        PlaceOut(table, tc.base, rets[i - 1]);
      }
    }
    assert Placed(table, tc.base, ls, m);
  }

  /** From such an entry on, for whole runs. */
  lemma {:induction false} InlinedRoutineRuns<D(!new)>(
      sem: Sem<D>, image: Segment, s: Inlined, lag: (seq<Loc>, D, D) -> bool,
      table: seq<Entry>, tc: Segment, base: Addr, e: nat, rets: seq<Addr>, d: D, n: nat) returns (k: nat)
    requires s.Shape(image) && s.Inlinable() && StackKept(sem, image, s, lag)
    requires Translated(s.Items(), table, tc, base) && Placeable(s.Items(), tc.base, base)
    requires MapHeld(sem, table, base) && Disjoint(image, tc) && |tc.bytes| <= TWO64
    requires e < |s.layout| && !s.InBody(e) && !s.layout[e].Added?
    requires Run(Processor(sem, Original(image)), Config([s.layout[e].item.addr] + rets, d), n).Some?
    ensures |s.Items()| == |table| && k <= 2 * n && n <= 3 * k + 2 && (s.NoJumpsAdded() ==> k <= n)
    ensures var c' := Run(Processor(sem, Original(image)), Config([s.layout[e].item.addr] + rets, d), n).value;
      var m' := Run(Processor(sem, WithTc(image, tc)), Config([table[e].newInsAddr] + rets, d), k);
      && m'.Some? && InlinedAs(s, lag, table, tc.base, c', m'.value)
      && |m'.value.locs| <= |c'.locs| && (|m'.value.locs| == |c'.locs| ==> m'.value.data == c'.data)
  {
    hide Translated, Placeable, CellsHeld, MapHeld, Disjoint, Inlined.Shape, Inlined.Inlinable, StackKept,
      InlinedAs, Step;
    InlinedEntry(image, s, lag, table, tc, base, e, rets, d);
    k := InliningPreservesRuns(sem, image, s, lag, table, tc, base, Config([s.layout[e].item.addr] + rets, d),
      Config([table[e].newInsAddr] + rets, d), n);
  }
}
