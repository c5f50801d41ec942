/** The call profile: how often each routine was called, from where, and the hottest of its callers. */
module CallProfile {
  import opened Words

  /** 32-bit counters wrap around. */
  function W32(x: int): nat { x % TWO32 }

  class RtnData {
    const rtnAddr: Addr
    var callNum: nat
    var callers2callNum: map<Addr, nat>

    constructor (rtnAddr: Addr)
      ensures this.rtnAddr == rtnAddr && Counts(multiset{})
    {
      this.rtnAddr := rtnAddr;
      callNum, callers2callNum := 0, map[];
    }

    /** The counters after the calls in `calls`, a multiset of call sites. */
    ghost predicate Counts(calls: multiset<Addr>)
      reads this
    {
      CountsAre(calls, callNum, callers2callNum)
    }

    method DoCountRtn(callerAddr: Addr, ghost calls: multiset<Addr>)
      requires Counts(calls)
      modifies this
      ensures Counts(calls + multiset{callerAddr})
    {
      hide W32, CountsAre;
      callNum := W32(callNum + 1);
      var before := if callerAddr in callers2callNum then callers2callNum[callerAddr] else 0;
      callers2callNum := callers2callNum[callerAddr := W32(before + 1)];
      CountsStep(calls, old(callNum), old(callers2callNum), callerAddr);
    }
  }

  ghost predicate CountsAre(calls: multiset<Addr>, callNum: nat, callers: map<Addr, nat>) {
    && callNum == W32(|calls|)
    && (forall a :: a in callers <==> a in calls)
    && (forall a :: a in callers ==> callers[a] == W32(calls[a]))
  }

  lemma {:induction false} CountsStep(calls: multiset<Addr>, callNum: nat, callers: map<Addr, nat>, a: Addr)
    requires CountsAre(calls, callNum, callers)
    ensures CountsAre(
      calls + multiset{a}, W32(callNum + 1), callers[a := W32((if a in callers then callers[a] else 0) + 1)])
  {
    var calls' := calls + multiset{a};
    forall b ensures calls'[b] == calls[b] + (if b == a then 1 else 0) {
    }
    W32Next(|calls|);
    W32Next(calls[a]);
  }

  lemma {:induction false} W32Next(x: nat)
    ensures W32(W32(x) + 1) == W32(x + 1)
  {
  }

  /** A multiset that has each caller as often as its counter says. */
  ghost predicate Tallies(m: multiset<Addr>, callers: map<Addr, nat>) {
    (forall a :: a in m ==> a in callers) && (forall a :: a in callers ==> m[a] == callers[a])
  }

  /** Without overflow the call number is the sum of the callers' numbers: the size of the multiset they describe. */
  lemma {:induction false} CallNumIsSum(calls: multiset<Addr>, m: multiset<Addr>, callNum: nat, callers: map<Addr, nat>)
    requires CountsAre(calls, callNum, callers) && Tallies(m, callers) && |calls| < TWO32
    ensures callNum == |m|
  {
    forall a ensures m[a] == calls[a] {
      if a in calls {
        assert calls[a] <= |calls| by {
          assert calls == multiset{}[a := calls[a]] + calls[a := 0];
        }
      }
    }
    assert m == calls;
  }

  lemma {:induction false} NoCalls(calls: multiset<Addr>)
    requires forall a :: a !in calls
    ensures |calls| == 0
  {
    assert calls == multiset{};
  }

  /** A routine that was called has a caller, even if the counters have wrapped. */
  lemma {:induction false} CalledHasCaller(calls: multiset<Addr>, callNum: nat, callers: map<Addr, nat>, threshold: nat)
    requires CountsAre(calls, callNum, callers) && callNum >= threshold > 0
    ensures callers != map[]
  {
    if callers == map[] {
      NoCalls(calls);
    }
  }

  /** The caller with the largest number; the first one looked at among several. */
  method HottestCaller(callers: map<Addr, nat>) returns (hottestCaller: Addr)
    requires callers != map[]
    ensures hottestCaller in callers && forall a :: a in callers ==> callers[a] <= callers[hottestCaller]
  {
    hottestCaller :| hottestCaller in callers;
    var max := callers[hottestCaller];
    var todo := callers.Keys;
    while todo != {}
      invariant todo <= callers.Keys && hottestCaller in callers && max == callers[hottestCaller]
      invariant forall a :: a in callers && a !in todo ==> callers[a] <= max
      decreases todo
    {
      var a :| a in todo;
      if max < callers[a] {
        hottestCaller := a;
        max := callers[a];
      }
      todo := todo - {a};
    }
  }
}
