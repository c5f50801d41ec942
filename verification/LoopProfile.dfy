/** The loop profile: how often, and how regularly, the branch that closes a loop is taken. */
module LoopProfile {

  // ----- Run lengths, the reference -----

  /** Length of the run of taken branches that `h` begins with. */
  function LeadingRun(h: seq<bool>): (k: nat)
    ensures k <= |h| && (forall i :: 0 <= i < k ==> h[i]) && (k < |h| ==> !h[k])
  {
    if h == [] || !h[0] then 0 else 1 + LeadingRun(h[1..])
  }

  /** Lengths of the runs that were completed by a branch not taken, in order. */
  function CompletedRuns(h: seq<bool>): seq<nat>
    decreases |h|
  {
    var k := LeadingRun(h);
    if k == |h| then [] else [k] + CompletedRuns(h[k + 1..])
  }

  /** Length of the run at the end that has not been completed. */
  function OpenRun(h: seq<bool>): nat
    decreases |h|
  {
    var k := LeadingRun(h);
    if k == |h| then k else OpenRun(h[k + 1..])
  }

  function LastOr0(runs: seq<nat>): nat { if runs == [] then 0 else runs[|runs| - 1] }

  /** Completed runs that differ from the one before them, that one not being empty. */
  function Changes(runs: seq<nat>): nat {
    if |runs| < 2 then 0
    else
      var n := |runs|;
      Changes(runs[..n - 1]) + if runs[n - 2] != 0 && runs[n - 1] != runs[n - 2] then 1 else 0
  }

  /** Run `j` differs from the one before it, which is not empty. */
  predicate ChangesAt(runs: seq<nat>, j: nat) { 1 <= j < |runs| && runs[j - 1] != 0 && runs[j - 1] != runs[j] }

  /** The changes are as many as there are runs of that kind. */
  lemma {:induction false} ChangesCount(runs: seq<nat>)
    ensures Changes(runs) == |set j: nat | j < |runs| && ChangesAt(runs, j)|
  {
    hide ChangesAt;
    var n := |runs|;
    if n >= 2 {
      ChangesCount(runs[..n - 1]);
      ChangesNext(runs);
    } else {
      ChangesNone(runs);
    }
  }

  lemma {:induction false} ChangesNone(runs: seq<nat>)
    requires |runs| < 2
    ensures (set j: nat | j < |runs| && ChangesAt(runs, j)) == {}
  {
  }

  lemma {:induction false} ChangesNext(runs: seq<nat>)
    requires |runs| >= 2
    ensures var n, before := |runs|, runs[..|runs| - 1];
      && (ChangesAt(runs, n - 1) <==> runs[n - 2] != 0 && runs[n - 1] != runs[n - 2])
      && |set j: nat | j < n && ChangesAt(runs, j)| ==
         |set j: nat | j < n - 1 && ChangesAt(before, j)| + if ChangesAt(runs, n - 1) then 1 else 0
  {
    var n := |runs|;
    var before := runs[..n - 1];
    forall j: nat | j < n - 1 ensures ChangesAt(before, j) <==> ChangesAt(runs, j) {
    }
    hide ChangesAt;
    var all, front := set j: nat | j < n && ChangesAt(runs, j), set j: nat | j < n - 1 && ChangesAt(before, j);
    assert all == front + if ChangesAt(runs, n - 1) then {n - 1} else {};
  }

  function Sum(runs: seq<nat>): nat {
    if runs == [] then 0 else Sum(runs[..|runs| - 1]) + runs[|runs| - 1]
  }

  lemma {:induction false} LeadingRunExtend(h: seq<bool>, taken: bool)
    ensures LeadingRun(h + [taken]) == LeadingRun(h) + if LeadingRun(h) == |h| && taken then 1 else 0
  {
    if h != [] && h[0] {
      assert (h + [taken])[1..] == h[1..] + [taken];
      LeadingRunExtend(h[1..], taken);
    } else if h == [] {
      assert [taken][1..] == [];
    }
  }

  lemma {:induction false} RunsUnfold(h: seq<bool>)
    ensures var k := LeadingRun(h);
      && CompletedRuns(h) == (if k == |h| then [] else [k] + CompletedRuns(h[k + 1..]))
      && OpenRun(h) == if k == |h| then k else OpenRun(h[k + 1..])
  {
  }

  /** One more branch either lengthens the open run or completes it. */
  lemma {:induction false} RunsExtend(h: seq<bool>, taken: bool)
    ensures CompletedRuns(h + [taken]) == if taken then CompletedRuns(h) else CompletedRuns(h) + [OpenRun(h)]
    ensures OpenRun(h + [taken]) == if taken then OpenRun(h) + 1 else 0
    decreases |h|
  {
    hide LeadingRun, CompletedRuns, OpenRun;
    LeadingRunExtend(h, taken);
    RunsUnfold(h);
    RunsUnfold(h + [taken]);
    var k := LeadingRun(h);
    if k < |h| {
      var rest := h[k + 1..];
      assert (h + [taken])[k + 1..] == rest + [taken];
      RunsExtend(rest, taken);
      RunsBehind(k, CompletedRuns(rest), OpenRun(rest));
    } else if !taken {
      assert (h + [taken])[k + 1..] == [];
      RunsOfNone();
    }
  }

  lemma {:induction false} RunsBehind(k: nat, runs: seq<nat>, open: nat)
    ensures [k] + (runs + [open]) == ([k] + runs) + [open]
  {
  }

  lemma {:induction false} RunsOfNone()
    ensures CompletedRuns([]) == [] && OpenRun([]) == 0
  {
  }

  /** Every branch is in a completed run, ends one, or is in the open run. */
  lemma {:induction false} RunsAccountForAll(h: seq<bool>)
    ensures Sum(CompletedRuns(h)) + |CompletedRuns(h)| + OpenRun(h) == |h|
    decreases |h|
  {
    if h != [] {
      var n := |h| - 1;
      assert h == h[..n] + [h[n]];
      RunsAccountForAll(h[..n]);
      RunsExtend(h[..n], h[n]);
    }
  }

  // ----- The counters -----

  class LoopCount {
    var countSeen: nat
    var countLoopInvoked: nat
    var prevIterInsCount: nat
    var currIterInsCount: nat
    var diffCount: nat

    constructor ()
      ensures Counts([])
    {
      countSeen, countLoopInvoked, prevIterInsCount, currIterInsCount, diffCount := 0, 0, 0, 0, 0;
    }

    /** The counters are what the run lengths of the history `h` make them. */
    ghost predicate Counts(h: seq<bool>)
      reads this
    {
      var runs := CompletedRuns(h);
      && countSeen == |h| && countLoopInvoked == |runs|
      && currIterInsCount == OpenRun(h) && prevIterInsCount == LastOr0(runs)
      && diffCount == Changes(runs)
    }

    method DocountBranchIfTaken(taken: bool, ghost h: seq<bool>)
      requires Counts(h)
      modifies this
      ensures Counts(h + [taken])
    {
      RunsExtend(h, taken);
      ghost var runs := CompletedRuns(h);
      countSeen := countSeen + 1;
      if !taken {
        if prevIterInsCount != 0 && currIterInsCount != prevIterInsCount {
          diffCount := diffCount + 1;
        }
        assert (runs + [OpenRun(h)])[..|runs|] == runs;
        prevIterInsCount := currIterInsCount;
        currIterInsCount := 0;
        countLoopInvoked := countLoopInvoked + 1;
      } else {
        currIterInsCount := currIterInsCount + 1;
      }
    }
  }
}
