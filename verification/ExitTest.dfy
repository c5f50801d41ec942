/**
 Why a pass that leaves the total size as it was may be the last one.

 A pass gives entry `k` the length `after[k]` where it had `before[k]`.  A branch to an entry further on is
 encoded with the address that entry had before it was moved, so it is off by all the growth up to there.
*/
module ExitTest {
  import opened Words
  import opened Instructions
  import opened InstrMap

  /** How far entry `k` is moved by the growth of the entries before it. */
  function Drift(before: seq<int>, after: seq<int>, k: nat): int
    requires k <= |before| == |after|
  {
    if k == 0 then 0 else Drift(before, after, k - 1) + after[k - 1] - before[k - 1]
  }

  function NetDiff(before: seq<int>, after: seq<int>): int
    requires |before| == |after|
  {
    Drift(before, after, |before|)
  }

  /** The error of the displacement that the pass writes into a branch of entry `i` to entry `t`. */
  function Error(before: seq<int>, after: seq<int>, i: nat, t: nat): int
    requires i < |before| == |after| && t < |before|
  {
    if t > i then Drift(before, after, t) else 0
  }

  predicate NoneStale(before: seq<int>, after: seq<int>)
    requires |before| == |after|
  {
    forall i, t :: 0 <= i < |before| && 0 <= t < |before| ==> Error(before, after, i, t) == 0
  }

  predicate GrowOnly(before: seq<int>, after: seq<int>)
    requires |before| == |after|
  {
    forall k :: 0 <= k < |before| ==> before[k] <= after[k]
  }

  lemma {:induction false} NoDrift(before: seq<int>, after: seq<int>, k: nat)
    requires k <= |before| == |after| && forall i :: 0 <= i < k ==> before[i] == after[i]
    ensures Drift(before, after, k) == 0
  {
    if k > 0 {
      NoDrift(before, after, k - 1);
    }
  }

  lemma {:induction false} NowhereDrift(before: seq<int>, after: seq<int>, k: nat)
    requires k <= |before| == |after| && NetDiff(before, after) == 0 && NoneStale(before, after)
    ensures Drift(before, after, k) == 0
  {
    if k < |before| {
      assert Error(before, after, 0, k) == 0;
    }
  }

  /** Whatever the encoder does: after a pass without net change no branch is stale exactly when no length changed. */
  lemma {:induction false} ExitTestExact(before: seq<int>, after: seq<int>)
    requires |before| == |after| && NetDiff(before, after) == 0
    ensures NoneStale(before, after) <==> before == after
  {
    if before == after {
      forall i, t | 0 <= i < |before| && 0 <= t < |before| ensures Error(before, after, i, t) == 0 {
        NoDrift(before, after, t);
      }
    } else if NoneStale(before, after) {
      forall k | 0 <= k < |before| ensures before[k] == after[k] {
        NowhereDrift(before, after, k);
        NowhereDrift(before, after, k + 1);
      }
    }
  }

  lemma {:induction false} DriftGrows(before: seq<int>, after: seq<int>, j: nat, k: nat)
    requires j <= k <= |before| == |after| && GrowOnly(before, after)
    ensures Drift(before, after, j) <= Drift(before, after, k)
  {
    if j < k {
      DriftGrows(before, after, j, k - 1);
    }
  }

  /** If lengths only grow the exit test is sound: no net change means no change, hence no stale branch. */
  lemma {:induction false} GrowOnlyExit(before: seq<int>, after: seq<int>)
    requires |before| == |after| && GrowOnly(before, after)
    ensures NetDiff(before, after) == 0 <==> before == after
    ensures NetDiff(before, after) == 0 ==> NoneStale(before, after)
  {
    if NetDiff(before, after) == 0 {
      forall k | 0 <= k < |before| ensures before[k] == after[k] {
        DriftGrows(before, after, 0, k);
        DriftGrows(before, after, k + 1, |before|);
      }
      ExitTestExact(before, after);
    } else if before == after {
      NoDrift(before, after, |before|);
    }
  }

  /** If an entry can shrink by what an earlier one grows, the loop stops with a stale branch: here the branch of
      entry 0 to entry 2 is off by one. */
  lemma {:induction false} ShrinkingCancels()
    ensures var before, after := [6, 5, 6], [6, 6, 5];
      NetDiff(before, after) == 0 && Error(before, after, 0, 2) == 1
  {
    var before, after := [6, 5, 6], [6, 6, 5];
    assert Drift(before, after, 1) == 0;
    assert Drift(before, after, 2) == 1;
    assert Drift(before, after, 3) == 0;
  }

  // ----- The same, of the instruction map -----

  function Sizes(table: seq<Entry>): (sizes: seq<int>)
    ensures |sizes| == |table|
  {
    seq(|table|, k requires 0 <= k < |table| => table[k].size)
  }

  lemma {:induction false} DriftOffset(start: seq<Entry>, table: seq<Entry>, k: nat)
    requires k <= |start| == |table|
    ensures Drift(Sizes(start), Sizes(table), k) == Offset(table, k) - Offset(start, k)
  {
    if k > 0 {
      DriftOffset(start, table, k - 1);
    }
  }

  /** A pass moves each entry by its drift. */
  lemma {:induction false} MovedByDrift(start: seq<Entry>, table: seq<Entry>, tc: Addr, k: nat)
    requires LaidOut(start, tc) && LaidOut(table, tc) && k < |start| == |table|
    ensures W64(start[k].newInsAddr + Drift(Sizes(start), Sizes(table), k)) == table[k].newInsAddr
  {
    hide LaidOut;
    var d := Drift(Sizes(start), Sizes(table), k);
    LaidOutOffset(start, tc, k);
    LaidOutOffset(table, tc, k);
    DriftOffset(start, table, k);
    W64Absorbs(tc + Offset(start, k), d);
  }

  /** The displacement a pass writes into entry `k` is off by exactly the error above: the branch, if it can reach as
      far, lands that much in front of where its target has got to. */
  lemma {:induction false} PassError(
      items: seq<Item>, start: seq<Entry>, table: seq<Entry>, tc: Addr, base: Addr, k: nat)
    requires LaidOut(start, tc) && LaidOut(table, tc) && k < |items| == |start| == |table|
    requires Aimed(items, start, table, base, k) && TargetOf(items[k]) != 0
    requires var t := table[k].targMapEntry; 0 <= t < |table|
    ensures var i, t := Current(table[k].encodedIns), table[k].targMapEntry;
      var end, aim := table[k].newInsAddr + Size(i), AimedAt(start, table, k);
      && IsDirect(i) && W64(aim + Error(Sizes(start), Sizes(table), k, t)) == table[t].newInsAddr
      && ((if i.Loop? then Fits8(Signed64(aim - end)) else Fits32(Signed64(aim - end))) ==>
           W64(end + i.disp + Error(Sizes(start), Sizes(table), k, t)) == table[t].newInsAddr)
  {
    hide W64, LaidOut, Signed64, Sext32, Sext8, Current;
    var i, t := Current(table[k].encodedIns), table[k].targMapEntry;
    var end, aim := table[k].newInsAddr + Size(i), AimedAt(start, table, k);
    var error := Error(Sizes(start), Sizes(table), k, t);
    if t > k {
      MovedByDrift(start, table, tc, t);
    } else {
      W64Id(table[t].newInsAddr);
    }
    assert Size(i) == FinalSize(items[k], true);
    ReachIff(end, aim);
    W64Absorbs(end + i.disp, error);
  }
}
