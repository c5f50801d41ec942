/** The sweep that finds the first instruction of each routine among all instructions in address order. */
module HeaderMerge {
  import opened Words

  /** A row of the table of routines; `safe` is set when the first instruction of the routine was found. */
  datatype Row = Row(addr: Addr, instrMapEntry: int, safe: bool)

  predicate Increasing(addrs: seq<Addr>) {
    forall j, k :: 0 <= j < k < |addrs| ==> addrs[j] < addrs[k]
  }

  /** Routines in address order, not found yet. */
  predicate Pending(rows: seq<Row>) {
    && (forall j, k :: 0 <= j < k < |rows| ==> rows[j].addr < rows[k].addr)
    && (forall r :: 0 <= r < |rows| ==> !rows[r].safe)
  }

  /** The first `n` routines all begin with one of the instructions. */
  predicate Headed(addrs: seq<Addr>, rows: seq<Row>, n: nat) {
    n <= |rows| && forall r :: 0 <= r < n ==> rows[r].addr in addrs
  }

  /** The row is redirected to the entry for the instruction at its own address. */
  predicate Redirected(addrs: seq<Addr>, row: Row) {
    row.safe && 0 <= row.instrMapEntry < |addrs| && addrs[row.instrMapEntry] == row.addr
  }

  /** The same, `made` entries being there. */
  predicate WellRedirected(addrs: seq<Addr>, made: nat, row: Row) {
    Redirected(addrs, row) && row.instrMapEntry < made
  }

  /** The sweep has passed the instructions in `addrs`: the rows up to the first without its instruction among them are
      redirected, and no other row was touched. */
  ghost predicate Swept(addrs: seq<Addr>, rows: seq<Row>, out: seq<Row>, n: nat) {
    && |out| == |rows| && Headed(addrs, rows, n) && (n < |rows| ==> rows[n].addr !in addrs)
    && forall r :: 0 <= r < |rows| ==>
      if r < n then out[r].addr == rows[r].addr && Redirected(addrs, out[r]) else out[r] == rows[r]
  }

  lemma {:induction false} NotSwept(rows: seq<Row>)
    ensures Swept([], rows, rows, 0)
  {
  }

  lemma {:induction false} SweepStep(addrs: seq<Addr>, rows: seq<Row>, out: seq<Row>, n: nat, a: Addr)
    requires Increasing(addrs + [a]) && Pending(rows) && Swept(addrs, rows, out, n)
    ensures if n < |rows| && out[n].addr == a
      then Swept(addrs + [a], rows, out[n := out[n].(instrMapEntry := |addrs|, safe := true)], n + 1)
      else Swept(addrs + [a], rows, out, n)
  {
    var addrs' := addrs + [a];
    forall r | 0 <= r < n ensures Redirected(addrs', out[r]) && rows[r].addr in addrs' {
      assert addrs'[out[r].instrMapEntry] == addrs[out[r].instrMapEntry];
    }
    if n < |rows| && out[n].addr == a && n + 1 < |rows| {
      assert rows[n].addr == a == addrs'[|addrs|] && rows[n].addr < rows[n + 1].addr;
      forall k | 0 <= k < |addrs'| ensures addrs'[k] != rows[n + 1].addr {
        assert k < |addrs| ==> addrs'[k] < addrs'[|addrs|];
      }
    }
  }

  /** Without a failure a routine is redirected exactly if it and all routines before it begin with one of the
      instructions: one that does not holds up those after it. */
  lemma {:induction false} SweepEnd(addrs: seq<Addr>, rows: seq<Row>, out: seq<Row>, n: nat)
    requires Pending(rows) && Swept(addrs, rows, out, n)
    ensures forall r :: 0 <= r < |rows| ==> Merged(addrs, rows, out, r)
  {
    forall r | 0 <= r < |rows| ensures Merged(addrs, rows, out, r) {
      HeadedIff(addrs, rows, out, n, r + 1);
    }
  }

  predicate Merged(addrs: seq<Addr>, rows: seq<Row>, out: seq<Row>, r: nat)
    requires r < |rows| == |out|
  {
    && out[r].addr == rows[r].addr && (Redirected(addrs, out[r]) <==> Headed(addrs, rows, r + 1))
    && (!Headed(addrs, rows, r + 1) ==> out[r] == rows[r])
  }

  lemma {:induction false} HeadedIff(addrs: seq<Addr>, rows: seq<Row>, out: seq<Row>, n: nat, m: nat)
    requires Swept(addrs, rows, out, n) && m <= |rows|
    ensures Headed(addrs, rows, m) <==> m <= n
  {
  }

  /** The table after a failure at instruction `failing`, for which an entry was made or was not: the routines found up
      to it are redirected, rightly but for the one that begins with it, if its entry is missing; the first
      routine not found is marked as failed. */
  ghost predicate Failed(addrs: seq<Addr>, rows: seq<Row>, out: seq<Row>, failing: nat, made: nat)
    requires failing < |addrs|
  {
    |out| == |rows| && forall r :: 0 <= r < |rows| ==> FailedRow(addrs, rows, out, failing, made, r)
  }

  ghost predicate FailedRow(addrs: seq<Addr>, rows: seq<Row>, out: seq<Row>, failing: nat, made: nat, r: nat)
    requires failing < |addrs| && r < |rows| == |out|
  {
    var seen := addrs[..failing + 1];
    if Headed(seen, rows, r + 1) then
      && out[r].addr == rows[r].addr && Redirected(addrs, out[r])
      && (WellRedirected(addrs, made, out[r]) <==> rows[r].addr != addrs[failing] || failing < made)
    else out[r] == if Headed(seen, rows, r) then rows[r].(instrMapEntry := -1) else rows[r]
  }

  lemma {:induction false} SweepFails(
      addrs: seq<Addr>, rows: seq<Row>, out: seq<Row>, n: nat, failing: nat, made: nat)
    requires Increasing(addrs) && Pending(rows) && failing < |addrs| && failing <= made <= failing + 1
    requires Swept(addrs[..failing + 1], rows, out, n)
    ensures Failed(addrs, rows, if n < |rows| then out[n := out[n].(instrMapEntry := -1)] else out, failing, made)
  {
    var seen := addrs[..failing + 1];
    var out' := if n < |rows| then out[n := out[n].(instrMapEntry := -1)] else out;
    forall r | 0 <= r < |rows| ensures FailedRow(addrs, rows, out', failing, made, r) {
      HeadedIff(seen, rows, out, n, r + 1);
      HeadedIff(seen, rows, out, n, r);
      if r < n {
        assert Redirected(seen, out[r]) && seen[out[r].instrMapEntry] == addrs[out[r].instrMapEntry];
        assert out[r].instrMapEntry < failing ==> addrs[out[r].instrMapEntry] < addrs[failing];
      }
    }
  }

  /**
   One sweep over the instructions; adding instruction `failing` is the first that fails, if there is such a one, and
   `added` tells whether it got an entry all the same (as when the map is full).
  */
  method MergeHeaders(addrs: seq<Addr>, rows: seq<Row>, failing: nat, added: bool) returns (out: seq<Row>, made: nat)
    requires Increasing(addrs) && Pending(rows)
    ensures |out| == |rows|
    ensures made == if failing >= |addrs| then |addrs| else if added then failing + 1 else failing
    ensures failing >= |addrs| ==> forall r :: 0 <= r < |rows| ==> Merged(addrs, rows, out, r)
    ensures failing < |addrs| ==> Failed(addrs, rows, out, failing, made)
  {
    hide Increasing, Pending, Failed, Swept, Merged;
    out, made := rows, 0;
    var rtnNum: nat := 0;
    NotSwept(rows);
    assert addrs[..0] == [];
    for i := 0 to |addrs|
      invariant i <= failing && made == i && |out| == |rows|
      invariant Swept(addrs[..i], rows, out, rtnNum)
    {
      assert addrs[..i + 1] == addrs[..i] + [addrs[i]];
      PrefixIncreasing(addrs, i + 1);
      SweepStep(addrs[..i], rows, out, rtnNum, addrs[i]);
      if rtnNum < |rows| && out[rtnNum].addr == addrs[i] {
        out := out[rtnNum := out[rtnNum].(instrMapEntry := made, safe := true)];
        rtnNum := rtnNum + 1;
      }
      if i != failing || added {
        made := made + 1;
      }
      if i == failing {
        SweepFails(addrs, rows, out, rtnNum, failing, made);
        if rtnNum < |rows| {
          out := out[rtnNum := out[rtnNum].(instrMapEntry := -1)];
        }
        return;
      }
    }
    assert addrs[..|addrs|] == addrs;
    SweepEnd(addrs, rows, out, rtnNum);
  }

  lemma {:induction false} PrefixIncreasing(addrs: seq<Addr>, n: nat)
    requires Increasing(addrs) && n <= |addrs|
    ensures Increasing(addrs[..n])
  {
  }

  /** If every routine begins with one of the instructions, each is redirected to its own first instruction. */
  lemma {:induction false} AllRedirected(addrs: seq<Addr>, rows: seq<Row>, out: seq<Row>)
    requires |out| == |rows| && Headed(addrs, rows, |rows|)
    requires forall r :: 0 <= r < |rows| ==> Merged(addrs, rows, out, r)
    ensures forall r :: 0 <= r < |rows| ==> out[r].addr == rows[r].addr && Redirected(addrs, out[r])
  {
    forall r | 0 <= r < |rows| ensures out[r].addr == rows[r].addr && Redirected(addrs, out[r]) {
      assert Merged(addrs, rows, out, r);
    }
  }

  /** A routine whose first instruction could not be encoded: it is redirected all the same, to an entry that was not
      made, and it is the next routine that is marked as failed. */
  lemma {:induction false} FailingHeader()
    ensures var addrs, rows := [0x1000, 0x2000], [Row(0x1000, 0, false), Row(0x2000, 0, false)];
      var out := [Row(0x1000, 0, true), Row(0x2000, -1, false)];
      && Increasing(addrs) && Pending(rows) && !WellRedirected(addrs, 0, out[0])
      && forall after :: Failed(addrs, rows, after, 0, 0) ==> after == out
  {
    var addrs, rows := [0x1000, 0x2000], [Row(0x1000, 0, false), Row(0x2000, 0, false)];
    forall after | Failed(addrs, rows, after, 0, 0)
      ensures after == [Row(0x1000, 0, true), Row(0x2000, -1, false)]
    {
      assert addrs[..1] == [0x1000] && rows[1].addr !in addrs[..1];
      assert Headed([0x1000], rows, 1) && !Headed([0x1000], rows, 2);
      assert FailedRow(addrs, rows, after, 0, 0, 0) && FailedRow(addrs, rows, after, 0, 0, 1);
    }
  }
}
