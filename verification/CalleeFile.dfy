/** The file of the call profile: each routine called often enough, with its hottest caller. */
module CalleeFile {
  import opened Words
  import opened Instructions
  import opened CallProfile
  import opened Csv

  datatype RtnCounts = RtnCounts(callNum: nat, callers: map<Addr, nat>)

  /** The counters of every routine come from some calls. */
  ghost predicate Profiled(all: map<Addr, RtnCounts>) {
    forall r :: r in all ==> exists calls :: CountsAre(calls, all[r].callNum, all[r].callers)
  }

  ghost predicate Hottest(callers: map<Addr, nat>, a: Addr) {
    a in callers && forall b :: b in callers ==> callers[b] <= callers[a]
  }

  /** The pairs to be written for the routines in `done`: those over the threshold, each once, with a hottest caller. */
  ghost predicate PairsOf(all: map<Addr, RtnCounts>, done: set<Addr>, threshold: nat, pairs: seq<(Addr, Addr)>) {
    && (forall k :: 0 <= k < |pairs| ==>
          && pairs[k].0 in done && pairs[k].0 in all
          && all[pairs[k].0].callNum >= threshold && Hottest(all[pairs[k].0].callers, pairs[k].1))
    && (forall j, k :: 0 <= j < k < |pairs| ==> pairs[j].0 != pairs[k].0)
    && (forall r :: r in all && r in done && all[r].callNum >= threshold ==>
          exists k :: 0 <= k < |pairs| && pairs[k].0 == r)
  }

  function PrintPairs(pairs: seq<(Addr, Addr)>): (lines: seq<string>)
    ensures |lines| == |pairs| && forall k :: 0 <= k < |pairs| ==> lines[k] == PrintCallee(pairs[k].0, pairs[k].1)
  {
    seq(|pairs|, k requires 0 <= k < |pairs| => PrintCallee(pairs[k].0, pairs[k].1))
  }

  method PrintTargetCallees(all: map<Addr, RtnCounts>, threshold: nat) returns (lines: seq<string>)
    requires threshold > 0 && Profiled(all)
    ensures exists pairs :: lines == PrintPairs(pairs) && PairsOf(all, all.Keys, threshold, pairs)
  {
    hide PrintCallee, PairsOf, Profiled, CountsAre;
    lines := [];
    ghost var pairs: seq<(Addr, Addr)> := [];
    var todo := all.Keys;
    NoPairs(all, threshold);
    assert all.Keys - todo == {};
    while todo != {}
      invariant todo <= all.Keys && lines == PrintPairs(pairs) && PairsOf(all, all.Keys - todo, threshold, pairs)
      decreases todo
    {
      var r :| r in todo;
      assert all.Keys - (todo - {r}) == all.Keys - todo + {r};
      var callee := all[r];
      if callee.callNum < threshold {
        PairsSkip(all, all.Keys - todo, threshold, pairs, r);
        todo := todo - {r};
        continue;
      }
      OverThreshold(all, r, threshold);
      var hottestCaller := HottestCaller(callee.callers);
      PairsAdd(all, all.Keys - todo, threshold, pairs, r, hottestCaller);
      todo := todo - {r};
      lines := lines + [PrintCallee(r, hottestCaller)];
      pairs := pairs + [(r, hottestCaller)];
    }
    assert all.Keys - {} == all.Keys;
  }

  lemma {:induction false} NoPairs(all: map<Addr, RtnCounts>, threshold: nat)
    ensures PairsOf(all, {}, threshold, [])
  {
  }

  lemma {:induction false} PairsSkip(
      all: map<Addr, RtnCounts>, done: set<Addr>, threshold: nat, pairs: seq<(Addr, Addr)>, r: Addr)
    requires PairsOf(all, done, threshold, pairs) && r in all && all[r].callNum < threshold
    ensures PairsOf(all, done + {r}, threshold, pairs)
  {
    hide Hottest;
  }

  lemma {:induction false} PairsAdd(
      all: map<Addr, RtnCounts>, done: set<Addr>, threshold: nat, pairs: seq<(Addr, Addr)>, r: Addr, a: Addr)
    requires PairsOf(all, done, threshold, pairs) && r in all && r !in done
    requires all[r].callNum >= threshold && Hottest(all[r].callers, a)
    ensures PairsOf(all, done + {r}, threshold, pairs + [(r, a)])
  {
    hide Hottest;
    var more := pairs + [(r, a)];
    forall q | q in all && q in done + {r} && all[q].callNum >= threshold
      ensures exists k :: 0 <= k < |more| && more[k].0 == q
    {
      if q == r {
        assert more[|pairs|].0 == r;
      } else {
        var k :| 0 <= k < |pairs| && pairs[k].0 == q;
        assert more[k].0 == q;
      }
    }
  }

  lemma {:induction false} OverThreshold(all: map<Addr, RtnCounts>, r: Addr, threshold: nat)
    requires Profiled(all) && r in all && all[r].callNum >= threshold > 0
    ensures all[r].callers != map[]
  {
    var calls :| CountsAre(calls, all[r].callNum, all[r].callers);
    CalledHasCaller(calls, all[r].callNum, all[r].callers, threshold);
  }

  /** The pairs on the lines; None if a line cannot be read. */
  function PairsOn(lines: seq<string>): Option<seq<(Addr, Addr)>> {
    if lines == [] then Some([])
    else
      var front := PairsOn(lines[..|lines| - 1]);
      if front.None? then None
      else match CalleeOf(lines[|lines| - 1])
        case Pair(callee, caller) => Some(front.value + [(callee, caller)])
        case Skipped => front
        case Unreadable => None
  }

  /** A line whose first or second piece is empty makes no difference, wherever it is. */
  lemma {:induction false} PairsOnSkipped(xs: seq<string>, first: string, second: string, rest: string, ys: seq<string>)
    requires CommaFree(first) && CommaFree(second) && (first == [] || second == [])
    ensures PairsOn(xs + [first + "," + second + "," + rest] + ys) == PairsOn(xs + ys)
  {
    hide CalleeOf, PairsOn;
    var line := first + "," + second + "," + rest;
    if ys == [] {
      CalleeFields(first, second, rest);
      PairsOnNext(xs, line);
      assert xs + ys == xs && xs + [line] + ys == xs + [line];
    } else {
      var front, last := ys[..|ys| - 1], ys[|ys| - 1];
      PairsOnSkipped(xs, first, second, rest, front);
      PairsOnNext(xs + front, last);
      PairsOnNext(xs + [line] + front, last);
      assert xs + ys == (xs + front) + [last] && xs + [line] + ys == (xs + [line] + front) + [last];
    }
  }

  lemma {:induction false} PairsOnNext(lines: seq<string>, line: string)
    ensures PairsOn(lines + [line]) ==
      if PairsOn(lines).None? then None
      else match CalleeOf(line)
        case Pair(callee, caller) => Some(PairsOn(lines).value + [(callee, caller)])
        case Skipped => PairsOn(lines)
        case Unreadable => None
  {
    assert (lines + [line])[..|lines|] == lines;
  }

  lemma {:induction false} PairsOnPrefix(lines: seq<string>, k: nat)
    requires k <= |lines| && PairsOn(lines[..k]).None?
    ensures PairsOn(lines).None?
  {
    if k < |lines| {
      assert lines[..|lines| - 1][..k] == lines[..k];
      PairsOnPrefix(lines[..|lines| - 1], k);
    } else {
      assert lines[..k] == lines;
    }
  }

  /** Reads the file back; the first line is the headline.  Lines are read as long as there is anything to read. */
  method InitInlineData(text: string) returns (calleeCallers: Option<seq<(Addr, Addr)>>)
    ensures calleeCallers == if WholeLines(text) == [] then Some([]) else PairsOn(WholeLines(text)[1..])
  {
    hide CalleeOf, GetLine, Lines;
    ghost var lines := WholeLines(text);
    var pairs: seq<(Addr, Addr)> := [];
    var firstLine := true;
    var rest := Some(text);
    ghost var i := 0;
    while rest.Some? && rest.value != []
      invariant i <= |lines| && lines[i..] == if rest.Some? then WholeLines(rest.value) else []
      invariant firstLine <==> i == 0
      invariant i > 0 ==> PairsOn(lines[1..][..i - 1]) == Some(pairs)
      invariant i == 0 ==> pairs == []
      decreases |lines| - i
    {
      WholeLinesStart(rest.value);
      var line := GetLine(rest.value).0;
      rest := GetLine(rest.value).1;
      assert lines[i..][0] == line && lines[i..][1..] == lines[i + 1..];
      i := i + 1;
      if firstLine {
        firstLine := false;
        continue;
      }
      ghost var body := lines[1..];
      assert body[..i - 1][..i - 2] == body[..i - 2] && body[i - 2] == line;
      var r := ReadCallee(line);
      match r {
        case Pair(callee, caller) =>
          pairs := pairs + [(callee, caller)];
        case Skipped =>
        case Unreadable =>
          PairsOnPrefix(body, i - 1);
          return None;
      }
    }
    WholeLinesNone();
    assert i == |lines|;
    assert lines != [] ==> lines[1..][..|lines| - 1] == lines[1..];
    calleeCallers := Some(pairs);
  }

  lemma {:induction false} WholeLinesNone()
    ensures WholeLines("") == []
  {
  }

  lemma {:induction false} WholeLinesStart(text: string)
    requires text != []
    ensures var (line, rest) := GetLine(text);
      && WholeLines(text) != [] && WholeLines(text)[0] == line
      && WholeLines(text)[1..] == if rest.None? then [] else WholeLines(rest.value)
  {
  }

  lemma {:induction false} PairsOnPrinted(pairs: seq<(Addr, Addr)>)
    ensures PairsOn(PrintPairs(pairs)) == Some(pairs)
  {
    hide CalleeOf, PrintCallee;
    if pairs != [] {
      var front, last := pairs[..|pairs| - 1], pairs[|pairs| - 1];
      PairsOnPrinted(front);
      CalleeRoundTrip(last.0, last.1);
      assert PrintPairs(pairs)[..|pairs| - 1] == PrintPairs(front);
      assert front + [last] == pairs;
    }
  }

  lemma {:induction false} PrintedOneLine(callee: Addr, caller: Addr)
    ensures NEWLINE !in PrintCallee(callee, caller)
  {
    hide ToText;
    DigitsOneLine(callee, 16);
    DigitsOneLine(caller, 16);
  }

  /** Reading a file of printed pairs back yields exactly those pairs. */
  lemma {:induction false} PairsRoundTrip(headline: string, pairs: seq<(Addr, Addr)>)
    requires NEWLINE !in headline
    ensures var lines := WholeLines(FileText([headline] + PrintPairs(pairs)));
      lines != [] && PairsOn(lines[1..]) == Some(pairs)
  {
    hide PrintCallee, Lines, WholeLines, FileText, PairsOn;
    var lines := [headline] + PrintPairs(pairs);
    forall line | line in lines ensures NEWLINE !in line {
      if line != headline {
        var k :| 0 <= k < |pairs| && line == PrintPairs(pairs)[k];
        PrintedOneLine(pairs[k].0, pairs[k].1);
      }
    }
    LinesOfFile(lines);
    PairsOnPrinted(pairs);
  }
}
