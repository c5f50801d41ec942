/** The file of the edge profile: written routine by routine, hottest edges first, and loaded again. */
module EdgeFile {
  import opened Words
  import opened Instructions
  import opened EdgeProfile
  import opened Csv

  // ----- One line -----

  function BoolText(b: bool): string { if b then "1" else "0" }

  function FieldsOf(e: Edge): seq<string> {
    [ToText(e.srcBBLHead, 16), ToText(e.source, 16), ToText(e.destination, 16), ToText(e.fallThrough, 16),
     ToText(e.rtnAddress, 16), ToText(e.takenCount, 10), ToText(e.notTakenCount, 10), BoolText(e.singleSource),
     BoolText(e.sharingTarget)]
  }

  function PrintEdge(e: Edge): string { Join(FieldsOf(e)) }

  /** A printed line: addresses are hexadecimal, counts decimal, flags 1 or 0. */
  lemma {:induction false} EdgeText(e: Edge)
    ensures PrintEdge(e) ==
      ToText(e.srcBBLHead, 16) + "," + ToText(e.source, 16) + "," + ToText(e.destination, 16) + "," +
      ToText(e.fallThrough, 16) + "," + ToText(e.rtnAddress, 16) + "," +
      ToText(e.takenCount, 10) + "," + ToText(e.notTakenCount, 10) + "," +
      (if e.singleSource then "1" else "0") + "," + (if e.sharingTarget then "1" else "0")
  {
    hide ToText;
    JoinNine(FieldsOf(e));
  }

  lemma {:induction false} JoinNine(p: seq<string>)
    requires |p| == 9
    ensures Join(p) ==
      p[0] + "," + p[1] + "," + p[2] + "," + p[3] + "," + p[4] + "," + p[5] + "," + p[6] + "," + p[7] + "," + p[8]
  {
    JoinThree(p[6..]);
    JoinFour(p[3..]);
    JoinFour(p);
    assert p[3..][3..] == p[6..];
  }

  lemma {:induction false} JoinThree(p: seq<string>)
    requires |p| == 3
    ensures Join(p) == p[0] + "," + p[1] + "," + p[2]
  {
    assert p[1..][1..] == [p[2]];
    assert Join(p[1..]) == p[1] + [COMMA] + Join([p[2]]);
  }

  lemma {:induction false} JoinFour(p: seq<string>)
    requires |p| > 3
    ensures Join(p) == p[0] + "," + p[1] + "," + p[2] + "," + Join(p[3..])
  {
    assert p[1..][1..] == p[2..] && p[2..][1..] == p[3..];
    assert Join(p[2..]) == p[2] + [COMMA] + Join(p[3..]);
    assert Join(p[1..]) == p[1] + [COMMA] + Join(p[2..]);
  }

  /** An edge from the pieces of a line; fails if one is missing or no number. */
  function EdgeOf(line: seq<string>): Option<Edge> {
    if |line| < 9 then None
    else
      var a, b, c := FromText(line[0], 16), FromText(line[1], 16), FromText(line[2], 16);
      var d, r := FromText(line[3], 16), FromText(line[4], 16);
      var t, n, s, h := FromText(line[5], 10), FromText(line[6], 10), FromText(line[7], 10), FromText(line[8], 10);
      if a.None? || b.None? || c.None? || d.None? || r.None? || t.None? || n.None? || s.None? || h.None? then None
      else Some(Edge(a.value, b.value, c.value, d.value, r.value, t.value, n.value, s.value != 0, h.value != 0))
  }

  lemma {:induction false} BoolRoundTrip(b: bool)
    ensures CommaFree(BoolText(b)) && FromText(BoolText(b), 10) == Some(if b then 1 else 0)
  {
    NumberRoundTrip(if b then 1 else 0, 10);
    assert ToText(if b then 1 else 0, 10) == BoolText(b);
  }

  /** Reading a printed edge gives it back, for all values of all fields. */
  lemma {:induction false} EdgeRoundTrip(e: Edge)
    ensures EdgeOf(Split(PrintEdge(e))) == Some(e)
    ensures Split(PrintEdge(e)) != []
  {
    hide FromText, ToText, Split, Join, BoolText;
    forall n: Addr, b: Base ensures FromText(ToText(n, b), b) == Some(n) && CommaFree(ToText(n, b)) {
      NumberRoundTrip(n, b);
    }
    BoolRoundTrip(e.singleSource);
    BoolRoundTrip(e.sharingTarget);
    assert BoolText(e.sharingTarget) != [] by { BoolTextSome(e.sharingTarget); }
    SplitJoin(FieldsOf(e));
  }

  lemma {:induction false} BoolTextSome(b: bool)
    ensures BoolText(b) != []
  {
  }

  // ----- Grouping by routine -----

  /** The edges of routine `r`, in order. */
  function OfRoutine(es: seq<Edge>, r: Addr): seq<Edge> {
    if es == [] then []
    else
      var last := es[|es| - 1];
      OfRoutine(es[..|es| - 1], r) + if last.rtnAddress == r then [last] else []
  }

  lemma {:induction false} OfRoutineMembers(es: seq<Edge>, r: Addr)
    ensures forall e :: e in OfRoutine(es, r) ==> e.rtnAddress == r
  {
    if es != [] {
      OfRoutineMembers(es[..|es| - 1], r);
    }
  }

  lemma {:induction false} OfRoutineAppend(es: seq<Edge>, fs: seq<Edge>, r: Addr)
    ensures OfRoutine(es + fs, r) == OfRoutine(es, r) + OfRoutine(fs, r)
  {
    if fs == [] {
      assert es + fs == es;
    } else {
      var front, last := fs[..|fs| - 1], fs[|fs| - 1];
      assert (es + fs)[..|es + fs| - 1] == es + front && (es + fs)[|es + fs| - 1] == last;
      OfRoutineAppend(es, front, r);
      var tail := if last.rtnAddress == r then [last] else [];
      assert (OfRoutine(es, r) + OfRoutine(front, r)) + tail == OfRoutine(es, r) + (OfRoutine(front, r) + tail);
    }
  }

  lemma {:induction false} OfRoutineAll(es: seq<Edge>, q: Addr, r: Addr)
    requires forall e :: e in es ==> e.rtnAddress == q
    ensures OfRoutine(es, r) == if q == r then es else []
  {
    if es != [] {
      var front, last := es[..|es| - 1], es[|es| - 1];
      OfRoutineAll(front, q, r);
      assert es == front + [last] && last in es;
    }
  }

  lemma {:induction false} OfRoutineCount(es: seq<Edge>, e: Edge)
    ensures multiset(OfRoutine(es, e.rtnAddress))[e] == multiset(es)[e]
  {
    if es != [] {
      OfRoutineCount(es[..|es| - 1], e);
      assert es == es[..|es| - 1] + [es[|es| - 1]];
    }
  }

  type Groups = map<Addr, seq<Edge>>

  /** The lists that appending the edges one by one to the list of their routine leads to. */
  ghost predicate GroupsOf(groups: Groups, es: seq<Edge>) {
    forall r :: (if r in groups then groups[r] else []) == OfRoutine(es, r)
  }

  lemma {:induction false} GroupsAppend(groups: Groups, es: seq<Edge>, e: Edge)
    requires GroupsOf(groups, es)
    ensures var r := e.rtnAddress;
      GroupsOf(groups[r := (if r in groups then groups[r] else []) + [e]], es + [e])
  {
    var g := groups[e.rtnAddress := (if e.rtnAddress in groups then groups[e.rtnAddress] else []) + [e]];
    forall r ensures (if r in g then g[r] else []) == OfRoutine(es + [e], r) {
      OfRoutineAppend(es, [e], r);
      OfRoutineAll([e], e.rtnAddress, r);
      assert (if r in groups then groups[r] else []) == OfRoutine(es, r);
    }
  }

  // ----- Loading -----

  /** The edges on the lines, empty lines left out; None if a line cannot be read. */
  function EdgesOn(lines: seq<string>): Option<seq<Edge>> {
    if lines == [] then Some([])
    else
      var front, last := EdgesOn(lines[..|lines| - 1]), lines[|lines| - 1];
      if front.None? then None
      else if Split(last) == [] then front
      else
        var e := EdgeOf(Split(last));
        if e.None? then None else Some(front.value + [e.value])
  }

  lemma {:induction false} EdgesOnPrefix(lines: seq<string>, k: nat)
    requires k <= |lines| && EdgesOn(lines[..k]).None?
    ensures EdgesOn(lines).None?
  {
    if k < |lines| {
      assert lines[..|lines| - 1][..k] == lines[..k];
      EdgesOnPrefix(lines[..|lines| - 1], k);
    } else {
      assert lines[..k] == lines;
    }
  }

  /** An empty line makes no difference, wherever it is. */
  lemma {:induction false} EdgesOnEmpty(xs: seq<string>, ys: seq<string>)
    ensures EdgesOn(xs + [""] + ys) == EdgesOn(xs + ys)
  {
    hide EdgesOn, EdgeOf;
    if ys == [] {
      EdgesOnNext(xs, "");
      assert xs + ys == xs && xs + [""] + ys == xs + [""];
    } else {
      var front, last := ys[..|ys| - 1], ys[|ys| - 1];
      EdgesOnEmpty(xs, front);
      EdgesOnNext(xs + front, last);
      EdgesOnNext(xs + [""] + front, last);
      assert xs + ys == (xs + front) + [last] && xs + [""] + ys == (xs + [""] + front) + [last];
    }
  }

  /** Loads a file: the first line is the headline, every other one that is not empty an edge.  Lines are read as long
      as the text has not ended, so behind a newline at the end there is one more. */
  method LoadEdges(text: string) returns (groups: Option<Groups>)
    ensures groups.None? <==> EdgesOn(Lines(text)[1..]).None?
    ensures groups.Some? ==> GroupsOf(groups.value, EdgesOn(Lines(text)[1..]).value)
  {
    hide Split, EdgeOf, GetLine, GroupsOf, Lines, EdgesOn;
    ghost var body := Lines(text)[1..];
    var g: Groups := map[];
    var (line, rest) := GetLine(text);
    ghost var i := 0;
    NoGroups();
    LinesStart(text);
    while rest.Some?
      invariant i <= |body| && body[i..] == if rest.Some? then Lines(rest.value) else []
      invariant EdgesOn(body[..i]).Some? && GroupsOf(g, EdgesOn(body[..i]).value)
      decreases |body| - i
    {
      LinesStart(rest.value);
      line, rest := GetLine(rest.value).0, GetLine(rest.value).1;
      assert body[i..][0] == line && body[i..][1..] == body[i + 1..];
      assert body[..i + 1] == body[..i] + [line];
      EdgesOnNext(body[..i], line);
      i := i + 1;
      var pieces := SplitLine(line);
      if |pieces| == 0 {
        continue;
      }
      var e := EdgeOf(pieces);
      if e.None? {
        EdgesOnPrefix(body, i);
        return None;
      }
      GroupsAppend(g, EdgesOn(body[..i - 1]).value, e.value);
      var r := e.value.rtnAddress;
      g := g[r := (if r in g then g[r] else []) + [e.value]];
    }
    assert body[..|body|] == body;
    groups := Some(g);
  }

  lemma {:induction false} EdgesOnNext(lines: seq<string>, line: string)
    ensures EdgesOn(lines + [line]) ==
      if EdgesOn(lines).None? || Split(line) == [] then EdgesOn(lines)
      else if EdgeOf(Split(line)).None? then None
      else Some(EdgesOn(lines).value + [EdgeOf(Split(line)).value])
  {
    hide Split, EdgeOf;
    assert (lines + [line])[..|lines|] == lines;
  }

  lemma {:induction false} NoGroups()
    ensures GroupsOf(map[], []) && EdgesOn([]) == Some([])
  {
  }

  lemma {:induction false} LinesStart(text: string)
    ensures var (line, rest) := GetLine(text);
      Lines(text)[0] == line && Lines(text)[1..] == if rest.None? then [] else Lines(rest.value)
  {
  }

  // ----- Writing -----

  predicate Descending(es: seq<Edge>) {
    forall i, j :: 0 <= i < j < |es| ==> es[i].takenCount >= es[j].takenCount
  }

  predicate CompareEdge(e1: Edge, e2: Edge) { e1.takenCount > e2.takenCount }

  /** What the library sort does with this comparison: nothing is lost, and nothing stands behind what should be behind
      it. */
  ghost predicate Sorts(sort: seq<Edge> -> seq<Edge>) {
    forall es: seq<Edge> {:trigger sort(es)} :: multiset(sort(es)) == multiset(es) &&
      forall i, j :: 0 <= i < j < |sort(es)| ==> !CompareEdge(sort(es)[j], sort(es)[i])
  }

  lemma {:induction false} SortedDescends(sort: seq<Edge> -> seq<Edge>, es: seq<Edge>)
    requires Sorts(sort)
    ensures Descending(sort(es)) && multiset(sort(es)) == multiset(es)
  {
  }

  function PrintAll(es: seq<Edge>): (lines: seq<string>)
    ensures |lines| == |es| && forall k :: 0 <= k < |es| ==> lines[k] == PrintEdge(es[k])
  {
    seq(|es|, k requires 0 <= k < |es| => PrintEdge(es[k]))
  }

  /** `es` holds each record filed under one of `heads` once. */
  ghost predicate Lists(edges: EdgeMap, heads: set<Addr>, es: seq<Edge>) {
    forall e :: multiset(es)[e] ==
      if e.srcBBLHead in heads && e.srcBBLHead in edges && edges[e.srcBBLHead] == e then 1 else 0
  }

  method GroupByRoutine(edges: EdgeMap) returns (groups: Groups, ghost seen: seq<Edge>)
    requires Filed(edges)
    ensures GroupsOf(groups, seen) && Lists(edges, edges.Keys, seen)
  {
    hide GroupsOf, Lists, Filed;
    groups, seen := map[], [];
    var todo := edges.Keys;
    NothingListed(edges);
    assert edges.Keys - todo == {};
    while todo != {}
      invariant todo <= edges.Keys && GroupsOf(groups, seen) && Lists(edges, edges.Keys - todo, seen)
      decreases todo
    {
      var h :| h in todo;
      var edge := edges[h];
      GroupsAppend(groups, seen, edge);
      ListsAppend(edges, edges.Keys - todo, seen, h);
      assert edges.Keys - (todo - {h}) == edges.Keys - todo + {h};
      todo := todo - {h};
      groups := groups[edge.rtnAddress := (if edge.rtnAddress in groups then groups[edge.rtnAddress] else []) + [edge]];
      seen := seen + [edge];
    }
    assert edges.Keys - {} == edges.Keys;
  }

  /** The groups not in `left` have been printed, each sorted. */
  ghost predicate PrintedBut(groups: Groups, left: set<Addr>, sort: seq<Edge> -> seq<Edge>, printed: seq<Edge>) {
    forall r :: OfRoutine(printed, r) == if r in groups && r !in left then sort(groups[r]) else []
  }

  lemma {:induction false} PrintedStep(
      groups: Groups, seen: seq<Edge>, left: set<Addr>, sort: seq<Edge> -> seq<Edge>, printed: seq<Edge>, r: Addr)
    requires GroupsOf(groups, seen) && Sorts(sort) && PrintedBut(groups, left, sort, printed)
    requires r in left && r in groups
    ensures PrintedBut(groups, left - {r}, sort, printed + sort(groups[r]))
  {
    hide Sorts, GroupsOf, OfRoutine;
    SortedGroup(groups, seen, sort, r);
    var more := sort(groups[r]);
    forall q ensures OfRoutine(printed + more, q) == if q in groups && q !in left - {r} then sort(groups[q]) else [] {
      OfRoutineAppend(printed, more, q);
      OfRoutineAll(more, r, q);
      assert OfRoutine(printed, q) == if q in groups && q !in left then sort(groups[q]) else [];
    }
  }

  lemma {:induction false} NothingListed(edges: EdgeMap)
    ensures Lists(edges, {}, []) && GroupsOf(map[], [])
  {
  }

  /** Groups the records by routine, sorts each group and prints it. */
  method FindTargetEdges(edges: EdgeMap, sort: seq<Edge> -> seq<Edge>) returns (lines: seq<string>)
    requires Filed(edges) && Sorts(sort)
    ensures exists printed :: lines == PrintAll(printed) && Lists(edges, edges.Keys, printed)
                              && forall r :: Descending(OfRoutine(printed, r))
  {
    hide GroupsOf, Sorts, PrintedBut, Lists, Filed, PrintEdge;
    ghost var seen;
    var groups;
    groups, seen := GroupByRoutine(edges);
    lines := [];
    ghost var printed: seq<Edge> := [];
    var left := groups.Keys;
    NothingPrinted(groups, sort);
    while left != {}
      invariant left <= groups.Keys && lines == PrintAll(printed) && PrintedBut(groups, left, sort, printed)
      decreases left
    {
      var r :| r in left;
      PrintedStep(groups, seen, left, sort, printed, r);
      left := left - {r};
      var rtnEdges := sort(groups[r]);
      lines := lines + PrintAll(rtnEdges);
      printed := printed + rtnEdges;
    }
    PrintedEnd(edges, groups, seen, sort, printed);
  }

  lemma {:induction false} NothingPrinted(groups: Groups, sort: seq<Edge> -> seq<Edge>)
    ensures PrintedBut(groups, groups.Keys, sort, [])
  {
  }

  lemma {:induction false} PrintedEnd(
      edges: EdgeMap, groups: Groups, seen: seq<Edge>, sort: seq<Edge> -> seq<Edge>, printed: seq<Edge>)
    requires GroupsOf(groups, seen) && Lists(edges, edges.Keys, seen)
    requires Sorts(sort) && PrintedBut(groups, {}, sort, printed)
    ensures Lists(edges, edges.Keys, printed) && forall r :: Descending(OfRoutine(printed, r))
  {
    hide OfRoutine, Descending, Sorts;
    forall r
      ensures Descending(OfRoutine(printed, r))
      ensures multiset(OfRoutine(printed, r)) == multiset(OfRoutine(seen, r))
    {
      assert OfRoutine(printed, r) == if r in groups then sort(groups[r]) else [];
      assert (if r in groups then groups[r] else []) == OfRoutine(seen, r);
      DescendingNone();
      if r in groups {
        SortedDescends(sort, groups[r]);
      }
    }
    forall e ensures multiset(printed)[e] == multiset(seen)[e] {
      OfRoutineCount(printed, e);
      OfRoutineCount(seen, e);
    }
  }

  lemma {:induction false} DescendingNone()
    ensures Descending([])
  {
  }

  lemma {:induction false} SortedGroup(groups: Groups, seen: seq<Edge>, sort: seq<Edge> -> seq<Edge>, r: Addr)
    requires GroupsOf(groups, seen) && Sorts(sort) && r in groups
    ensures forall e :: e in sort(groups[r]) ==> e.rtnAddress == r
  {
    hide Sorts;
    assert groups[r] == OfRoutine(seen, r);
    SortedDescends(sort, groups[r]);
    OfRoutineMembers(seen, r);
    forall e | e in sort(groups[r]) ensures e.rtnAddress == r {
      assert e in multiset(sort(groups[r]));
      assert e in multiset(groups[r]);
    }
  }

  lemma {:induction false} ListsAppend(edges: EdgeMap, heads: set<Addr>, es: seq<Edge>, h: Addr)
    requires Filed(edges) && Lists(edges, heads, es) && h in edges && h !in heads
    ensures Lists(edges, heads + {h}, es + [edges[h]])
  {
  }

  // ----- There and back -----

  lemma {:induction false} EdgesOnPrinted(es: seq<Edge>)
    ensures EdgesOn(PrintAll(es)) == Some(es)
  {
    hide Split, EdgeOf, PrintEdge;
    if es != [] {
      var front := es[..|es| - 1];
      EdgesOnPrinted(front);
      EdgeRoundTrip(es[|es| - 1]);
      assert PrintAll(es)[..|es| - 1] == PrintAll(front);
      assert front + [es[|es| - 1]] == es;
    }
  }

  lemma {:induction false} PrintedOneLine(e: Edge)
    ensures NEWLINE !in PrintEdge(e)
  {
    hide ToText, Join;
    forall n: Addr, b: Base ensures NEWLINE !in ToText(n, b) {
      DigitsOneLine(n, b);
    }
    JoinOneLine(FieldsOf(e));
  }

  /** What is read of a file that was written: the edges that were printed, and the empty line behind them passed
      over. */
  lemma {:induction false} EdgesInFile(headline: string, es: seq<Edge>)
    requires NEWLINE !in headline
    ensures EdgesOn(Lines(FileText([headline] + PrintAll(es)))[1..]) == Some(es)
  {
    hide PrintEdge, Lines, FileText, EdgesOn;
    var lines := [headline] + PrintAll(es);
    forall line | line in lines ensures NEWLINE !in line {
      if line != headline {
        var k :| 0 <= k < |es| && line == PrintAll(es)[k];
        PrintedOneLine(es[k]);
      }
    }
    LinesOfFile(lines);
    assert (lines + [""])[1..] == PrintAll(es) + [""] + [];
    EdgesOnEmpty(PrintAll(es), []);
    assert PrintAll(es) + [] == PrintAll(es);
    EdgesOnPrinted(es);
  }

  /**
   The file round trip: loading what was written gives, for each routine, the edges of that routine, each once,
   in descending order of their taken counts.
  */
  lemma {:induction false} FileRoundTrip(headline: string, edges: EdgeMap, printed: seq<Edge>, groups: Groups)
    requires NEWLINE !in headline
    requires Filed(edges) && Lists(edges, edges.Keys, printed) && forall r :: Descending(OfRoutine(printed, r))
    requires var read := EdgesOn(Lines(FileText([headline] + PrintAll(printed)))[1..]);
      read.Some? ==> GroupsOf(groups, read.value)
    ensures forall r :: r in groups ==> Descending(groups[r])
    ensures forall r, e: Edge :: r in groups ==>
      multiset(groups[r])[e] == if e.rtnAddress == r && e.srcBBLHead in edges && edges[e.srcBBLHead] == e then 1 else 0
    ensures forall h :: h in edges ==> edges[h].rtnAddress in groups
  {
    hide OfRoutine, Descending, PrintAll, EdgesOn, Lines, FileText;
    EdgesInFile(headline, printed);
    forall r ensures (if r in groups then groups[r] else []) == OfRoutine(printed, r) {
    }
    forall e: Edge ensures multiset(OfRoutine(printed, e.rtnAddress))[e] == multiset(printed)[e] {
      OfRoutineCount(printed, e);
    }
    forall r, e: Edge | e.rtnAddress != r ensures multiset(OfRoutine(printed, r))[e] == 0 {
      OfRoutineMembers(printed, r);
      assert e !in OfRoutine(printed, r);
    }
    forall h | h in edges ensures edges[h].rtnAddress in groups {
      assert multiset(printed)[edges[h]] == 1;
      assert multiset(OfRoutine(printed, edges[h].rtnAddress))[edges[h]] == 1;
    }
  }
}
