/** The text of the profile files: numbers, comma-separated lines, and reading them back. */
module Csv {
  import opened Words
  import opened Instructions

  const COMMA := ','

  // ----- Numbers -----

  type Base = b: int | b == 10 || b == 16 witness 10

  function DigitChar(d: nat): char
    requires d < 16
  {
    "0123456789abcdef"[d]
  }

  /** The value of a digit, or the base if `c` is none. */
  function DigitValue(c: char, base: Base): (v: nat)
    ensures v <= base
  {
    if '0' <= c <= '9' then (c as int - '0' as int)
    else if base == 16 && 'a' <= c <= 'f' then (c as int - 'a' as int + 10)
    else if base == 16 && 'A' <= c <= 'F' then (c as int - 'A' as int + 10)
    else base
  }

  lemma {:induction false} DigitBack(d: nat, base: Base)
    requires d < base
    ensures DigitValue(DigitChar(d), base) == d && DigitChar(d) != COMMA
  {
  }

  /** `n` in the given base, without leading zeros. */
  function ToText(n: nat, base: Base): (s: string)
    ensures s != []
  {
    if n < base then [DigitChar(n)] else ToText(n / base, base) + [DigitChar(n % base)]
  }

  /** Number of digits that `s` begins with. */
  function DigitCount(s: string, base: Base): (k: nat)
    ensures k <= |s| && (forall i :: 0 <= i < k ==> DigitValue(s[i], base) < base)
    ensures k < |s| ==> DigitValue(s[k], base) == base
  {
    if s == [] || DigitValue(s[0], base) == base then 0 else 1 + DigitCount(s[1..], base)
  }

  function Value(digits: string, base: Base): nat {
    if digits == [] then 0
    else base * Value(digits[..|digits| - 1], base) + DigitValue(digits[|digits| - 1], base)
  }

  predicate IsBlank(c: char) { c == ' ' || 9 <= c as int <= 13 }

  /** What is left without the blanks at the beginning. */
  function SkipBlanks(s: string): (r: string)
    ensures |r| <= |s| && (r != [] ==> !IsBlank(r[0]))
  {
    if s == [] || !IsBlank(s[0]) then s else SkipBlanks(s[1..])
  }

  /** A 0x prefix counts only if a digit follows. */
  predicate HasPrefix(s: string) {
    |s| >= 3 && s[0] == '0' && (s[1] == 'x' || s[1] == 'X') && DigitValue(s[2], 16) < 16
  }

  /** Reads a number as the C library does: blanks, a sign, for base 16 a prefix, then as many digits as there are.
      Fails if there is no digit or the number has more than 64 bits; a negative number wraps around. */
  function FromText(s: string, base: Base): Option<Addr> {
    var t := SkipBlanks(s);
    var signed := t != [] && (t[0] == '-' || t[0] == '+');
    var u := if signed then t[1..] else t;
    var v := Digits(if base == 16 && HasPrefix(u) then u[2..] else u, base);
    if v.None? then None else Some(if signed && t[0] == '-' then W64(0 - v.value) else v.value)
  }

  function Digits(s: string, base: Base): Option<Addr> {
    var k := DigitCount(s, base);
    if k == 0 then None
    else
      var v := Value(s[..k], base);
      if v < TWO64 then Some(v) else None
  }

  lemma {:induction false} ToTextDigits(n: nat, base: Base)
    ensures Value(ToText(n, base), base) == n
    ensures forall i :: 0 <= i < |ToText(n, base)| ==>
      DigitValue(ToText(n, base)[i], base) < base && ToText(n, base)[i] != COMMA
    decreases n
  {
    DigitBack(n % base, base);
    if n < base {
      assert ToText(n, base)[..0] == [];
    } else {
      ToTextDigits(n / base, base);
      var front := ToText(n / base, base);
      assert ToText(n, base) == front + [DigitChar(n % base)];
      assert (front + [DigitChar(n % base)])[..|front|] == front;
    }
  }

  /** Reading a printed 64-bit number gives it back. */
  lemma {:induction false} NumberRoundTrip(n: Addr, base: Base)
    ensures FromText(ToText(n, base), base) == Some(n)
    ensures COMMA !in ToText(n, base)
  {
    hide ToText, Value, DigitCount, DigitValue;
    ToTextDigits(n, base);
    var s := ToText(n, base);
    AllDigits(s, base);
    Unadorned(s, base);
    assert s[..|s|] == s;
  }

  lemma {:induction false} AllDigits(s: string, base: Base)
    requires forall i :: 0 <= i < |s| ==> DigitValue(s[i], base) < base
    ensures DigitCount(s, base) == |s|
  {
  }

  /** Nothing but digits and commas is on one line. */
  lemma {:induction false} DigitsOneLine(n: nat, base: Base)
    ensures NEWLINE !in ToText(n, base)
  {
    ToTextDigits(n, base);
    var s := ToText(n, base);
    forall i | 0 <= i < |s| ensures s[i] != NEWLINE {
      assert DigitValue(s[i], base) < base;
    }
  }

  lemma {:induction false} JoinOneLine(pieces: seq<string>)
    requires forall p :: p in pieces ==> NEWLINE !in p
    ensures NEWLINE !in Join(pieces)
  {
    if |pieces| > 1 {
      JoinOneLine(pieces[1..]);
      assert pieces[0] in pieces;
    } else if |pieces| == 1 {
      assert pieces[0] in pieces;
    }
  }

  /** Digits are read as they are. */
  lemma {:induction false} Unadorned(s: string, base: Base)
    requires s != [] && forall i :: 0 <= i < |s| ==> DigitValue(s[i], base) < base
    ensures FromText(s, base) == Digits(s, base)
  {
    hide Digits;
    assert DigitValue(s[0], base) < base && (|s| >= 2 ==> DigitValue(s[1], base) < base);
  }

  /** How numbers are written: without leading zeros, hexadecimal ones with small letters. */
  lemma {:induction false} KnownTexts()
    ensures ToText(0, 16) == "0" && ToText(0xabcdef, 16) == "abcdef" && ToText(90, 10) == "90"
    ensures ToText(876543, 10) == "876543" && ToText(0x12, 16) == "12"
  {
    assert ToText(0xabcd, 16) == "abcd" by {
      assert ToText(0xab, 16) == "ab";
    }
    assert ToText(8765, 10) == "8765" by {
      assert ToText(87, 10) == "87";
    }
    assert ToText(0xabcde, 16) == "abcde" && ToText(87654, 10) == "87654";
  }

  /** What may stand around the digits: blanks and a sign before them, for base 16 a prefix, anything but a digit
      behind them.  A number with a minus wraps around. */
  lemma {:induction false} AdornedNumber(
      blanks: string, sign: string, prefix: string, n: Addr, rest: string, base: Base)
    requires forall i :: 0 <= i < |blanks| ==> blanks[i] in [' ', '\t', '\n', '\r', 11 as char, 12 as char]
    requires sign in ["", "+", "-"] && prefix in if base == 16 then ["", "0x", "0X"] else [""]
    requires rest == [] || DigitValue(rest[0], base) == base
    requires prefix == [] && base == 16 && n == 0 && |rest| >= 2 ==> rest[0] != 'x' && rest[0] != 'X'
    ensures FromText(blanks + sign + prefix + ToText(n, base) + rest, base) ==
      Some(if sign == "-" then W64(TWO64 - n) else n)
  {
    hide ToText, Value, DigitCount, DigitValue, HasPrefix, Digits, FromText, IsBlank;
    var u := prefix + ToText(n, base) + rest;
    ToTextDigits(n, base);
    PrefixedDigits(prefix, n, rest, base);
    assert u[0] == if prefix != [] then '0' else ToText(n, base)[0];
    PlainStart(u[0], base);
    SignedText(blanks, sign, u, base);
    assert blanks + sign + prefix + ToText(n, base) + rest == blanks + (sign + u);
  }

  lemma {:induction false} PlainStart(c: char, base: Base)
    requires DigitValue(c, base) < base || c == '0'
    ensures !IsBlank(c) && c != '-' && c != '+'
  {
  }

  /** What is read of digits with a prefix or without. */
  lemma {:induction false} PrefixedDigits(prefix: string, n: Addr, rest: string, base: Base)
    requires prefix in if base == 16 then ["", "0x", "0X"] else [""]
    requires rest == [] || DigitValue(rest[0], base) == base
    requires prefix == [] && base == 16 && n == 0 && |rest| >= 2 ==> rest[0] != 'x' && rest[0] != 'X'
    ensures var u := prefix + ToText(n, base) + rest;
      Digits(if base == 16 && HasPrefix(u) then u[2..] else u, base) == Some(n)
  {
    hide ToText, Value, DigitCount, Digits;
    var digits := ToText(n, base);
    var u := prefix + digits + rest;
    ToTextDigits(n, base);
    DigitsThen(n, rest, base);
    assert DigitValue(digits[0], base) < base;
    if prefix != [] {
      assert u[2..] == digits + rest && u[2] == digits[0];
    } else {
      assert u == digits + rest;
      NoPrefix(n, rest, base);
    }
  }

  lemma {:induction false} SignedText(blanks: string, sign: string, u: string, base: Base)
    requires forall i :: 0 <= i < |blanks| ==> blanks[i] in [' ', '\t', '\n', '\r', 11 as char, 12 as char]
    requires sign in ["", "+", "-"] && u != [] && !IsBlank(u[0]) && u[0] != '-' && u[0] != '+'
    ensures var v := Digits(if base == 16 && HasPrefix(u) then u[2..] else u, base);
      FromText(blanks + (sign + u), base) ==
        if v.None? then None else if sign == "-" then Some(W64(TWO64 - v.value)) else v
  {
    hide Digits, W64;
    var t := sign + u;
    assert t[0] == if sign != [] then sign[0] else u[0];
    BlanksSkipped(blanks, t);
    assert sign != [] ==> t[1..] == u;
    assert sign == [] ==> t == u;
    var v := Digits(if base == 16 && HasPrefix(u) then u[2..] else u, base);
    if v.Some? {
      Wraps(v.value);
    }
  }

  lemma {:induction false} Wraps(v: Addr)
    ensures W64(TWO64 - v) == W64(0 - v)
  {
    W64Equal(TWO64 - v, 0 - v);
  }

  lemma {:induction false} BlanksSkipped(blanks: string, t: string)
    requires forall i :: 0 <= i < |blanks| ==> blanks[i] in [' ', '\t', '\n', '\r', 11 as char, 12 as char]
    requires t != [] && !IsBlank(t[0])
    ensures SkipBlanks(blanks + t) == t
  {
    if blanks != [] {
      assert (blanks + t)[1..] == blanks[1..] + t;
      BlanksSkipped(blanks[1..], t);
    } else {
      assert blanks + t == t;
    }
  }

  /** A number is written with a zero in front only if it is 0. */
  lemma {:induction false} FirstDigit(n: nat, base: Base)
    ensures ToText(n, base)[0] == '0' ==> n == 0
    decreases n
  {
    if n >= base {
      FirstDigit(n / base, base);
    }
  }

  lemma {:induction false} NoPrefix(n: nat, rest: string, base: Base)
    requires base == 16 && n == 0 && |rest| >= 2 ==> rest[0] != 'x' && rest[0] != 'X'
    ensures base == 16 ==> !HasPrefix(ToText(n, base) + rest)
  {
    FirstDigit(n, base);
    ToTextDigits(n, base);
    var s := ToText(n, base) + rest;
    if n == 0 {
      assert ToText(n, base) == "0" && (|rest| >= 1 ==> s[1] == rest[0]);
    } else {
      assert s[0] == ToText(n, base)[0] != '0';
    }
  }

  lemma {:induction false} DigitsThen(n: nat, rest: string, base: Base)
    requires rest == [] || DigitValue(rest[0], base) == base
    ensures Digits(ToText(n, base) + rest, base) == if n < TWO64 then Some(n) else None
  {
    hide ToText, Value, DigitValue;
    ToTextDigits(n, base);
    var digits := ToText(n, base);
    var s := digits + rest;
    forall i | 0 <= i < |digits| ensures DigitValue(s[i], base) < base {
      assert s[i] == digits[i];
    }
    assert rest != [] ==> DigitValue(s[|digits|], base) == base;
    assert DigitCount(s, base) == |digits|;
    assert s[..|digits|] == digits;
  }

  /** A number of more than 64 bits is no number, nor is a text without digits. */
  lemma {:induction false} NoNumber(n: nat, base: Base)
    ensures n >= TWO64 ==> FromText(ToText(n, base), base) == None
    ensures FromText("", base) == None && FromText("-", base) == None && FromText(" ,", base) == None
  {
    hide ToText, Value, Digits;
    ToTextDigits(n, base);
    Unadorned(ToText(n, base), base);
    DigitsThen(n, "", base);
    assert ToText(n, base) + "" == ToText(n, base);
    assert " ,"[1..] == "," && SkipBlanks(" ,") == ",";
    assert SkipBlanks("-") == "-" && "-"[1..] == "";
    NoDigits(base);
  }

  /** Digits of either case, and nothing else; a text that begins with anything else, not being a blank or a sign, is
      no number. */
  lemma {:induction false} DigitsOnly(c: char, rest: string, base: Base)
    ensures DigitValue(c, base) < base <==>
      exists d: nat :: d < base && (c == DigitChar(d) || c == "0123456789ABCDEF"[d])
    ensures forall d: nat :: d < base ==> DigitValue("0123456789ABCDEF"[d], base) == DigitValue(DigitChar(d), base) == d
    ensures DigitValue(c, base) == base && c !in [' ', '\t', '\n', '\r', 11 as char, 12 as char, '+', '-'] ==>
      FromText([c] + rest, base) == None
  {
    if DigitValue(c, base) < base {
      var d := DigitValue(c, base);
      assert c == DigitChar(d) || c == "0123456789ABCDEF"[d];
    }
    assert ([c] + rest)[0] == c;
  }

  lemma {:induction false} NoDigits(base: Base)
    ensures Digits("", base) == None && Digits(",", base) == None
  {
  }

  // ----- Lines -----

  /** What reading a line delivers, and what is left behind its end; None if the text ended before. */
  function GetLine(text: string): (string, Option<string>) {
    var k := NewlineFrom(text, 0);
    if k == |text| then (text, None) else (text[..k], Some(text[k + 1..]))
  }

  const NEWLINE := '\n'

  function NewlineFrom(s: string, from: nat): (k: nat)
    requires from <= |s|
    ensures from <= k <= |s| && (k < |s| ==> s[k] == NEWLINE)
    ensures forall i :: from <= i < k ==> s[i] != NEWLINE
    decreases |s| - from
  {
    if from == |s| || s[from] == NEWLINE then from else NewlineFrom(s, from + 1)
  }

  /** The lines read until the text has ended; behind a newline at the end there is one more, which is empty. */
  function Lines(text: string): (lines: seq<string>)
    ensures lines != []
    decreases |text|
  {
    var (line, rest) := GetLine(text);
    [line] + if rest.None? then [] else Lines(rest.value)
  }

  /** The lines read until nothing is left to read. */
  function WholeLines(text: string): seq<string> {
    var lines := Lines(text);
    if lines[|lines| - 1] == [] then lines[..|lines| - 1] else lines
  }

  /** Lines as they are written. */
  function FileText(lines: seq<string>): string {
    if lines == [] then [] else lines[0] + [NEWLINE] + FileText(lines[1..])
  }

  lemma {:induction false} NothingToRead()
    ensures GetLine("") == ("", None)
  {
  }

  lemma {:induction false} FirstLine(line: string, rest: string)
    requires NEWLINE !in line
    ensures GetLine(line + [NEWLINE] + rest) == (line, Some(rest))
  {
    hide NewlineFrom;
    var text := line + [NEWLINE] + rest;
    forall i | 0 <= i < |line| ensures text[i] != NEWLINE {
      assert text[i] == line[i] && line[i] in line;
    }
    assert text[|line|] == NEWLINE && text[..|line|] == line && text[|line| + 1..] == rest;
  }

  lemma {:induction false} LinesOfFile(lines: seq<string>)
    requires forall line :: line in lines ==> NEWLINE !in line
    ensures Lines(FileText(lines)) == lines + [""] && WholeLines(FileText(lines)) == lines
  {
    hide GetLine;
    if lines == [] {
      NothingToRead();
    } else {
      assert lines[0] in lines;
      FirstLine(lines[0], FileText(lines[1..]));
      LinesOfFile(lines[1..]);
      assert [lines[0]] + (lines[1..] + [""]) == lines + [""];
    }
    assert (lines + [""])[..|lines|] == lines;
  }

  /** Index of the first comma from `from` on, or the length. */
  function CommaFrom(s: string, from: nat): (k: nat)
    requires from <= |s|
    ensures from <= k <= |s| && (k < |s| ==> s[k] == COMMA)
    ensures forall i :: from <= i < k ==> s[i] != COMMA
    decreases |s| - from
  {
    if from == |s| || s[from] == COMMA then from else CommaFrom(s, from + 1)
  }

  /** The pieces between commas; nothing after a comma at the end. */
  function Split(s: string): seq<string>
    decreases |s|
  {
    if s == [] then []
    else
      var k := CommaFrom(s, 0);
      if k == |s| then [s] else [s[..k]] + Split(s[k + 1..])
  }

  function Join(pieces: seq<string>): string {
    if pieces == [] then []
    else if |pieces| == 1 then pieces[0]
    else pieces[0] + [COMMA] + Join(pieces[1..])
  }

  predicate CommaFree(s: string) { COMMA !in s }

  lemma {:induction false} SplitJoin(pieces: seq<string>)
    requires forall k :: 0 <= k < |pieces| ==> CommaFree(pieces[k])
    requires pieces != [] ==> pieces[|pieces| - 1] != []
    ensures Split(Join(pieces)) == pieces
    decreases |pieces|
  {
    if |pieces| >= 1 {
      var p, s := pieces[0], Join(pieces);
      assert CommaFree(p);
      if |pieces| == 1 {
        assert CommaFrom(s, 0) == |s|;
      } else {
        var rest := Join(pieces[1..]);
        assert s == p + [COMMA] + rest;
        FirstComma(p, rest);
        assert s[..|p|] == p && s[|p| + 1..] == rest;
        SplitJoin(pieces[1..]);
      }
    }
  }

  lemma {:induction false} SplitFirst(p: string, rest: string)
    requires CommaFree(p)
    ensures Split(p + [COMMA] + rest) == [p] + Split(rest)
  {
    hide CommaFrom;
    FirstComma(p, rest);
    var s := p + [COMMA] + rest;
    assert s[..|p|] == p && s[|p| + 1..] == rest;
  }

  /** An empty last piece is dropped. */
  lemma {:induction false} SplitTrailing(pieces: seq<string>)
    requires pieces != [] && forall k :: 0 <= k < |pieces| ==> CommaFree(pieces[k])
    ensures Split(Join(pieces + [""])) == pieces
    decreases |pieces|
  {
    hide CommaFree, CommaFrom, Split;
    var all := pieces + [""];
    assert CommaFree(pieces[0]);
    assert Join(all) == pieces[0] + [COMMA] + Join(all[1..]);
    SplitFirst(pieces[0], Join(all[1..]));
    if |pieces| > 1 {
      assert all[1..] == pieces[1..] + [""];
      SplitTrailing(pieces[1..]);
    } else {
      assert all[1..] == [""];
      SplitNothing();
    }
  }

  lemma {:induction false} SplitNothing()
    ensures Join([""]) == "" && Split("") == []
  {
  }

  lemma {:induction false} FirstComma(p: string, rest: string)
    requires CommaFree(p)
    ensures CommaFrom(p + [COMMA] + rest, 0) == |p|
  {
    var s := p + [COMMA] + rest;
    forall i | 0 <= i < |p| ensures s[i] != COMMA {
      assert s[i] == p[i] && p[i] in p;
    }
    assert s[|p|] == COMMA;
  }

  /** Splitting as the program does it: taking pieces off the front as long as any text is left. */
  method SplitLine(s: string) returns (result: seq<string>)
    ensures result == Split(s)
  {
    result := [];
    var rest := s;
    while rest != []
      invariant Split(s) == result + Split(rest)
      decreases |rest|
    {
      var k := CommaFrom(rest, 0);
      if k == |rest| {
        result := result + [rest];
        rest := [];
      } else {
        result := result + [rest[..k]];
        rest := rest[k + 1..];
      }
    }
  }

  // ----- The file of callees and their hottest callers -----

  function PrintCallee(callee: Addr, hottestCaller: Addr): string {
    ToText(callee, 16) + [COMMA] + ToText(hottestCaller, 16) + [COMMA]
  }

  datatype CalleeLine = Pair(callee: Addr, caller: Addr) | Skipped | Unreadable

  /** A line is read from its first two pieces that are followed by a comma; one that is empty skips the line. */
  function CalleeOf(line: string): CalleeLine {
    var i := CommaFrom(line, 0);
    if i == |line| then Unreadable
    else
      var j := CommaFrom(line, i + 1);
      if j == |line| then Unreadable
      else PairOf(line[..i], line[i + 1..j])
  }

  function PairOf(first: string, second: string): CalleeLine {
    if |first| < 1 || |second| < 1 then Skipped
    else
      var callee, caller := FromText(first, 16), FromText(second, 16);
      if callee.Some? && caller.Some? then Pair(callee.value, caller.value) else Unreadable
  }

  /** Reading one line: the pieces that end in a comma are collected, then the first two are read. */
  method ReadCallee(line: string) returns (r: CalleeLine)
    ensures r == CalleeOf(line)
  {
    hide PairOf;
    var parses: seq<string> := [];
    var start := 0;
    var end := CommaFrom(line, 0);
    ghost var i := end;
    while end < |line|
      invariant start <= end <= |line| && end == CommaFrom(line, start)
      invariant if start == 0 then parses == [] else i < |line| && |parses| >= 1 && parses[0] == line[..i] && start > i
      invariant |parses| == 1 ==> start == i + 1
      invariant |parses| >= 2 ==> CommaFrom(line, i + 1) < |line| && parses[1] == line[i + 1..CommaFrom(line, i + 1)]
      invariant start == 0 ==> end == i
      decreases |line| - start, |line| - end
    {
      parses := parses + [line[start..end]];
      start := end + 1;
      end := CommaFrom(line, start);
    }
    r := if |parses| < 2 then Unreadable else PairOf(parses[0], parses[1]);
  }

  /** Reading a printed line gives the pair back. */
  lemma {:induction false} CalleeRoundTrip(callee: Addr, hottestCaller: Addr)
    ensures CalleeOf(PrintCallee(callee, hottestCaller)) == Pair(callee, hottestCaller)
  {
    hide ToText, FromText, CommaFrom;
    var a, b, s := ToText(callee, 16), ToText(hottestCaller, 16), PrintCallee(callee, hottestCaller);
    NumberRoundTrip(callee, 16);
    NumberRoundTrip(hottestCaller, 16);
    assert s == a + [COMMA] + (b + [COMMA]);
    FirstComma(a, b + [COMMA]);
    SecondComma(a, b, s);
    assert s[..|a|] == a && s[|a| + 1..|a| + 1 + |b|] == b;
  }

  /** Every line with two commas or more: only the two pieces in front of them matter, and an empty one skips it. */
  lemma {:induction false} CalleeFields(first: string, second: string, rest: string)
    requires CommaFree(first) && CommaFree(second)
    ensures CalleeOf(first + "," + second + "," + rest) ==
      if first == [] || second == [] then Skipped
      else if FromText(first, 16).None? || FromText(second, 16).None? then Unreadable
      else Pair(FromText(first, 16).value, FromText(second, 16).value)
  {
    hide FromText, CommaFrom;
    var s := first + "," + second + "," + rest;
    assert s == first + [COMMA] + (second + [COMMA] + rest);
    FirstComma(first, second + [COMMA] + rest);
    forall i | |first| + 1 <= i < |first| + 1 + |second| ensures s[i] != COMMA {
      assert s[i] == second[i - |first| - 1] && second[i - |first| - 1] in second;
    }
    assert s[|first| + 1 + |second|] == COMMA;
    CommaThere(s, |first| + 1, |first| + 1 + |second|);
    assert s[..|first|] == first && s[|first| + 1..|first| + 1 + |second|] == second;
  }

  lemma {:induction false} CommaThere(s: string, from: nat, k: nat)
    requires from <= k < |s| && s[k] == COMMA && forall i :: from <= i < k ==> s[i] != COMMA
    ensures CommaFrom(s, from) == k
  {
  }

  /** Every line with fewer. */
  lemma {:induction false} CalleeTooShort(first: string, second: string)
    requires CommaFree(first) && CommaFree(second)
    ensures CalleeOf(first) == Unreadable && CalleeOf(first + "," + second) == Unreadable
  {
    hide PairOf;
    var s := first + "," + second;
    FirstComma(first, second);
    assert s == first + [COMMA] + second;
    forall i | |first| + 1 <= i < |s| ensures s[i] != COMMA {
      assert s[i] == second[i - |first| - 1] && second[i - |first| - 1] in second;
    }
  }

  /** A printed line. */
  lemma {:induction false} CalleeText(callee: Addr, hottestCaller: Addr)
    ensures PrintCallee(callee, hottestCaller) == ToText(callee, 16) + "," + ToText(hottestCaller, 16) + ","
  {
    hide ToText;
  }

  lemma {:induction false} SecondComma(a: string, b: string, s: string)
    requires s == a + [COMMA] + (b + [COMMA]) && CommaFree(b)
    ensures CommaFrom(s, |a| + 1) == |a| + 1 + |b|
  {
    hide CommaFrom;
    forall i | |a| + 1 <= i < |a| + 1 + |b| ensures s[i] != COMMA {
      assert s[i] == b[i - |a| - 1] && b[i - |a| - 1] in b;
    }
    assert s[|a| + 1 + |b|] == COMMA;
  }
}
