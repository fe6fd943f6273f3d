/** The DIMACS `p cnf` text that `buildCNF` writes, and a reader for that
    text that recovers the header and the clauses. */
module Dimacs {
  import opened Base
  import opened Cnf

  predicate IsDigit(ch: char) {
    '0' <= ch <= '9'
  }

  predicate AllDigits(s: string) {
    forall k :: 0 <= k < |s| ==> IsDigit(s[k])
  }

  function DigitChar(d: nat): (ch: char)
    requires d < 10
    ensures IsDigit(ch)
  {
    (48 + d) as char
  }

  function DigitValue(ch: char): (d: nat)
    requires IsDigit(ch)
    ensures d < 10
  {
    (ch as int) - 48
  }

  /** `StringBuilder.append(int)` for a non-negative value: its decimal
      digits, without leading zeros. */
  function NatToString(x: nat): (s: string)
    ensures |s| >= 1 && AllDigits(s)
    ensures s[0] == '0' ==> x == 0
  {
    if x < 10 then [DigitChar(x)]
    else NatToString(x / 10) + [DigitChar(x % 10)]
  }

  /** `StringBuilder.append(int)`: a minus sign, then the magnitude. */
  function IntToString(i: int): string {
    if i < 0 then "-" + NatToString(-i) else NatToString(i)
  }

  /** The value of a string of decimal digits, most significant first. */
  function DigitsValue(ds: string): nat
    requires AllDigits(ds)
  {
    if ds == [] then 0
    else DigitsValue(ds[..|ds| - 1]) * 10 + DigitValue(ds[|ds| - 1])
  }

  lemma {:induction false} NatToStringValue(x: nat)
    ensures DigitsValue(NatToString(x)) == x
  {
    if x >= 10 {
      NatToStringValue(x / 10);
      var s := NatToString(x);
      assert s[..|s| - 1] == NatToString(x / 10);
      assert DigitValue(DigitChar(x % 10)) == x % 10;
    } else {
      assert DigitValue(DigitChar(x)) == x;
    }
  }

  /** The longest prefix of s made of digits. */
  function TakeDigits(s: string): (r: string)
    ensures |r| <= |s| && r == s[..|r|] && AllDigits(r)
    ensures |r| < |s| ==> !IsDigit(s[|r|])
  {
    if s != [] && IsDigit(s[0]) then [s[0]] + TakeDigits(s[1..]) else []
  }

  lemma {:induction false} TakeDigitsOf(ds: string, rest: string)
    requires AllDigits(ds)
    requires rest == [] || !IsDigit(rest[0])
    ensures TakeDigits(ds + rest) == ds
  {
    if ds != [] {
      assert (ds + rest)[1..] == ds[1..] + rest;
      TakeDigitsOf(ds[1..], rest);
    }
  }

  /** Reads an optionally signed decimal integer off the front of s. */
  function ParseInt(s: string): (r: Option<(int, string)>)
    ensures r.Some? ==> |r.value.1| < |s|
  {
    if s != [] && s[0] == '-' then
      var ds := TakeDigits(s[1..]);
      if ds == [] then None else Some((-(DigitsValue(ds) as int), s[1 + |ds|..]))
    else
      var ds := TakeDigits(s);
      if ds == [] then None else Some((DigitsValue(ds), s[|ds|..]))
  }

  lemma ParseNatRoundTrip(x: nat, rest: string)
    requires rest == [] || !IsDigit(rest[0])
    ensures ParseInt(NatToString(x) + rest) == Some((x, rest))
  {
    var ds := NatToString(x);
    var s := ds + rest;
    assert s[0] == ds[0];
    assert TakeDigits(s) == ds by { TakeDigitsOf(ds, rest); }
    assert DigitsValue(ds) == x by { NatToStringValue(x); }
    assert s[|ds|..] == rest by { DropPrefix(ds, rest); }
  }

  lemma ParseNegRoundTrip(x: nat, rest: string)
    requires rest == [] || !IsDigit(rest[0])
    ensures ParseInt("-" + NatToString(x) + rest) == Some((-(x as int), rest))
  {
    var ds := NatToString(x);
    var s := "-" + ds + rest;
    assert s[0] == '-';
    assert s[1..] == ds + rest by { ConcatAssoc("-", ds, rest); DropPrefix("-", ds + rest); }
    assert TakeDigits(s[1..]) == ds by { TakeDigitsOf(ds, rest); }
    assert DigitsValue(ds) == x by { NatToStringValue(x); }
    assert s[1 + |ds|..] == rest by { DropPrefix("-" + ds, rest); }
  }

  /** Reading back a number followed by a non-digit gives the number. */
  lemma ParseIntRoundTrip(i: int, rest: string)
    requires rest == [] || !IsDigit(rest[0])
    ensures ParseInt(IntToString(i) + rest) == Some((i, rest))
  {
    if i < 0 {
      ParseNegRoundTrip(-i, rest);
    } else {
      ParseNatRoundTrip(i, rest);
    }
  }

  // ----- Rendering -------------------------------------------------------

  const Comment: string := "c This is the CNF input\n"

  /** Each literal followed by one space. */
  function LiteralsText(lits: seq<int>): string {
    if lits == [] then "" else IntToString(lits[0]) + " " + LiteralsText(lits[1..])
  }

  /** One clause line: the literals, then the terminating `0`. */
  function ClauseLine(c: Clause): string {
    LiteralsText(c) + "0\n"
  }

  function ClausesText(cs: seq<Clause>): string {
    if cs == [] then "" else ClauseLine(cs[0]) + ClausesText(cs[1..])
  }

  function Header(vars: int, count: int): string {
    Comment + "p cnf " + IntToString(vars) + " " + IntToString(count) + "\n"
  }

  /** The whole text for `vars` variables and the given clauses. */
  function Render(vars: int, cs: seq<Clause>): string {
    Header(vars, |cs|) + ClausesText(cs)
  }

  lemma {:induction false} LiteralsTextAppend(lits: seq<int>, l: int)
    ensures LiteralsText(lits + [l]) == LiteralsText(lits) + IntToString(l) + " "
  {
    var t := IntToString(l) + " ";
    ConcatAssoc(LiteralsText(lits), IntToString(l), " ");
    if lits == [] {
      assert LiteralsText([l]) == t + LiteralsText([]);
    } else {
      var head := IntToString(lits[0]) + " ";
      var tl := LiteralsText(lits[1..]);
      calc {
        LiteralsText(lits + [l]);
      == { DropFirst(lits, [l]); }
        head + LiteralsText(lits[1..] + [l]);
      == { LiteralsTextAppend(lits[1..], l); ConcatAssoc(tl, IntToString(l), " "); }
        head + (tl + t);
      == { ConcatAssoc(head, tl, t); }
        head + tl + t;
      }
    }
  }

  lemma {:induction false} ClausesTextAppend(cs: seq<Clause>, c: Clause)
    ensures ClausesText(cs + [c]) == ClausesText(cs) + ClauseLine(c)
  {
    if cs != [] {
      DropFirst(cs, [c]);
      ClausesTextAppend(cs[1..], c);
      ConcatAssoc(ClauseLine(cs[0]), ClausesText(cs[1..]), ClauseLine(c));
    }
  }

  // ----- Reading ---------------------------------------------------------

  /** Reads `l1 l2 ... 0\n`: the literals up to the terminating zero. */
  function ParseLiterals(s: string): Option<(Clause, string)>
    decreases |s|
  {
    match ParseInt(s)
    case None => None
    case Some((v, r)) =>
      if v == 0 then
        (if r != [] && r[0] == '\n' then Some(([], r[1..])) else None)
      else if r != [] && r[0] == ' ' then
        match ParseLiterals(r[1..])
        case None => None
        case Some((c, r2)) => Some(([v] + c, r2))
      else None
  }

  lemma {:induction false} ParseLiteralsShrinks(s: string)
    ensures ParseLiterals(s).Some? ==> |ParseLiterals(s).value.1| < |s|
    decreases |s|
  {
    match ParseInt(s)
    case None =>
    case Some((v, r)) =>
      if v != 0 && r != [] && r[0] == ' ' {
        ParseLiteralsShrinks(r[1..]);
      }
  }

  function ParseClauses(s: string): Option<seq<Clause>>
    decreases |s|
  {
    if s == [] then Some([])
    else
      match ParseLiterals(s)
      case None => None
      case Some((c, r)) =>
        ParseLiteralsShrinks(s);
        match ParseClauses(r)
        case None => None
        case Some(cs) => Some([c] + cs)
  }

  /** Reads the comment line, the `p cnf V C` header and the clause lines. */
  function ParseDimacs(s: string): Option<(int, int, seq<Clause>)> {
    var pre := Comment + "p cnf ";
    if !(pre <= s) then None
    else
      match ParseInt(s[|pre|..])
      case None => None
      case Some((vars, r)) =>
        if r == [] || r[0] != ' ' then None
        else
          match ParseInt(r[1..])
          case None => None
          case Some((count, r2)) =>
            if r2 == [] || r2[0] != '\n' then None
            else
              match ParseClauses(r2[1..])
              case None => None
              case Some(cs) => Some((vars, count, cs))
  }

  predicate NonZero(c: Clause) {
    forall k :: 0 <= k < |c| ==> c[k] != 0
  }

  lemma {:induction false} ParseLiteralsRoundTrip(lits: Clause, rest: string)
    requires NonZero(lits)
    ensures ParseLiterals(LiteralsText(lits) + "0\n" + rest) == Some((lits, rest))
  {
    if lits == [] {
      ParseLiteralsEnd(rest);
    } else {
      var tail := LiteralsText(lits[1..]) + "0\n" + rest;
      assert LiteralsText(lits) == IntToString(lits[0]) + " " + LiteralsText(lits[1..]);
      Regroup5(IntToString(lits[0]), " ", LiteralsText(lits[1..]), "0\n", rest);
      ParseLiteralsRoundTrip(lits[1..], rest);
      ParseLiteralsNext(lits[0], tail, lits[1..], rest);
      assert [lits[0]] + lits[1..] == lits;
    }
  }

  /** The terminating zero and newline end a clause. */
  lemma ParseLiteralsEnd(rest: string)
    ensures ParseLiterals(LiteralsText([]) + "0\n" + rest) == Some(([], rest))
  {
    var r := "\n" + rest;
    var s := LiteralsText([]) + "0\n" + rest;
    assert s == IntToString(0) + r;
    ParseIntRoundTrip(0, r);
    assert r[1..] == rest;
  }

  /** A non-zero literal and a space come before the rest of the clause. */
  lemma ParseLiteralsNext(v: int, tail: string, c: Clause, r2: string)
    requires v != 0 && ParseLiterals(tail) == Some((c, r2))
    ensures ParseLiterals(IntToString(v) + (" " + tail)) == Some(([v] + c, r2))
  {
    var r := " " + tail;
    ParseIntRoundTrip(v, r);
    assert r[1..] == tail;
  }

  lemma {:induction false} ParseClausesRoundTrip(cs: seq<Clause>)
    requires forall k :: 0 <= k < |cs| ==> NonZero(cs[k])
    ensures ParseClauses(ClausesText(cs)) == Some(cs)
  {
    if cs != [] {
      var s := ClausesText(cs);
      var tail := ClausesText(cs[1..]);
      assert s == LiteralsText(cs[0]) + "0\n" + tail;
      ParseLiteralsRoundTrip(cs[0], tail);
      assert s != [] by {
        assert |ClauseLine(cs[0])| >= 2;
      }
      ParseClausesRoundTrip(cs[1..]);
      assert [cs[0]] + cs[1..] == cs;
    }
  }

  lemma PrefixSplit(a: string, b: string)
    ensures a <= a + b && (a + b)[|a|..] == b
  {
    assert (a + b)[..|a|] == a;
  }

  /** Reading the rendered text gives back the variable count, the clause
      count and the clauses, in order, whenever no literal is zero. */
  lemma RenderRoundTrip(vars: int, cs: seq<Clause>)
    requires forall k :: 0 <= k < |cs| ==> NonZero(cs[k])
    ensures ParseDimacs(Render(vars, cs)) == Some((vars, |cs|, cs))
  {
    var pre := Comment + "p cnf ";
    var body := ClausesText(cs);
    var afterCount := "\n" + body;
    var y := IntToString(|cs|) + afterCount;
    var afterVars := " " + y;
    var x := IntToString(vars) + afterVars;
    Regroup6(pre, IntToString(vars), " ", IntToString(|cs|), "\n", body);
    assert Render(vars, cs) == pre + x;
    PrefixSplit(pre, x);
    ParseIntRoundTrip(vars, afterVars);
    assert ParseInt(x) == Some((vars, afterVars));
    assert afterVars[1..] == y;
    ParseIntRoundTrip(|cs|, afterCount);
    assert ParseInt(y) == Some((|cs|, afterCount));
    assert afterCount[1..] == body;
    ParseClausesRoundTrip(cs);
  }
}
