/**
 * What the comma stage `SeparateCommaInNumbers` (src/tokenizer.cc:42-52) does to
 * a line.  Each of its three rewrites is stated character by character, with the
 * state the left-to-right scan carries: a match consumes two characters, and a
 * consumed character cannot start or end another match.
 */
module Commas {
  import opened Wrappers
  import opened CharClasses
  import opened Patterns
  import opened Regex
  import opened Stages

  // ---------------------------------------------------------------------------
  // ([^[:Number:]])[,] -> "$1 , "

  /** A comma gets a blank on each side when the character before it is not a
      number and no earlier match consumed that character.  `afterOther` says
      that the character before `s` is such a character. */
  function PadAfterNonNumber(u: Classes, afterOther: bool, s: seq<char>): seq<char>
    decreases |s|
  {
    if s == [] then []
    else if afterOther && s[0] == ',' then " , " + PadAfterNonNumber(u, false, s[1..])
    else [s[0]] + PadAfterNonNumber(u, !u.number(s[0]), s[1..])
  }

  /** When `t` does not start with a comma, what came before does not matter. */
  lemma PadAfterQuiet(u: Classes, t: seq<char>)
    requires t != [] ==> t[0] != ','
    ensures PadAfterNonNumber(u, true, t) == PadAfterNonNumber(u, false, t)
  {
  }

  /** The first comma rule pads exactly the commas `PadAfterNonNumber` pads. */
  lemma {:induction false} PadAfterNonNumberMeaning(u: Classes, s: seq<char>)
    ensures Replace(CommaAfterNonNumber, u, s) == PadAfterNonNumber(u, false, s)
    decreases |s|
  {
    if s != [] {
      if |s| >= 2 && !u.number(s[0]) && s[1] == ',' {
        assert s[1..][1..] == s[2..];
        PadAfterNonNumberMeaning(u, s[2..]);
      } else {
        if !u.number(s[0]) {
          PadAfterQuiet(u, s[1..]);
        }
        PadAfterNonNumberMeaning(u, s[1..]);
      }
    }
  }

  /** A number other than a comma is copied whatever the state, and leaves no
      comma after it to pad. */
  lemma {:induction false} PadAfterAround(u: Classes, afterOther: bool, x: seq<char>, d: char, y: seq<char>)
    requires u.number(d) && d != ','
    ensures PadAfterNonNumber(u, afterOther, x + [d] + y) == PadAfterNonNumber(u, afterOther, x) + [d] + PadAfterNonNumber(u, false, y)
    decreases |x|
  {
    var t := x + [d] + y;
    if x == [] {
      assert t == [d] + y && t[1..] == y;
    } else {
      assert t[0] == x[0] && t[1..] == x[1..] + [d] + y;
      var next := if afterOther && x[0] == ',' then false else !u.number(x[0]);
      var head := if afterOther && x[0] == ',' then " , " else [x[0]];
      PadAfterAround(u, next, x[1..], d, y);
      calc {
        PadAfterNonNumber(u, afterOther, t);
        head + PadAfterNonNumber(u, next, t[1..]);
        head + (PadAfterNonNumber(u, next, x[1..]) + [d] + PadAfterNonNumber(u, false, y));
        (head + PadAfterNonNumber(u, next, x[1..])) + [d] + PadAfterNonNumber(u, false, y);
      }
    }
  }


  // ---------------------------------------------------------------------------
  // [,]([^[:Number:]]) -> ", $1"

  /** A character that is not a number gets a blank before it when it follows a
      comma that no earlier match consumed.  `afterComma` says that the character
      before `s` is such a comma. */
  function SpaceAfterComma(u: Classes, afterComma: bool, s: seq<char>): seq<char>
    decreases |s|
  {
    if s == [] then []
    else if afterComma && !u.number(s[0]) then [' ', s[0]] + SpaceAfterComma(u, false, s[1..])
    else [s[0]] + SpaceAfterComma(u, s[0] == ',', s[1..])
  }

  /** When the first character of `t` is a number, or there is none, a comma before it does not matter. */
  lemma SpaceAfterQuiet(u: Classes, t: seq<char>)
    requires t != [] ==> u.number(t[0])
    ensures SpaceAfterComma(u, true, t) == SpaceAfterComma(u, false, t)
  {
  }

  /** The second comma rule puts a blank exactly where `SpaceAfterComma` does. */
  lemma {:induction false} SpaceAfterCommaMeaning(u: Classes, s: seq<char>)
    ensures Replace(CommaBeforeNonNumber, u, s) == SpaceAfterComma(u, false, s)
    decreases |s|
  {
    if s != [] {
      if |s| >= 2 && s[0] == ',' && !u.number(s[1]) {
        assert s[1..][1..] == s[2..];
        SpaceAfterCommaMeaning(u, s[2..]);
      } else {
        if s[0] == ',' {
          SpaceAfterQuiet(u, s[1..]);
        }
        SpaceAfterCommaMeaning(u, s[1..]);
      }
    }
  }

  /** A number other than a comma is copied whatever the state, and ends any comma's reach. */
  lemma {:induction false} SpaceAfterAround(u: Classes, afterComma: bool, x: seq<char>, d: char, y: seq<char>)
    requires u.number(d) && d != ','
    ensures SpaceAfterComma(u, afterComma, x + [d] + y) == SpaceAfterComma(u, afterComma, x) + [d] + SpaceAfterComma(u, false, y)
    decreases |x|
  {
    var t := x + [d] + y;
    if x == [] {
      assert t == [d] + y && t[1..] == y;
    } else {
      assert t[0] == x[0] && t[1..] == x[1..] + [d] + y;
      var next := if afterComma && !u.number(x[0]) then false else x[0] == ',';
      var head := if afterComma && !u.number(x[0]) then [' ', x[0]] else [x[0]];
      SpaceAfterAround(u, next, x[1..], d, y);
      calc {
        SpaceAfterComma(u, afterComma, t);
        head + SpaceAfterComma(u, next, t[1..]);
        head + (SpaceAfterComma(u, next, x[1..]) + [d] + SpaceAfterComma(u, false, y));
        (head + SpaceAfterComma(u, next, x[1..])) + [d] + SpaceAfterComma(u, false, y);
      }
    }
  }


  // ---------------------------------------------------------------------------
  // ([[:Number:]])[,]$ -> "$1 , "

  /** A comma that ends the line right after a number gets a blank on each side. */
  function SplitFinalComma(u: Classes, s: seq<char>): seq<char> {
    if |s| >= 2 && s[|s| - 1] == ',' && u.number(s[|s| - 2]) then s[..|s| - 1] + " , " else s
  }

  /** Away from the end of the line the third rule copies a character. */
  lemma FinalCommaStep(u: Classes, s: seq<char>)
    requires s != [] && !(|s| == 2 && u.number(s[0]) && s[1] == ',')
    ensures Replace(CommaAtEndAfterNumber, u, s) == [s[0]] + Replace(CommaAtEndAfterNumber, u, s[1..])
  {
  }

  /** Dropping the first character of a line longer than the rewritten pair keeps the rest. */
  lemma FinalCommaShift(u: Classes, s: seq<char>)
    requires s != [] && !(|s| == 2 && u.number(s[0]) && s[1] == ',')
    ensures SplitFinalComma(u, s) == [s[0]] + SplitFinalComma(u, s[1..])
  {
    var t := s[1..];
    if |s| >= 3 {
      assert t[|t| - 1] == s[|s| - 1] && t[|t| - 2] == s[|s| - 2];
      assert s[..|s| - 1] == [s[0]] + t[..|t| - 1];
    } else {
      assert s == [s[0]] + t;
    }
  }

  /** The third comma rule only rewrites the end of the line. */
  lemma {:induction false} SplitFinalCommaMeaning(u: Classes, s: seq<char>)
    ensures Replace(CommaAtEndAfterNumber, u, s) == SplitFinalComma(u, s)
    decreases |s|
  {
    if |s| == 2 && u.number(s[0]) && s[1] == ',' {
      assert MatchStart(CommaAtEndAfterNumber, u, s) == Some(Match(2, [s[0]] + " , "));
      assert s[2..] == [] && s[..1] == [s[0]];
    } else if s != [] {
      FinalCommaStep(u, s);
      SplitFinalCommaMeaning(u, s[1..]);
      FinalCommaShift(u, s);
    }
  }

  /** Only the last two characters decide, so a part before them is copied. */
  lemma SplitFinalCommaAfter(u: Classes, x: seq<char>, y: seq<char>)
    requires y != [] && (|y| >= 2 || y[|y| - 1] != ',')
    ensures SplitFinalComma(u, x + y) == x + SplitFinalComma(u, y)
  {
    var t := x + y;
    assert t[|t| - 1] == y[|y| - 1];
    if |y| >= 2 {
      assert t[|t| - 2] == y[|y| - 2];
      assert t[..|t| - 1] == x + y[..|y| - 1];
    }
  }

  // ---------------------------------------------------------------------------
  // The whole stage

  /** The three comma rules, one after the other. */
  function SeparateCommas(u: Classes, s: seq<char>): seq<char> {
    SplitFinalComma(u, SpaceAfterComma(u, false, PadAfterNonNumber(u, false, s)))
  }

  /** `SeparateCommaInNumbers` pads the commas after non-numbers, then spaces the
      non-numbers after commas, then splits a comma that ends the line after a number. */
  lemma CommaStageMeaning(u: Classes, s: seq<char>)
    ensures LoopFree(SeparateCommaInNumbers)
    ensures Apply(SeparateCommaInNumbers, u, s) == SeparateCommas(u, s)
  {
    CommaChain(u, s);
    PadAfterNonNumberMeaning(u, s);
    SpaceAfterCommaMeaning(u, PadAfterNonNumber(u, false, s));
    SplitFinalCommaMeaning(u, SpaceAfterComma(u, false, PadAfterNonNumber(u, false, s)));
  }

  /** The first rule around a comma between two numbers. */
  lemma PadAfterInNumber(u: Classes, a: seq<char>, d: char, e: char, b: seq<char>)
    requires u.number(d) && u.number(e) && d != ',' && e != ','
    ensures PadAfterNonNumber(u, false, a + [d, ',', e] + b) == PadAfterNonNumber(u, false, a) + [d, ',', e] + PadAfterNonNumber(u, false, b)
  {
    var rest := [','] + [e] + b;
    assert a + [d, ',', e] + b == a + [d] + rest;
    PadAfterAround(u, false, a, d, rest);
    PadAfterAround(u, false, [','], e, b);
    assert PadAfterNonNumber(u, false, [',']) == [','] by {
      assert [','][1..] == [];
    }
  }

  /** The first rule on the text either side of that comma. */
  lemma PadAfterBesideNumber(u: Classes, a: seq<char>, d: char, e: char, b: seq<char>)
    requires u.number(d) && u.number(e) && d != ',' && e != ','
    ensures PadAfterNonNumber(u, false, a + [d]) == PadAfterNonNumber(u, false, a) + [d]
    ensures PadAfterNonNumber(u, false, [e] + b) == [e] + PadAfterNonNumber(u, false, b)
  {
    PadAfterAround(u, false, a, d, []);
    assert a + [d] + [] == a + [d];
    PadAfterAround(u, false, [], e, b);
    assert [] + [e] + b == [e] + b;
  }

  /** The second rule around a comma between two numbers. */
  lemma SpaceAfterInNumber(u: Classes, x: seq<char>, d: char, e: char, y: seq<char>)
    requires u.number(d) && u.number(e) && d != ',' && e != ','
    ensures SpaceAfterComma(u, false, x + [d, ',', e] + y) == SpaceAfterComma(u, false, x) + [d, ',', e] + SpaceAfterComma(u, false, y)
  {
    var rest := [','] + [e] + y;
    assert x + [d, ',', e] + y == x + [d] + rest;
    SpaceAfterAround(u, false, x, d, rest);
    SpaceAfterAround(u, false, [','], e, y);
    assert SpaceAfterComma(u, false, [',']) == [','] by {
      assert [','][1..] == [];
    }
  }

  /** The second rule on the text either side of that comma. */
  lemma SpaceAfterBesideNumber(u: Classes, x: seq<char>, d: char, e: char, y: seq<char>)
    requires u.number(d) && u.number(e) && d != ',' && e != ','
    ensures SpaceAfterComma(u, false, x + [d]) == SpaceAfterComma(u, false, x) + [d]
    ensures SpaceAfterComma(u, false, [e] + y) == [e] + SpaceAfterComma(u, false, y)
  {
    SpaceAfterAround(u, false, x, d, []);
    assert x + [d] + [] == x + [d];
    SpaceAfterAround(u, false, [], e, y);
    assert [] + [e] + y == [e] + y;
  }

  /** The third rule around a comma between two numbers. */
  lemma SplitFinalInNumber(u: Classes, x: seq<char>, d: char, e: char, y: seq<char>)
    requires d != ',' && e != ','
    ensures SplitFinalComma(u, x + [d, ',', e] + y) == x + [d, ','] + SplitFinalComma(u, [e] + y)
    ensures SplitFinalComma(u, x + [d]) == x + [d]
  {
    assert x + [d, ',', e] + y == (x + [d, ',']) + ([e] + y);
    SplitFinalCommaAfter(u, x + [d, ','], [e] + y);
    SplitFinalCommaAfter(u, x, [d]);
  }

  /** The three rules leave a comma between two numbers alone, and the text on
      either side of it is rewritten as if on its own. */
  lemma SeparateCommasInNumber(u: Classes, a: seq<char>, d: char, e: char, b: seq<char>)
    requires u.number(d) && u.number(e) && d != ',' && e != ','
    ensures SeparateCommas(u, a + [d, ',', e] + b) == SeparateCommas(u, a + [d]) + [','] + SeparateCommas(u, [e] + b)
  {
    var pa := PadAfterNonNumber(u, false, a);
    var pb := PadAfterNonNumber(u, false, b);
    PadAfterInNumber(u, a, d, e, b);
    PadAfterBesideNumber(u, a, d, e, b);
    SpaceAfterInNumber(u, pa, d, e, pb);
    SpaceAfterBesideNumber(u, pa, d, e, pb);
    var sa := SpaceAfterComma(u, false, pa);
    var sb := SpaceAfterComma(u, false, pb);
    SplitFinalInNumber(u, sa, d, e, sb);
    assert sa + [d, ','] + SplitFinalComma(u, [e] + sb) == (sa + [d]) + [','] + SplitFinalComma(u, [e] + sb);
  }

  /** A comma between two numbers ("5,300") is kept as it is, wherever it is in
      the line, and the text on either side of it is tokenized as if on its own. */
  lemma CommaInNumberKept(u: Classes, a: seq<char>, d: char, e: char, b: seq<char>)
    requires u.number(d) && u.number(e) && d != ',' && e != ','
    ensures Apply(SeparateCommaInNumbers, u, a + [d, ',', e] + b) ==
            Apply(SeparateCommaInNumbers, u, a + [d]) + [','] + Apply(SeparateCommaInNumbers, u, [e] + b)
  {
    CommaStageMeaning(u, a + [d, ',', e] + b);
    CommaStageMeaning(u, a + [d]);
    CommaStageMeaning(u, [e] + b);
    SeparateCommasInNumber(u, a, d, e, b);
  }
}
