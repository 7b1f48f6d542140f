/**
 * What the apostrophe stages (src/tokenizer.cc:54-79) do to a line.  Each
 * `(A)[']( B)` rule is stated character by character, with the one piece of
 * state its left-to-right scan carries: whether the character before the
 * current one passes `A` and was not consumed by an earlier match.
 */
module Apostrophes {
  import opened CharClasses
  import opened Text
  import opened Patterns
  import opened Regex
  import opened Stages

  /** What goes between the two characters around a rewritten apostrophe. */
  function Middle(g: Glue): seq<char> {
    match g
    case Spaced => " ' "
    case AttachRight => " '"
    case AttachLeft => "' "
  }

  /** An apostrophe between a character that passes `p.left` (and that no earlier
      match consumed) and one that passes `p.right` is rewritten with `p.glue`;
      the character after it is consumed.  `leftOk` says that the character
      before `s` may start a match. */
  function SplitApostrophes(u: Classes, p: Pattern, leftOk: bool, s: seq<char>): seq<char>
    requires p.Apostrophe?
    decreases |s|
  {
    if s == [] then []
    else if leftOk && s[0] == '\'' && |s| > 1 && Passes(u, p.right, s[1]) then
      Middle(p.glue) + [s[1]] + SplitApostrophes(u, p, false, s[2..])
    else [s[0]] + SplitApostrophes(u, p, Passes(u, p.left, s[0]), s[1..])
  }

  /** When `t` does not start with an apostrophe that could be rewritten, what came before does not matter. */
  lemma SplitQuiet(u: Classes, p: Pattern, t: seq<char>)
    requires p.Apostrophe?
    requires !(t != [] && t[0] == '\'' && |t| > 1 && Passes(u, p.right, t[1]))
    ensures SplitApostrophes(u, p, true, t) == SplitApostrophes(u, p, false, t)
  {
  }

  /** One `(A)[']( B)` rule rewrites exactly the apostrophes `SplitApostrophes` rewrites. */
  lemma {:induction false} RuleMeaning(u: Classes, p: Pattern, s: seq<char>)
    requires p.Apostrophe?
    ensures Replace(p, u, s) == SplitApostrophes(u, p, false, s)
    decreases |s|
  {
    if s != [] {
      if |s| >= 3 && Passes(u, p.left, s[0]) && s[1] == '\'' && Passes(u, p.right, s[2]) {
        assert s[1..][2..] == s[3..] && s[1..][1] == s[2];
        RuleMeaning(u, p, s[3..]);
        assert Glued(p.glue, s[0], s[2]) == [s[0]] + Middle(p.glue) + [s[2]];
      } else {
        if Passes(u, p.left, s[0]) {
          assert s[1..] != [] && s[1..][0] == '\'' && |s[1..]| > 1 ==> s[1..][1] == s[2];
          SplitQuiet(u, p, s[1..]);
        }
        RuleMeaning(u, p, s[1..]);
      }
    }
  }

  /** Every pattern of `ps` is an `(A)[']( B)` rule. */
  predicate AllApostrophe(ps: seq<Pattern>) {
    forall k | 0 <= k < |ps| :: ps[k].Apostrophe?
  }

  /** The rules of `ps`, one after the other. */
  function SplitAll(u: Classes, ps: seq<Pattern>, s: seq<char>): seq<char>
    requires AllApostrophe(ps)
    decreases |ps|
  {
    if ps == [] then s else SplitAll(u, ps[1..], SplitApostrophes(u, ps[0], false, s))
  }

  const EnRules: seq<Pattern> := [
    Apostrophe(NotAlpha, NotAlpha, Spaced),
    Apostrophe(NotAlphaNorNumber, Alpha, Spaced),
    Apostrophe(Alpha, NotAlpha, Spaced),
    Apostrophe(Alpha, Alpha, AttachRight),
    Apostrophe(Number, Exactly('s'), AttachRight)]

  const FrItGaCaRules: seq<Pattern> := [
    Apostrophe(NotAlpha, NotAlpha, Spaced),
    Apostrophe(NotAlpha, Alpha, Spaced),
    Apostrophe(Alpha, NotAlpha, Spaced),
    Apostrophe(Alpha, Alpha, AttachLeft)]

  const SoRules: seq<Pattern> := [
    Apostrophe(NotAlpha, NotAlpha, Spaced),
    Apostrophe(NotAlpha, Alpha, Spaced),
    Apostrophe(Alpha, NotAlpha, Spaced)]

  /** The English stage: apostrophes next to a non-letter are spaced on both
      sides (one before a letter only when the character before it is no number),
      one between letters goes with the right-hand part ("don't" gives "don 't"),
      and "'s" after a number is split off ("1990's" gives "1990 's"). */
  lemma EnMeaning(u: Classes, s: seq<char>)
    ensures LoopFree(EnSpecificApostrophe)
    ensures Apply(EnSpecificApostrophe, u, s) == SplitAll(u, EnRules, s)
  {
    EnChain(u, s);
    var r := EnRules;
    var s1 := SplitApostrophes(u, r[0], false, s);
    var s2 := SplitApostrophes(u, r[1], false, s1);
    var s3 := SplitApostrophes(u, r[2], false, s2);
    var s4 := SplitApostrophes(u, r[3], false, s3);
    RuleMeaning(u, r[0], s);
    RuleMeaning(u, r[1], s1);
    RuleMeaning(u, r[2], s2);
    RuleMeaning(u, r[3], s3);
    RuleMeaning(u, r[4], s4);
    assert r[1..][1..][1..][1..][1..] == [];
  }

  /** The French, Italian, Irish and Catalan stage: apostrophes next to a
      non-letter are spaced on both sides, one between letters goes with the
      left-hand part ("l'homme" gives "l' homme"). */
  lemma FrItGaCaMeaning(u: Classes, s: seq<char>)
    ensures LoopFree(FrItGaCaSpecificApostrophe)
    ensures Apply(FrItGaCaSpecificApostrophe, u, s) == SplitAll(u, FrItGaCaRules, s)
  {
    FrItGaCaChain(u, s);
    var r := FrItGaCaRules;
    var s1 := SplitApostrophes(u, r[0], false, s);
    var s2 := SplitApostrophes(u, r[1], false, s1);
    var s3 := SplitApostrophes(u, r[2], false, s2);
    RuleMeaning(u, r[0], s);
    RuleMeaning(u, r[1], s1);
    RuleMeaning(u, r[2], s2);
    RuleMeaning(u, r[3], s3);
    assert r[1..][1..][1..][1..] == [];
  }

  /** The Somali stage: apostrophes next to a non-letter are spaced on both
      sides; one between letters stays. */
  lemma SoMeaning(u: Classes, s: seq<char>)
    ensures LoopFree(SoSpecificApostrophe)
    ensures Apply(SoSpecificApostrophe, u, s) == SplitAll(u, SoRules, s)
  {
    var r := SoRules;
    ThreeRewrites(r[0], r[1], r[2], u, s);
    var s1 := SplitApostrophes(u, r[0], false, s);
    var s2 := SplitApostrophes(u, r[1], false, s1);
    RuleMeaning(u, r[0], s);
    RuleMeaning(u, r[1], s1);
    RuleMeaning(u, r[2], s2);
    assert r[1..][1..][1..] == [];
  }

  /** Two character-wise rewrites that agree on every character agree on every text. */
  lemma {:induction false} FlatMapSame(f: char -> seq<char>, g: char -> seq<char>, s: seq<char>)
    requires forall c :: f(c) == g(c)
    ensures FlatMap(f, s) == FlatMap(g, s)
  {
    if s != [] {
      FlatMapSame(f, g, s[1..]);
    }
  }

  /** Every other language gets every apostrophe spaced on both sides. */
  lemma NonSpecificMeaning(u: Classes, s: seq<char>)
    ensures LoopFree(NonSpecificApostrophe)
    ensures Apply(NonSpecificApostrophe, u, s) == FlatMap(c => if c == '\'' then " ' " else [c], s)
  {
    var p := Literal("'", " ' ");
    ReplaceCharLocal(p, u, s);
    forall c: char
      ensures CharImage(p, u, c) == if c == '\'' then " ' " else [c]
    {
      if c != '\'' {
        assert !(p.lit <= [c]) by {
          assert p.lit[0] != [c][0];
        }
      }
    }
    FlatMapSame(c => CharImage(p, u, c), c => if c == '\'' then " ' " else [c], s);
  }

  // ---------------------------------------------------------------------------
  // Rewrites stay local

  /** Neither side of a cut between `x` and `y` is an apostrophe. */
  predicate QuietCut(x: seq<char>, y: seq<char>) {
    (x == [] || x[|x| - 1] != '\'') && (y == [] || y[0] != '\'')
  }

  /** A rule never reaches across a cut with no apostrophe on either side. */
  lemma {:induction false} SplitAppend(u: Classes, p: Pattern, leftOk: bool, x: seq<char>, y: seq<char>)
    requires p.Apostrophe? && QuietCut(x, y)
    ensures SplitApostrophes(u, p, leftOk, x + y) == SplitApostrophes(u, p, leftOk, x) + SplitApostrophes(u, p, false, y)
    decreases |x|, 1
  {
    var t := x + y;
    var right := SplitApostrophes(u, p, false, y);
    if x == [] {
      assert t == y;
      SplitQuiet(u, p, y);
    } else if leftOk && x[0] == '\'' && Passes(u, p.right, x[1]) {
      SplitAppendAtMatch(u, p, x, y);
    } else {
      assert t[0] == x[0] && t[1..] == x[1..] + y;
      assert !(leftOk && t[0] == '\'' && |t| > 1 && Passes(u, p.right, t[1])) by {
        assert x[0] == '\'' ==> |x| > 1 && t[1] == x[1];
      }
      var next := Passes(u, p.left, x[0]);
      SplitAppend(u, p, next, x[1..], y);
      calc {
        SplitApostrophes(u, p, leftOk, t);
        [x[0]] + SplitApostrophes(u, p, next, t[1..]);
        [x[0]] + (SplitApostrophes(u, p, next, x[1..]) + right);
        ([x[0]] + SplitApostrophes(u, p, next, x[1..])) + right;
      }
    }
  }

  /** The step of `SplitAppend` where a match starts at the front of `x`. */
  lemma {:induction false} SplitAppendAtMatch(u: Classes, p: Pattern, x: seq<char>, y: seq<char>)
    requires p.Apostrophe? && QuietCut(x, y)
    requires x != [] && x[0] == '\'' && Passes(u, p.right, x[1])
    ensures SplitApostrophes(u, p, true, x + y) == SplitApostrophes(u, p, true, x) + SplitApostrophes(u, p, false, y)
    decreases |x|, 0
  {
    var t := x + y;
    var right := SplitApostrophes(u, p, false, y);
    assert t[0] == x[0] && t[1] == x[1] && t[2..] == x[2..] + y;
    var head := Middle(p.glue) + [x[1]];
    SplitAppend(u, p, false, x[2..], y);
    calc {
      SplitApostrophes(u, p, true, t);
      head + SplitApostrophes(u, p, false, t[2..]);
      head + (SplitApostrophes(u, p, false, x[2..]) + right);
      (head + SplitApostrophes(u, p, false, x[2..])) + right;
    }
  }

  /** A rule keeps the last character of a text, and with no character before it the first. */
  lemma {:induction false} SplitEnds(u: Classes, p: Pattern, leftOk: bool, x: seq<char>)
    requires p.Apostrophe? && x != []
    ensures var r := SplitApostrophes(u, p, leftOk, x); r != [] && r[|r| - 1] == x[|x| - 1] && (!leftOk ==> r[0] == x[0])
    decreases |x|
  {
    if leftOk && x[0] == '\'' && |x| > 1 && Passes(u, p.right, x[1]) {
      if |x| > 2 {
        SplitEnds(u, p, false, x[2..]);
      }
    } else if |x| > 1 {
      SplitEnds(u, p, Passes(u, p.left, x[0]), x[1..]);
    }
  }

  /** A chain of rules never reaches across a cut with no apostrophe on either side. */
  lemma {:induction false} SplitAllAppend(u: Classes, ps: seq<Pattern>, x: seq<char>, y: seq<char>)
    requires AllApostrophe(ps) && QuietCut(x, y)
    ensures SplitAll(u, ps, x + y) == SplitAll(u, ps, x) + SplitAll(u, ps, y)
    decreases |ps|
  {
    if ps != [] {
      var p := ps[0];
      SplitAppend(u, p, false, x, y);
      if x != [] {
        SplitEnds(u, p, false, x);
      }
      if y != [] {
        SplitEnds(u, p, false, y);
      }
      SplitAllAppend(u, ps[1..], SplitApostrophes(u, p, false, x), SplitApostrophes(u, p, false, y));
    }
  }

  /** `m` can be cut out of `a + m + b`: no apostrophe on either side of either cut. */
  predicate Isolated(a: seq<char>, m: seq<char>, b: seq<char>) {
    m != [] && QuietCut(a, m) && QuietCut(m, b)
  }

  lemma SplitAllAround(u: Classes, ps: seq<Pattern>, a: seq<char>, m: seq<char>, b: seq<char>)
    requires AllApostrophe(ps) && Isolated(a, m, b)
    ensures SplitAll(u, ps, a + m + b) == SplitAll(u, ps, a) + SplitAll(u, ps, m) + SplitAll(u, ps, b)
  {
    SplitAllAppend(u, ps, a, m);
    assert (a + m)[|a + m| - 1] == m[|m| - 1];
    SplitAllAppend(u, ps, a + m, b);
  }

  /** A stage that runs the rules `ps` rewrites a part cut off by quiet cuts on its own. */
  lemma StageAround(u: Classes, op: Op, ps: seq<Pattern>, a: seq<char>, m: seq<char>, b: seq<char>)
    requires LoopFree(op) && AllApostrophe(ps) && Isolated(a, m, b)
    requires Apply(op, u, a + m + b) == SplitAll(u, ps, a + m + b)
    requires Apply(op, u, a) == SplitAll(u, ps, a)
    requires Apply(op, u, m) == SplitAll(u, ps, m)
    requires Apply(op, u, b) == SplitAll(u, ps, b)
    ensures Apply(op, u, a + m + b) == Apply(op, u, a) + Apply(op, u, m) + Apply(op, u, b)
  {
    SplitAllAround(u, ps, a, m, b);
  }

  /** The English stage rewrites a part cut off by quiet cuts on its own. */
  lemma EnAround(u: Classes, a: seq<char>, m: seq<char>, b: seq<char>)
    requires Isolated(a, m, b)
    ensures LoopFree(EnSpecificApostrophe)
    ensures Apply(EnSpecificApostrophe, u, a + m + b) ==
            Apply(EnSpecificApostrophe, u, a) + Apply(EnSpecificApostrophe, u, m) + Apply(EnSpecificApostrophe, u, b)
  {
    EnMeaning(u, a + m + b);
    EnMeaning(u, a);
    EnMeaning(u, m);
    EnMeaning(u, b);
    StageAround(u, EnSpecificApostrophe, EnRules, a, m, b);
  }

  /** The French, Italian, Irish and Catalan stage rewrites a part cut off by quiet cuts on its own. */
  lemma FrItGaCaAround(u: Classes, a: seq<char>, m: seq<char>, b: seq<char>)
    requires Isolated(a, m, b)
    ensures LoopFree(FrItGaCaSpecificApostrophe)
    ensures Apply(FrItGaCaSpecificApostrophe, u, a + m + b) ==
            Apply(FrItGaCaSpecificApostrophe, u, a) + Apply(FrItGaCaSpecificApostrophe, u, m) + Apply(FrItGaCaSpecificApostrophe, u, b)
  {
    FrItGaCaMeaning(u, a + m + b);
    FrItGaCaMeaning(u, a);
    FrItGaCaMeaning(u, m);
    FrItGaCaMeaning(u, b);
    StageAround(u, FrItGaCaSpecificApostrophe, FrItGaCaRules, a, m, b);
  }

  /** The Somali stage rewrites a part cut off by quiet cuts on its own. */
  lemma SoAround(u: Classes, a: seq<char>, m: seq<char>, b: seq<char>)
    requires Isolated(a, m, b)
    ensures LoopFree(SoSpecificApostrophe)
    ensures Apply(SoSpecificApostrophe, u, a + m + b) ==
            Apply(SoSpecificApostrophe, u, a) + Apply(SoSpecificApostrophe, u, m) + Apply(SoSpecificApostrophe, u, b)
  {
    SoMeaning(u, a + m + b);
    SoMeaning(u, a);
    SoMeaning(u, m);
    SoMeaning(u, b);
    StageAround(u, SoSpecificApostrophe, SoRules, a, m, b);
  }

  // ---------------------------------------------------------------------------
  // The rules in context

  /** English attaches an apostrophe between two letters to the right, wherever
      it is in the line: "don't" gives "don 't". */
  lemma EnAttachesRightInContext(u: Classes, a: seq<char>, x: char, y: char, b: seq<char>)
    requires u.alpha(x) && u.alpha(y) && !u.number(' ')
    requires x != '\'' && y != '\'' && QuietCut(a, [x]) && QuietCut([y], b)
    ensures Apply(EnSpecificApostrophe, u, a + [x, '\'', y] + b) ==
            Apply(EnSpecificApostrophe, u, a) + [x, ' ', '\'', y] + Apply(EnSpecificApostrophe, u, b)
  {
    EnAround(u, a, [x, '\'', y], b);
    EnAttachesRight(u, x, y);
  }

  /** English splits "'s" off a number, wherever it is in the line: "1990's" gives "1990 's". */
  lemma EnSplitsNumberSInContext(u: Classes, a: seq<char>, d: char, b: seq<char>)
    requires u.number(d) && !u.alpha(d) && u.alpha('s')
    requires d != '\'' && QuietCut(a, [d]) && QuietCut(['s'], b)
    ensures Apply(EnSpecificApostrophe, u, a + [d, '\'', 's'] + b) ==
            Apply(EnSpecificApostrophe, u, a) + [d, ' ', '\'', 's'] + Apply(EnSpecificApostrophe, u, b)
  {
    EnAround(u, a, [d, '\'', 's'], b);
    EnSplitsNumberS(u, d);
  }

  /** French, Italian, Irish and Catalan attach an apostrophe between two letters
      to the left, wherever it is in the line: "l'homme" gives "l' homme". */
  lemma FrItGaCaAttachesLeftInContext(u: Classes, a: seq<char>, x: char, y: char, b: seq<char>)
    requires u.alpha(x) && u.alpha(y)
    requires x != '\'' && y != '\'' && QuietCut(a, [x]) && QuietCut([y], b)
    ensures Apply(FrItGaCaSpecificApostrophe, u, a + [x, '\'', y] + b) ==
            Apply(FrItGaCaSpecificApostrophe, u, a) + [x, '\'', ' ', y] + Apply(FrItGaCaSpecificApostrophe, u, b)
  {
    FrItGaCaAround(u, a, [x, '\'', y], b);
    FrItGaCaAttachesLeft(u, x, y);
  }

  /** Somali keeps an apostrophe between two letters, wherever it is in the line. */
  lemma SoKeepsWordApostrophe(u: Classes, a: seq<char>, x: char, y: char, b: seq<char>)
    requires u.alpha(x) && u.alpha(y)
    requires x != '\'' && y != '\'' && QuietCut(a, [x]) && QuietCut([y], b)
    ensures Apply(SoSpecificApostrophe, u, a + [x, '\'', y] + b) ==
            Apply(SoSpecificApostrophe, u, a) + [x, '\'', y] + Apply(SoSpecificApostrophe, u, b)
  {
    SoAround(u, a, [x, '\'', y], b);
    SoWordKept(u, x, y);
  }

  /** No Somali rule matches "x'y" between two letters. */
  lemma SoWordKept(u: Classes, x: char, y: char)
    requires u.alpha(x) && u.alpha(y)
    ensures LoopFree(SoSpecificApostrophe)
    ensures Apply(SoSpecificApostrophe, u, [x, '\'', y]) == [x, '\'', y]
  {
    var r := SoRules;
    ThreeRewrites(r[0], r[1], r[2], u, [x, '\'', y]);
    ApostropheKept(NotAlpha, NotAlpha, Spaced, u, x, y);
    ApostropheKept(NotAlpha, Alpha, Spaced, u, x, y);
    ApostropheKept(Alpha, NotAlpha, Spaced, u, x, y);
  }
}
