/**
 * The rewrite stages of the tokenizer (the `Replace`/`Chain` definitions at the
 * top of `tokenizer.cc`) and what each of them does to a line.
 */
module Stages {
  import opened Wrappers
  import opened Text
  import opened CharClasses
  import opened Patterns
  import opened Regex

  const DeduplicateSpace: Op := ReplaceOp(SpaceRun)
  const RemoveAsciiJunk: Op := ReplaceOp(AsciiControl)
  const PadNonAlphanumeric: Op := ReplaceOp(PadOther(""))
  const FiSvPadNonAlphanumeric: Op := ChainOp([ReplaceOp(PadOther(":")), ReplaceOp(PadUnlessLower(':'))])
  const CaPadNonAlphanumeric: Op := ChainOp([ReplaceOp(PadOther("·")), ReplaceOp(PadUnlessLower('·'))])
  const AggressiveHyphenSplit: Op := ReplaceOp(HyphenBetweenAlnum)
  const SeparateCommaInNumbers: Op :=
    ChainOp([ReplaceOp(CommaAfterNonNumber), ReplaceOp(CommaBeforeNonNumber), ReplaceOp(CommaAtEndAfterNumber)])
  const EnSpecificApostrophe: Op := ChainOp([
    ReplaceOp(Apostrophe(NotAlpha, NotAlpha, Spaced)),
    ReplaceOp(Apostrophe(NotAlphaNorNumber, Alpha, Spaced)),
    ReplaceOp(Apostrophe(Alpha, NotAlpha, Spaced)),
    ReplaceOp(Apostrophe(Alpha, Alpha, AttachRight)),
    ReplaceOp(Apostrophe(Number, Exactly('s'), AttachRight))])
  const FrItGaCaSpecificApostrophe: Op := ChainOp([
    ReplaceOp(Apostrophe(NotAlpha, NotAlpha, Spaced)),
    ReplaceOp(Apostrophe(NotAlpha, Alpha, Spaced)),
    ReplaceOp(Apostrophe(Alpha, NotAlpha, Spaced)),
    ReplaceOp(Apostrophe(Alpha, Alpha, AttachLeft))])
  const SoSpecificApostrophe: Op := ChainOp([
    ReplaceOp(Apostrophe(NotAlpha, NotAlpha, Spaced)),
    ReplaceOp(Apostrophe(NotAlpha, Alpha, Spaced)),
    ReplaceOp(Apostrophe(Alpha, NotAlpha, Spaced))])
  const NonSpecificApostrophe: Op := ReplaceOp(Literal("'", " ' "))
  const TrailingDotApostrophe: Op := ReplaceOp(DotApostropheAtEnd)
  const EscapeOps: seq<Op> := [
    ReplaceOp(Literal("&", "&amp;")),
    ReplaceOp(Literal("|", "&#124;")),
    ReplaceOp(Literal("<", "&lt;")),
    ReplaceOp(Literal(">", "&gt;")),
    ReplaceOp(Literal("'", "&apos;")),
    ReplaceOp(Literal("\"", "&quot;")),
    ReplaceOp(Literal("[", "&#91;")),
    ReplaceOp(Literal("]", "&#93;"))]
  const EscapeSpecialChars: Op := ChainOp(EscapeOps)

  /** What a loop-free operation leaves in `out`. */
  function Apply(op: Op, u: Classes, s: seq<char>): seq<char>
    requires LoopFree(op)
  {
    LoopFreeFinishes(op, u, s, 0);
    Eval(op, u, s, 0).value
  }

  // ---------------------------------------------------------------------------
  // DeduplicateSpace

  /** Every `\s` character is a blank and no two `\s` characters are adjacent. */
  ghost predicate Collapsed(u: Classes, t: seq<char>) {
    forall k | 0 <= k < |t| && u.space(t[k]) :: t[k] == ' ' && (k + 1 < |t| ==> !u.space(t[k + 1]))
  }

  /** One step of the `[\s]+` scan. */
  lemma SpaceRunStep(u: Classes, s: seq<char>)
    requires s != []
    ensures u.space(s[0]) ==> Replace(SpaceRun, u, s) == " " + Replace(SpaceRun, u, s[LeadingSpaces(u, s)..])
    ensures !u.space(s[0]) ==> Replace(SpaceRun, u, s) == [s[0]] + Replace(SpaceRun, u, s[1..])
  {
  }

  /** The `[\s]+ -> " "` scan, one character at a time: the first `\s` character
      of a run gives one blank, the rest of the run gives nothing, and every other
      character is copied.  `afterSpace` says that the character before `s` was
      white space. */
  function Squeezed(u: Classes, afterSpace: bool, s: seq<char>): seq<char>
    decreases |s|
  {
    if s == [] then []
    else if u.space(s[0]) then (if afterSpace then [] else " ") + Squeezed(u, true, s[1..])
    else [s[0]] + Squeezed(u, false, s[1..])
  }

  /** Inside a run, the rest of the run gives nothing. */
  lemma {:induction false} SqueezedSkipsRun(u: Classes, s: seq<char>)
    ensures Squeezed(u, true, s) == Squeezed(u, false, s[LeadingSpaces(u, s)..])
    decreases |s|
  {
    if s != [] && u.space(s[0]) {
      SqueezedSkipsRun(u, s[1..]);
      assert s[1..][LeadingSpaces(u, s[1..])..] == s[LeadingSpaces(u, s)..];
    }
  }

  /** `[\s]+ -> " "` puts exactly one blank where each maximal white-space run
      was and copies every other character: it is the scan `Squeezed`. */
  lemma {:induction false} DeduplicateSpaceSqueezes(u: Classes, s: seq<char>)
    ensures Replace(SpaceRun, u, s) == Squeezed(u, false, s)
    decreases |s|
  {
    if s != [] {
      SpaceRunStep(u, s);
      if u.space(s[0]) {
        var n := LeadingSpaces(u, s);
        DeduplicateSpaceSqueezes(u, s[n..]);
        SqueezedSkipsRun(u, s[1..]);
        assert s[1..][LeadingSpaces(u, s[1..])..] == s[n..];
      } else {
        DeduplicateSpaceSqueezes(u, s[1..]);
      }
    }
  }

  /** After `[\s]+ -> " "` every white-space character is a blank with no white
      space next to it, and the line starts with white space exactly when the
      input does. */
  lemma {:induction false} DeduplicateSpaceCollapses(u: Classes, s: seq<char>)
    requires u.space(' ')
    ensures Collapsed(u, Replace(SpaceRun, u, s))
    ensures s != [] ==> Replace(SpaceRun, u, s) != [] && (u.space(Replace(SpaceRun, u, s)[0]) <==> u.space(s[0]))
    decreases |s|
  {
    if s != [] {
      SpaceRunStep(u, s);
      var n := if u.space(s[0]) then LeadingSpaces(u, s) else 1;
      var rest := s[n..];
      DeduplicateSpaceCollapses(u, rest);
      var head: seq<char> := if u.space(s[0]) then " " else [s[0]];
      var tail := Replace(SpaceRun, u, rest);
      assert Replace(SpaceRun, u, s) == head + tail;
      assert rest != [] && u.space(s[0]) ==> !u.space(rest[0]);
      CollapsedCons(u, head, tail);
    }
  }

  lemma CollapsedCons(u: Classes, head: seq<char>, tail: seq<char>)
    requires |head| == 1 && Collapsed(u, tail)
    requires u.space(head[0]) ==> head[0] == ' ' && (tail != [] ==> !u.space(tail[0]))
    ensures Collapsed(u, head + tail)
  {
    var t := head + tail;
    forall k | 0 <= k < |t| && u.space(t[k])
      ensures t[k] == ' ' && (k + 1 < |t| ==> !u.space(t[k + 1]))
    {
      if k > 0 {
        assert t[k] == tail[k - 1];
        assert k + 1 < |t| ==> t[k + 1] == tail[k];
      }
    }
  }

  /** De-duplicating keeps every character that is not white space, in order. */
  lemma {:induction false} DeduplicateSpaceKeepsWords(u: Classes, s: seq<char>)
    requires u.space(' ')
    ensures Filter(c => !u.space(c), Replace(SpaceRun, u, s)) == Filter(c => !u.space(c), s)
    decreases |s|
  {
    if s != [] {
      var n := if u.space(s[0]) then LeadingSpaces(u, s) else 1;
      DeduplicateSpaceKeepsWords(u, s[n..]);
      KeepsWordsStep(u, s, n);
    }
  }

  lemma KeepsWordsStep(u: Classes, s: seq<char>, n: nat)
    requires u.space(' ') && s != []
    requires n == if u.space(s[0]) then LeadingSpaces(u, s) else 1
    requires Filter(c => !u.space(c), Replace(SpaceRun, u, s[n..])) == Filter(c => !u.space(c), s[n..])
    ensures Filter(c => !u.space(c), Replace(SpaceRun, u, s)) == Filter(c => !u.space(c), s)
  {
    var keep := c => !u.space(c);
    var head: seq<char> := if u.space(s[0]) then " " else [s[0]];
    SpaceRunStep(u, s);
    FilterSplit(keep, s, n);
    FilterAppend(keep, head, Replace(SpaceRun, u, s[n..]));
    SpaceRunHead(u, s, n, head);
  }

  lemma SpaceRunHead(u: Classes, s: seq<char>, n: nat, head: seq<char>)
    requires u.space(' ') && s != []
    requires n == if u.space(s[0]) then LeadingSpaces(u, s) else 1
    requires head == if u.space(s[0]) then " " else [s[0]]
    ensures Filter(c => !u.space(c), head) == Filter(c => !u.space(c), s[..n])
  {
    if u.space(s[0]) {
      FilterAllSpace(u, s[..n]);
      FilterAllSpace(u, head);
    } else {
      assert s[..n] == head;
    }
  }

  lemma {:induction false} FilterAllSpace(u: Classes, t: seq<char>)
    requires forall k | 0 <= k < |t| :: u.space(t[k])
    ensures Filter(c => !u.space(c), t) == []
  {
    if t != [] {
      FilterAllSpace(u, t[1..]);
    }
  }

  /** A collapsed buffer is left unchanged. */
  lemma {:induction false} DeduplicateSpaceFixes(u: Classes, t: seq<char>)
    requires Collapsed(u, t)
    ensures Replace(SpaceRun, u, t) == t
    decreases |t|
  {
    if t != [] {
      if u.space(t[0]) {
        assert |t| > 1 ==> !u.space(t[1]);
        assert LeadingSpaces(u, t) == 1;
      }
      assert Consumed(SpaceRun, u, t) == 1;
      assert Emitted(SpaceRun, u, t) == [t[0]];
      DeduplicateSpaceFixes(u, t[1..]);
    }
  }

  /** De-duplicating twice is de-duplicating once. */
  lemma DeduplicateSpaceIdempotent(u: Classes, s: seq<char>)
    requires u.space(' ')
    ensures Replace(SpaceRun, u, Replace(SpaceRun, u, s)) == Replace(SpaceRun, u, s)
  {
    DeduplicateSpaceCollapses(u, s);
    DeduplicateSpaceFixes(u, Replace(SpaceRun, u, s));
  }

  // ---------------------------------------------------------------------------
  // RemoveASCIIJunk

  /** `[\x00-\x1F] -> ""` deletes exactly the code points 0 to 31 and keeps the rest in order. */
  lemma {:induction false} RemoveAsciiJunkFilters(u: Classes, s: seq<char>)
    ensures Replace(AsciiControl, u, s) == Filter(c => c as int >= 32, s)
    decreases |s|
  {
    if s != [] {
      assert Consumed(AsciiControl, u, s) == 1;
      RemoveAsciiJunkFilters(u, s[1..]);
    }
  }

  // ---------------------------------------------------------------------------
  // Padding

  /** Blanks around `c` when the padding rule (sparing `spared` as well) selects it. */
  function PadChar(u: Classes, spared: seq<char>, c: char): seq<char> {
    if !u.alnum(c) && !u.space(c) && c !in ".'`,-" && c !in spared then [' ', c, ' '] else [c]
  }

  /** The padding rule surrounds each selected character with blanks and copies every other one. */
  lemma {:induction false} PadOtherPerChar(u: Classes, spared: seq<char>, s: seq<char>)
    ensures Replace(PadOther(spared), u, s) == FlatMap(c => PadChar(u, spared, c), s)
    decreases |s|
  {
    if s != [] {
      assert Consumed(PadOther(spared), u, s) == 1;
      PadOtherPerChar(u, spared, s[1..]);
    }
  }

  /** `(m)(?=$|[^[:Ll:]]) -> " $1 "` in words: an `m` at the end, or before a
      character that is not a lower-case letter, gets blanks around it. */
  function PadMarkUnlessLower(u: Classes, m: char, t: seq<char>): seq<char>
  {
    if t == [] then []
    else (if t[0] == m && (|t| == 1 || !u.ll(t[1])) then [' ', m, ' '] else [t[0]])
         + PadMarkUnlessLower(u, m, t[1..])
  }

  lemma {:induction false} PadUnlessLowerMeaning(u: Classes, m: char, t: seq<char>)
    ensures Replace(PadUnlessLower(m), u, t) == PadMarkUnlessLower(u, m, t)
    decreases |t|
  {
    if t != [] {
      assert Consumed(PadUnlessLower(m), u, t) == 1;
      PadUnlessLowerMeaning(u, m, t[1..]);
    }
  }

  /** The Finnish/Swedish and Catalan variants: pad as the default rule does but
      spare the mark, then pad each mark not followed by a lower-case letter. */
  lemma PadVariantMeaning(u: Classes, m: char, s: seq<char>)
    ensures Eval(ChainOp([ReplaceOp(PadOther([m])), ReplaceOp(PadUnlessLower(m))]), u, s, 0) ==
            Some(PadMarkUnlessLower(u, m, FlatMap(c => PadChar(u, [m], c), s)))
  {
    var a, b := ReplaceOp(PadOther([m])), ReplaceOp(PadUnlessLower(m));
    var w := Replace(PadOther([m]), u, s);
    assert [a, b][1..] == [b];
    assert [b][1..] == [];
    assert EvalChain([b], u, w, 0) == Some(Replace(PadUnlessLower(m), u, w));
    assert EvalChain([a, b], u, s, 0) == EvalChain([b], u, w, 0);
    PadOtherPerChar(u, [m], s);
    PadUnlessLowerMeaning(u, m, w);
  }

  lemma BlankPadded(c: char)
    ensures Filter(NonBlank, [' ', c, ' ']) == Filter(NonBlank, [c])
  {
    var r: seq<char> := [' ', c, ' '];
    assert r[1..] == [c, ' '] && r[1..][1..] == [' '] && r[1..][1..][1..] == [];
    assert [c][1..] == [];
    assert Filter(NonBlank, [' ']) == [];
    assert Filter(NonBlank, [c, ' ']) == Filter(NonBlank, [c]);
  }

  // ---------------------------------------------------------------------------
  // AggressiveHyphenSplit

  /** Each '-' with an alphanumeric character on both sides becomes " @-@ "; `prev`
      is the character before `s`, if any. */
  function SplitHyphens(u: Classes, prev: Option<char>, s: seq<char>): seq<char>
    decreases |s|
  {
    if s == [] then []
    else
      (if s[0] == '-' && prev.Some? && u.alnum(prev.value) && |s| > 1 && u.alnum(s[1])
       then " @-@ " else [s[0]])
      + SplitHyphens(u, Some(s[0]), s[1..])
  }

  /** `([[:alnum:]])\-(?=[[:alnum:]]) -> "$1 @-@ "` splits exactly the hyphens that
      join two alphanumeric characters, although it consumes the character before
      each of them. */
  lemma {:induction false} HyphenSplitMeaning(u: Classes, prev: Option<char>, s: seq<char>)
    requires !u.alnum('-')
    requires !(s != [] && s[0] == '-' && prev.Some? && u.alnum(prev.value) && |s| > 1 && u.alnum(s[1]))
    ensures Replace(HyphenBetweenAlnum, u, s) == SplitHyphens(u, prev, s)
    decreases |s|
  {
    if s != [] {
      if |s| >= 3 && u.alnum(s[0]) && s[1] == '-' && u.alnum(s[2]) {
        HyphenSplitMeaning(u, Some('-'), s[2..]);
        HyphenSplitJoin(u, prev, s);
      } else {
        HyphenSplitMeaning(u, Some(s[0]), s[1..]);
        HyphenSplitCopy(u, prev, s);
      }
    }
  }

  /** One step of `HyphenSplitMeaning` at an alphanumeric character, a hyphen and another one. */
  lemma HyphenSplitJoin(u: Classes, prev: Option<char>, s: seq<char>)
    requires !u.alnum('-')
    requires |s| >= 3 && u.alnum(s[0]) && s[1] == '-' && u.alnum(s[2])
    requires Replace(HyphenBetweenAlnum, u, s[2..]) == SplitHyphens(u, Some('-'), s[2..])
    ensures Replace(HyphenBetweenAlnum, u, s) == SplitHyphens(u, prev, s)
  {
    HyphenStep(u, s);
    SplitHyphensJoin(u, prev, s);
  }

  lemma SplitHyphensJoin(u: Classes, prev: Option<char>, s: seq<char>)
    requires !u.alnum('-')
    requires |s| >= 3 && u.alnum(s[0]) && s[1] == '-' && u.alnum(s[2])
    ensures SplitHyphens(u, prev, s) == [s[0]] + " @-@ " + SplitHyphens(u, Some('-'), s[2..])
  {
    assert s[1..][1..] == s[2..];
    SplitHyphensStep(u, prev, s);
    SplitHyphensStep(u, Some(s[0]), s[1..]);
  }

  /** One step of `HyphenSplitMeaning` anywhere else. */
  lemma HyphenSplitCopy(u: Classes, prev: Option<char>, s: seq<char>)
    requires !u.alnum('-')
    requires !(s != [] && s[0] == '-' && prev.Some? && u.alnum(prev.value) && |s| > 1 && u.alnum(s[1]))
    requires s != [] && !(|s| >= 3 && u.alnum(s[0]) && s[1] == '-' && u.alnum(s[2]))
    requires Replace(HyphenBetweenAlnum, u, s[1..]) == SplitHyphens(u, Some(s[0]), s[1..])
    ensures Replace(HyphenBetweenAlnum, u, s) == SplitHyphens(u, prev, s)
  {
    HyphenStep(u, s);
    SplitHyphensStep(u, prev, s);
  }

  lemma SplitHyphensStep(u: Classes, prev: Option<char>, s: seq<char>)
    requires s != []
    ensures SplitHyphens(u, prev, s) ==
            (if s[0] == '-' && prev.Some? && u.alnum(prev.value) && |s| > 1 && u.alnum(s[1])
             then " @-@ " else [s[0]]) + SplitHyphens(u, Some(s[0]), s[1..])
  {
  }

  lemma HyphenStep(u: Classes, s: seq<char>)
    requires s != []
    ensures Replace(HyphenBetweenAlnum, u, s) ==
            if |s| >= 3 && u.alnum(s[0]) && s[1] == '-' && u.alnum(s[2])
            then [s[0]] + " @-@ " + Replace(HyphenBetweenAlnum, u, s[2..])
            else [s[0]] + Replace(HyphenBetweenAlnum, u, s[1..])
  {
  }

  // ---------------------------------------------------------------------------
  // Stages that only insert blanks

  /** The patterns whose every replacement is the matched text with blanks added. */
  predicate BlankInserting(p: Pattern) {
    match p
    case Literal(lit, repl) => Filter(NonBlank, repl) == Filter(NonBlank, lit)
    case PadOther(_) => true
    case PadUnlessLower(_) => true
    case CommaAfterNonNumber => true
    case CommaBeforeNonNumber => true
    case CommaAtEndAfterNumber => true
    case Apostrophe(_, _, _) => true
    case DotApostropheAtEnd => true
    case _ => false
  }

  /** Removing one blank from between two texts. */
  lemma DropBlank(a: seq<char>, b: seq<char>)
    ensures Filter(NonBlank, a + " " + b) == Filter(NonBlank, a + b)
  {
    FilterAppend(NonBlank, a + " ", b);
    FilterAppend(NonBlank, a, " ");
    FilterAppend(NonBlank, a, b);
    assert Filter(NonBlank, " ") == [];
  }

  lemma CommaPadded(c: char)
    ensures Filter(NonBlank, [c] + " , ") == Filter(NonBlank, [c] + ",")
  {
    assert [c] + " , " == ([c] + " ,") + " " + "";
    DropBlank([c] + " ,", "");
    assert ([c] + " ,") + "" == [c] + " " + ",";
    DropBlank([c], ",");
  }

  lemma GluedKeeps(g: Glue, a: char, b: char)
    ensures Filter(NonBlank, Glued(g, a, b)) == Filter(NonBlank, [a] + "'" + [b])
  {
    match g {
      case Spaced =>
        assert Glued(g, a, b) == [a] + " " + ("'" + " " + [b]);
        DropBlank([a], "'" + " " + [b]);
        assert [a] + ("'" + " " + [b]) == [a] + "'" + " " + [b];
        DropBlank([a] + "'", [b]);
      case AttachRight =>
        assert Glued(g, a, b) == [a] + " " + ("'" + [b]);
        DropBlank([a], "'" + [b]);
        assert [a] + ("'" + [b]) == [a] + "'" + [b];
      case AttachLeft =>
        assert Glued(g, a, b) == [a] + "'" + " " + [b];
        DropBlank([a] + "'", [b]);
    }
  }

  lemma BlankInsertingMatch(p: Pattern, u: Classes, t: seq<char>)
    requires BlankInserting(p) && |t| > 0 && MatchStart(p, u, t).Some?
    ensures var m := MatchStart(p, u, t).value;
            Filter(NonBlank, m.repl) == Filter(NonBlank, t[..m.len])
  {
    if p.Literal? {
      assert t[..|p.lit|] == p.lit;
    } else if p.PadOther? || p.PadUnlessLower? {
      PadMatchKeeps(p, u, t);
    } else if p.CommaAfterNonNumber? || p.CommaAtEndAfterNumber? || p.CommaBeforeNonNumber? {
      CommaMatchKeeps(p, u, t);
    } else if p.Apostrophe? {
      ApostropheMatchKeeps(p, u, t);
    } else {
      DotApostropheMatchKeeps(p, u, t);
    }
  }

  lemma PadMatchKeeps(p: Pattern, u: Classes, t: seq<char>)
    requires (p.PadOther? || p.PadUnlessLower?) && |t| > 0 && MatchStart(p, u, t).Some?
    ensures var m := MatchStart(p, u, t).value;
            Filter(NonBlank, m.repl) == Filter(NonBlank, t[..m.len])
  {
    assert t[..1] == [t[0]];
    BlankPadded(t[0]);
  }

  lemma CommaMatchKeeps(p: Pattern, u: Classes, t: seq<char>)
    requires (p.CommaAfterNonNumber? || p.CommaAtEndAfterNumber? || p.CommaBeforeNonNumber?) && |t| > 0 && MatchStart(p, u, t).Some?
    ensures var m := MatchStart(p, u, t).value;
            Filter(NonBlank, m.repl) == Filter(NonBlank, t[..m.len])
  {
    if p.CommaBeforeNonNumber? {
      assert t[..2] == "," + [t[1]];
      DropBlank(",", [t[1]]);
    } else {
      CommaPadded(t[0]);
      assert t[..2] == [t[0]] + ",";
    }
  }

  lemma ApostropheMatchKeeps(p: Pattern, u: Classes, t: seq<char>)
    requires p.Apostrophe? && |t| > 0 && MatchStart(p, u, t).Some?
    ensures var m := MatchStart(p, u, t).value;
            Filter(NonBlank, m.repl) == Filter(NonBlank, t[..m.len])
  {
    assert t[..3] == [t[0]] + "'" + [t[2]];
    GluedKeeps(p.glue, t[0], t[2]);
  }

  lemma DotApostropheMatchKeeps(p: Pattern, u: Classes, t: seq<char>)
    requires p.DotApostropheAtEnd? && |t| > 0 && MatchStart(p, u, t).Some?
    ensures var m := MatchStart(p, u, t).value;
            Filter(NonBlank, m.repl) == Filter(NonBlank, t[..m.len])
  {
    DotApostropheKeeps();
    assert t[..|t|] == t;
  }

  lemma DotApostropheKeeps()
    ensures Filter(NonBlank, " . ' ") == Filter(NonBlank, ".'")
    ensures Filter(NonBlank, " . ' ") == Filter(NonBlank, ".' ")
  {
    assert " . ' " == "" + " " + ". ' ";
    DropBlank("", ". ' ");
    assert ". ' " == "." + " " + "' ";
    DropBlank(".", "' ");
    assert ".' " == ".'" + " " + "";
    DropBlank(".'", "");
  }

  /** A blank-inserting rewrite keeps every character other than ' ', in order. */
  lemma ReplaceOnlyInsertsBlanks(p: Pattern, u: Classes, s: seq<char>)
    requires BlankInserting(p)
    ensures Filter(NonBlank, Replace(p, u, s)) == Filter(NonBlank, s)
  {
    forall i | 0 <= i < |s| && MatchStart(p, u, s[i..]).Some?
      ensures var m := MatchStart(p, u, s[i..]).value;
              Filter(NonBlank, m.repl) == Filter(NonBlank, s[i..][..m.len])
    {
      BlankInsertingMatch(p, u, s[i..]);
    }
    ReplaceKeeps(p, u, NonBlank, s);
  }

  /** A chain of blank-inserting rewrites. */
  predicate BlankInsertingChain(ops: seq<Op>) {
    forall k | 0 <= k < |ops| :: ops[k].ReplaceOp? && BlankInserting(ops[k].pattern)
  }

  lemma {:induction false} ChainOnlyInsertsBlanks(ops: seq<Op>, u: Classes, s: seq<char>)
    requires BlankInsertingChain(ops)
    ensures EvalChain(ops, u, s, 0).Some?
    ensures Filter(NonBlank, EvalChain(ops, u, s, 0).value) == Filter(NonBlank, s)
    decreases |ops|
  {
    if ops != [] {
      var w := Replace(ops[0].pattern, u, s);
      ReplaceOnlyInsertsBlanks(ops[0].pattern, u, s);
      assert EvalChain(ops, u, s, 0) == EvalChain(ops[1..], u, w, 0);
      ChainOnlyInsertsBlanks(ops[1..], u, w);
    }
  }

  /** A blank-inserting rewrite or chain of them keeps every character other than ' '. */
  lemma OpOnlyInsertsBlanks(op: Op, u: Classes, s: seq<char>)
    requires (op.ReplaceOp? && BlankInserting(op.pattern)) || (op.ChainOp? && BlankInsertingChain(op.ops))
    ensures LoopFree(op)
    ensures Filter(NonBlank, Apply(op, u, s)) == Filter(NonBlank, s)
  {
    if op.ReplaceOp? {
      ReplaceOnlyInsertsBlanks(op.pattern, u, s);
    } else {
      assert AllLoopFree(op.ops) by {
        BlankInsertingLoopFree(op.ops);
      }
      ChainOnlyInsertsBlanks(op.ops, u, s);
    }
  }

  lemma {:induction false} BlankInsertingLoopFree(ops: seq<Op>)
    requires BlankInsertingChain(ops)
    ensures AllLoopFree(ops)
    decreases |ops|
  {
    if ops != [] {
      BlankInsertingLoopFree(ops[1..]);
    }
  }

  /** The padding variants only insert blanks. */
  lemma PadOnlyInsertsBlanks(u: Classes, s: seq<char>)
    ensures Filter(NonBlank, Apply(PadNonAlphanumeric, u, s)) == Filter(NonBlank, s)
  {
    OpOnlyInsertsBlanks(PadNonAlphanumeric, u, s);
  }

  lemma FiSvPadOnlyInsertsBlanks(u: Classes, s: seq<char>)
    ensures Filter(NonBlank, Apply(FiSvPadNonAlphanumeric, u, s)) == Filter(NonBlank, s)
  {
    OpOnlyInsertsBlanks(FiSvPadNonAlphanumeric, u, s);
  }

  lemma CaPadOnlyInsertsBlanks(u: Classes, s: seq<char>)
    ensures Filter(NonBlank, Apply(CaPadNonAlphanumeric, u, s)) == Filter(NonBlank, s)
  {
    OpOnlyInsertsBlanks(CaPadNonAlphanumeric, u, s);
  }

  /** Separating commas only inserts blanks. */
  lemma CommaOnlyInsertsBlanks(u: Classes, s: seq<char>)
    ensures Filter(NonBlank, Apply(SeparateCommaInNumbers, u, s)) == Filter(NonBlank, s)
  {
    OpOnlyInsertsBlanks(SeparateCommaInNumbers, u, s);
  }

  /** The language-specific apostrophe chains only insert blanks. */
  lemma EnApostropheOnlyInsertsBlanks(u: Classes, s: seq<char>)
    ensures Filter(NonBlank, Apply(EnSpecificApostrophe, u, s)) == Filter(NonBlank, s)
  {
    OpOnlyInsertsBlanks(EnSpecificApostrophe, u, s);
  }

  lemma FrItGaCaApostropheOnlyInsertsBlanks(u: Classes, s: seq<char>)
    ensures Filter(NonBlank, Apply(FrItGaCaSpecificApostrophe, u, s)) == Filter(NonBlank, s)
  {
    OpOnlyInsertsBlanks(FrItGaCaSpecificApostrophe, u, s);
  }

  lemma SoApostropheOnlyInsertsBlanks(u: Classes, s: seq<char>)
    ensures Filter(NonBlank, Apply(SoSpecificApostrophe, u, s)) == Filter(NonBlank, s)
  {
    OpOnlyInsertsBlanks(SoSpecificApostrophe, u, s);
  }

  /** The language-neutral apostrophe rule and the trailing ".'" rule only insert blanks. */
  lemma OtherApostropheOnlyInsertsBlanks(u: Classes, s: seq<char>)
    ensures Filter(NonBlank, Apply(NonSpecificApostrophe, u, s)) == Filter(NonBlank, s)
    ensures Filter(NonBlank, Apply(TrailingDotApostrophe, u, s)) == Filter(NonBlank, s)
  {
    DropBlank("", "'" + " ");
    DropBlank("'", "");
    assert "" + " " + ("'" + " ") == " ' " && "" + ("'" + " ") == "'" + " " + "";
    OpOnlyInsertsBlanks(NonSpecificApostrophe, u, s);
    OpOnlyInsertsBlanks(TrailingDotApostrophe, u, s);
  }

  // ---------------------------------------------------------------------------
  // Texts a chain leaves alone

  /** A chain of rewrites none of which matches anywhere in `s` leaves it as it is. */
  lemma {:induction false} ChainWithoutMatch(ops: seq<Op>, u: Classes, s: seq<char>)
    requires forall k | 0 <= k < |ops| :: ops[k].ReplaceOp?
    requires forall k, i | 0 <= k < |ops| && 0 <= i < |s| :: MatchStart(ops[k].pattern, u, s[i..]).None?
    ensures EvalChain(ops, u, s, 0) == Some(s)
    decreases |ops|
  {
    if ops != [] {
      NoMatchNoSearch(ops[0].pattern, u, s);
      ReplaceWithoutMatch(ops[0].pattern, u, s);
      ChainWithoutMatch(ops[1..], u, s);
    }
  }

  /** Every apostrophe has a letter on both sides. */
  predicate ApostrophesInWords(u: Classes, s: seq<char>) {
    forall i | 0 <= i < |s| && s[i] == '\'' :: 0 < i < |s| - 1 && u.alpha(s[i - 1]) && u.alpha(s[i + 1])
  }

  /** The Somali rules only split an apostrophe with a non-letter next to it: a line
      whose every apostrophe sits between two letters is left unchanged. */
  lemma SoApostrophesInWordsKept(u: Classes, s: seq<char>)
    requires ApostrophesInWords(u, s)
    ensures Apply(SoSpecificApostrophe, u, s) == s
  {
    var ops := SoSpecificApostrophe.ops;
    forall k, i | 0 <= k < |ops| && 0 <= i < |s|
      ensures MatchStart(ops[k].pattern, u, s[i..]).None?
    {
      if i + 2 < |s| {
        assert s[i..][1] == s[i + 1] && s[i..][2] == s[i + 2];
      }
    }
    ChainWithoutMatch(ops, u, s);
  }

  // ---------------------------------------------------------------------------
  // Apostrophes and commas between two characters

  /** A chain of rewrites runs its first rewrite, then the rest. */
  lemma ChainStep(ops: seq<Op>, u: Classes, s: seq<char>)
    requires ops != [] && ops[0].ReplaceOp?
    ensures EvalChain(ops, u, s, 0) == EvalChain(ops[1..], u, Replace(ops[0].pattern, u, s), 0)
  {
  }

  /** Three rewrites in a chain run one after the other. */
  lemma ThreeRewrites(p: Pattern, q: Pattern, r: Pattern, u: Classes, s: seq<char>)
    ensures EvalChain([ReplaceOp(p), ReplaceOp(q), ReplaceOp(r)], u, s, 0) ==
            Some(Replace(r, u, Replace(q, u, Replace(p, u, s))))
  {
    var ops := [ReplaceOp(p), ReplaceOp(q), ReplaceOp(r)];
    ChainStep(ops, u, s);
    ChainStep(ops[1..], u, Replace(p, u, s));
    ChainStep(ops[2..], u, Replace(q, u, Replace(p, u, s)));
    assert ops[3..] == [];
  }

  /** Four rewrites in a chain run one after the other. */
  lemma FourRewrites(p: Pattern, q: Pattern, r: Pattern, t: Pattern, u: Classes, s: seq<char>)
    ensures EvalChain([ReplaceOp(p), ReplaceOp(q), ReplaceOp(r), ReplaceOp(t)], u, s, 0) ==
            Some(Replace(t, u, Replace(r, u, Replace(q, u, Replace(p, u, s)))))
  {
    var ops := [ReplaceOp(p), ReplaceOp(q), ReplaceOp(r), ReplaceOp(t)];
    ChainStep(ops, u, s);
    assert ops[1..] == [ReplaceOp(q), ReplaceOp(r), ReplaceOp(t)];
    ThreeRewrites(q, r, t, u, Replace(p, u, s));
  }

  /** Five rewrites in a chain run one after the other. */
  lemma FiveRewrites(p: Pattern, q: Pattern, r: Pattern, t: Pattern, v: Pattern, u: Classes, s: seq<char>)
    ensures EvalChain([ReplaceOp(p), ReplaceOp(q), ReplaceOp(r), ReplaceOp(t), ReplaceOp(v)], u, s, 0) ==
            Some(Replace(v, u, Replace(t, u, Replace(r, u, Replace(q, u, Replace(p, u, s))))))
  {
    var ops := [ReplaceOp(p), ReplaceOp(q), ReplaceOp(r), ReplaceOp(t), ReplaceOp(v)];
    ChainStep(ops, u, s);
    assert ops[1..] == [ReplaceOp(q), ReplaceOp(r), ReplaceOp(t), ReplaceOp(v)];
    FourRewrites(q, r, t, v, u, Replace(p, u, s));
  }

  /** A rewrite that matches at no position leaves the text alone. */
  lemma Untouched(p: Pattern, u: Classes, s: seq<char>)
    requires forall i | 0 <= i < |s| :: MatchStart(p, u, s[i..]).None?
    ensures Replace(p, u, s) == s
  {
    NoMatchNoSearch(p, u, s);
    ReplaceWithoutMatch(p, u, s);
  }

  /** A rewrite whose match at the start consumes the whole text gives its replacement. */
  lemma WholeMatch(p: Pattern, u: Classes, s: seq<char>, r: seq<char>)
    requires s != [] && MatchStart(p, u, s) == Some(Match(|s|, r))
    ensures Replace(p, u, s) == r
  {
    assert s[|s|..] == [];
  }

  /** An apostrophe rule that does not match "a'b" leaves it alone. */
  lemma ApostropheKept(left: CharTest, right: CharTest, g: Glue, u: Classes, a: char, b: char)
    requires !(Passes(u, left, a) && Passes(u, right, b))
    ensures Replace(Apostrophe(left, right, g), u, [a, '\'', b]) == [a, '\'', b]
  {
    var s := [a, '\'', b];
    assert s[0..] == s;
    Untouched(Apostrophe(left, right, g), u, s);
  }

  /** An apostrophe rule that matches "a'b" rewrites it to its replacement. */
  lemma ApostropheRewritten(left: CharTest, right: CharTest, g: Glue, u: Classes, a: char, b: char)
    requires Passes(u, left, a) && Passes(u, right, b)
    ensures Replace(Apostrophe(left, right, g), u, [a, '\'', b]) == Glued(g, a, b)
  {
    WholeMatch(Apostrophe(left, right, g), u, [a, '\'', b], Glued(g, a, b));
  }

  /** The English apostrophe stage is its five rewrites in order. */
  lemma EnChain(u: Classes, s: seq<char>)
    ensures LoopFree(EnSpecificApostrophe)
    ensures Apply(EnSpecificApostrophe, u, s) ==
            Replace(Apostrophe(Number, Exactly('s'), AttachRight), u,
            Replace(Apostrophe(Alpha, Alpha, AttachRight), u,
            Replace(Apostrophe(Alpha, NotAlpha, Spaced), u,
            Replace(Apostrophe(NotAlphaNorNumber, Alpha, Spaced), u,
            Replace(Apostrophe(NotAlpha, NotAlpha, Spaced), u, s)))))
  {
    FiveRewrites(
      Apostrophe(NotAlpha, NotAlpha, Spaced), Apostrophe(NotAlphaNorNumber, Alpha, Spaced),
      Apostrophe(Alpha, NotAlpha, Spaced), Apostrophe(Alpha, Alpha, AttachRight),
      Apostrophe(Number, Exactly('s'), AttachRight), u, s);
  }

  /** The French, Italian, Irish and Catalan apostrophe stage is its four rewrites in order. */
  lemma FrItGaCaChain(u: Classes, s: seq<char>)
    ensures LoopFree(FrItGaCaSpecificApostrophe)
    ensures Apply(FrItGaCaSpecificApostrophe, u, s) ==
            Replace(Apostrophe(Alpha, Alpha, AttachLeft), u,
            Replace(Apostrophe(Alpha, NotAlpha, Spaced), u,
            Replace(Apostrophe(NotAlpha, Alpha, Spaced), u,
            Replace(Apostrophe(NotAlpha, NotAlpha, Spaced), u, s))))
  {
    FourRewrites(
      Apostrophe(NotAlpha, NotAlpha, Spaced), Apostrophe(NotAlpha, Alpha, Spaced),
      Apostrophe(Alpha, NotAlpha, Spaced), Apostrophe(Alpha, Alpha, AttachLeft), u, s);
  }

  /** The comma stage is its three rewrites in order. */
  lemma CommaChain(u: Classes, s: seq<char>)
    ensures LoopFree(SeparateCommaInNumbers)
    ensures Apply(SeparateCommaInNumbers, u, s) ==
            Replace(CommaAtEndAfterNumber, u, Replace(CommaBeforeNonNumber, u, Replace(CommaAfterNonNumber, u, s)))
  {
    ThreeRewrites(CommaAfterNonNumber, CommaBeforeNonNumber, CommaAtEndAfterNumber, u, s);
  }

  /** English attaches the apostrophe between two letters to the right: "don't" gives "don 't". */
  lemma EnAttachesRight(u: Classes, a: char, b: char)
    requires u.alpha(a) && u.alpha(b) && !u.number(' ')
    ensures Apply(EnSpecificApostrophe, u, [a, '\'', b]) == [a, ' ', '\'', b]
  {
    var s := [a, '\'', b];
    var t := [a, ' ', '\'', b];
    ApostropheKept(NotAlpha, NotAlpha, Spaced, u, a, b);
    ApostropheKept(NotAlphaNorNumber, Alpha, Spaced, u, a, b);
    ApostropheKept(Alpha, NotAlpha, Spaced, u, a, b);
    ApostropheRewritten(Alpha, Alpha, AttachRight, u, a, b);
    NumberSKept(u, a, b);
    EnChain(u, s);
  }

  /** After "a 'b" the rule for "1990's" finds no number before an apostrophe. */
  lemma NumberSKept(u: Classes, a: char, b: char)
    requires !u.number(' ')
    ensures Replace(Apostrophe(Number, Exactly('s'), AttachRight), u, [a, ' ', '\'', b]) == [a, ' ', '\'', b]
  {
    var t := [a, ' ', '\'', b];
    assert t[0..] == t && t[1..] == [' ', '\'', b] && t[2..] == ['\'', b] && t[3..] == [b];
    Untouched(Apostrophe(Number, Exactly('s'), AttachRight), u, t);
  }

  /** English splits "'s" after a number: "1990's" gives "1990 's". */
  lemma EnSplitsNumberS(u: Classes, d: char)
    requires u.number(d) && !u.alpha(d) && u.alpha('s')
    ensures Apply(EnSpecificApostrophe, u, [d, '\'', 's']) == [d, ' ', '\'', 's']
  {
    var s := [d, '\'', 's'];
    ApostropheKept(NotAlpha, NotAlpha, Spaced, u, d, 's');
    ApostropheKept(NotAlphaNorNumber, Alpha, Spaced, u, d, 's');
    ApostropheKept(Alpha, NotAlpha, Spaced, u, d, 's');
    ApostropheKept(Alpha, Alpha, AttachRight, u, d, 's');
    ApostropheRewritten(Number, Exactly('s'), AttachRight, u, d, 's');
    EnChain(u, s);
  }

  /** French, Italian, Irish and Catalan attach it to the left: "l'homme" gives "l' homme". */
  lemma FrItGaCaAttachesLeft(u: Classes, a: char, b: char)
    requires u.alpha(a) && u.alpha(b)
    ensures Apply(FrItGaCaSpecificApostrophe, u, [a, '\'', b]) == [a, '\'', ' ', b]
  {
    var s := [a, '\'', b];
    ApostropheKept(NotAlpha, NotAlpha, Spaced, u, a, b);
    ApostropheKept(NotAlpha, Alpha, Spaced, u, a, b);
    ApostropheKept(Alpha, NotAlpha, Spaced, u, a, b);
    ApostropheRewritten(Alpha, Alpha, AttachLeft, u, a, b);
    FrItGaCaChain(u, s);
  }

  /** The first comma rule: no non-number directly before the comma of "d,b". */
  lemma CommaAfterNonNumberKept(u: Classes, d: char, b: char)
    requires u.number(d) && b != ','
    ensures Replace(CommaAfterNonNumber, u, [d, ',', b]) == [d, ',', b]
  {
    var s := [d, ',', b];
    assert s[0..] == s && s[1..] == [',', b] && s[2..] == [b];
    Untouched(CommaAfterNonNumber, u, s);
  }

  /** The second comma rule: ", " and the non-number after the comma. */
  lemma CommaBeforeNonNumberSplits(u: Classes, d: char, b: char)
    requires d != ',' && !u.number(b)
    ensures Replace(CommaBeforeNonNumber, u, [d, ',', b]) == [d, ',', ' ', b]
  {
    var s := [d, ',', b];
    assert s[1..] == [',', b] && s[1..][2..] == [];
    assert Replace(CommaBeforeNonNumber, u, s) == [d] + Replace(CommaBeforeNonNumber, u, s[1..]);
  }

  /** The third comma rule: the comma of "d, b" does not end the line. */
  lemma CommaAtEndKept(u: Classes, d: char, b: char)
    requires b != ','
    ensures Replace(CommaAtEndAfterNumber, u, [d, ',', ' ', b]) == [d, ',', ' ', b]
  {
    var t := [d, ',', ' ', b];
    assert t[0..] == t && t[1..] == [',', ' ', b] && t[2..] == [' ', b] && t[3..] == [b];
    Untouched(CommaAtEndAfterNumber, u, t);
  }

  /** A comma between a number and a non-number only gets a blank after it:
      "5,a" gives "5, a", with the comma still attached to the number. */
  lemma CommaAfterNumber(u: Classes, d: char, b: char)
    requires u.number(d) && d != ',' && !u.number(b) && b != ','
    ensures Apply(SeparateCommaInNumbers, u, [d, ',', b]) == [d, ',', ' ', b]
  {
    var s := [d, ',', b];
    var t := [d, ',', ' ', b];
    CommaAfterNonNumberKept(u, d, b);
    CommaBeforeNonNumberSplits(u, d, b);
    CommaAtEndKept(u, d, b);
    CommaChain(u, s);
  }

  // ---------------------------------------------------------------------------
  // EscapeSpecialChars

  /** The entity each special character is escaped to; other characters stay. */
  function EscapeChar(c: char): seq<char> {
    if c == '&' then "&amp;"
    else if c == '|' then "&#124;"
    else if c == '<' then "&lt;"
    else if c == '>' then "&gt;"
    else if c == '\'' then "&apos;"
    else if c == '"' then "&quot;"
    else if c == '[' then "&#91;"
    else if c == ']' then "&#93;"
    else [c]
  }

  /** Every member of `ops` rewrites one fixed character. */
  predicate CharLiterals(ops: seq<Op>) {
    forall k | 0 <= k < |ops| :: ops[k].ReplaceOp? && ops[k].pattern.Literal? && |ops[k].pattern.lit| == 1
  }

  /** The characters a chain of one-character rewrites looks for, in order. */
  function Lits(ops: seq<Op>): (r: seq<char>)
    requires CharLiterals(ops)
    ensures |r| == |ops|
    ensures forall k | 0 <= k < |ops| :: r[k] == ops[k].pattern.lit[0]
  {
    seq(|ops|, k requires 0 <= k < |ops| => ops[k].pattern.lit[0])
  }

  /** A chain of one-character rewrites leaves a text without those characters alone. */
  lemma ChainAbsent(ops: seq<Op>, u: Classes, s: seq<char>)
    requires CharLiterals(ops)
    requires forall i | 0 <= i < |s| :: s[i] !in Lits(ops)
    ensures EvalChain(ops, u, s, 0) == Some(s)
  {
    var lits := Lits(ops);
    forall k, i | 0 <= k < |ops| && 0 <= i < |s|
      ensures MatchStart(ops[k].pattern, u, s[i..]).None?
    {
      assert s[i..][0] == s[i] && lits[k] == ops[k].pattern.lit[0];
    }
    ChainWithoutMatch(ops, u, s);
  }

  /** A chain of one-character rewrites works on each character independently. */
  lemma {:induction false} CharLiteralsAppend(ops: seq<Op>, u: Classes, a: seq<char>, b: seq<char>)
    requires CharLiterals(ops)
    ensures EvalChain(ops, u, a, 0).Some? && EvalChain(ops, u, b, 0).Some?
    ensures EvalChain(ops, u, a + b, 0) == Some(EvalChain(ops, u, a, 0).value + EvalChain(ops, u, b, 0).value)
    decreases |ops|
  {
    if ops != [] {
      var p := ops[0].pattern;
      ReplaceCharLocalAppend(p, u, a, b);
      CharLiteralsAppend(ops[1..], u, Replace(p, u, a), Replace(p, u, b));
    }
  }

  /** The character the `k`-th rewrite looks for becomes its replacement when no
      earlier rewrite touches it and no later one touches the replacement. */
  lemma EscapeOne(ops: seq<Op>, k: nat, u: Classes, c: char, r: seq<char>, before: seq<char>, after: seq<char>)
    requires CharLiterals(ops) && k < |ops| && ops[k].pattern.lit == [c] && ops[k].pattern.repl == r
    requires Lits(ops)[..k] == before && Lits(ops)[k + 1..] == after
    requires c !in before
    requires forall i | 0 <= i < |r| :: r[i] !in after
    ensures EvalChain(ops, u, [c], 0) == Some(r)
  {
    assert ops == ops[..k] + ([ops[k]] + ops[k + 1..]);
    EvalChainAppend(ops[..k], [ops[k]] + ops[k + 1..], u, [c], 0);
    EscapeBefore(ops, k, u, c);
    EscapeAt(ops, k, u, c);
    EscapeAfter(ops, k, u, r);
  }

  lemma EscapeBefore(ops: seq<Op>, k: nat, u: Classes, c: char)
    requires CharLiterals(ops) && k <= |ops| && c !in Lits(ops)[..k]
    ensures EvalChain(ops[..k], u, [c], 0) == Some([c])
  {
    assert Lits(ops[..k]) == Lits(ops)[..k];
    ChainAbsent(ops[..k], u, [c]);
  }

  lemma EscapeAt(ops: seq<Op>, k: nat, u: Classes, c: char)
    requires CharLiterals(ops) && k < |ops| && ops[k].pattern.lit == [c]
    ensures EvalChain([ops[k]] + ops[k + 1..], u, [c], 0) == EvalChain(ops[k + 1..], u, ops[k].pattern.repl, 0)
  {
    assert ([ops[k]] + ops[k + 1..])[1..] == ops[k + 1..];
    assert Replace(ops[k].pattern, u, [c]) == ops[k].pattern.repl by {
      assert [c][1..] == [];
    }
  }

  lemma EscapeAfter(ops: seq<Op>, k: nat, u: Classes, r: seq<char>)
    requires CharLiterals(ops) && k < |ops|
    requires forall i | 0 <= i < |r| :: r[i] !in Lits(ops)[k + 1..]
    ensures EvalChain(ops[k + 1..], u, r, 0) == Some(r)
  {
    assert Lits(ops[k + 1..]) == Lits(ops)[k + 1..];
    ChainAbsent(ops[k + 1..], u, r);
  }

  lemma EscapeOpsLits()
    ensures CharLiterals(EscapeOps)
    ensures Lits(EscapeOps) == "&|<>'\"[]"
  {
  }

  lemma EscapeOpsOneChar(u: Classes, c: char)
    ensures EvalChain(EscapeOps, u, [c], 0) == Some(EscapeChar(c))
  {
    if c == '&' { EscapeAmpersand(u); }
    else if c == '|' { EscapeBar(u); }
    else if c == '<' { EscapeLess(u); }
    else if c == '>' { EscapeGreater(u); }
    else if c == '\'' { EscapeApostrophe(u); }
    else if c == '"' { EscapeQuote(u); }
    else if c == '[' { EscapeOpenBracket(u); }
    else if c == ']' { EscapeCloseBracket(u); }
    else {
      EscapeOpsLits();
      ChainAbsent(EscapeOps, u, [c]);
    }
  }

  /** No entity contains a character that a later rewrite of the chain looks for. */
  lemma EntitiesAvoidLaterLits()
    ensures forall i | 0 <= i < |"&amp;"| :: "&amp;"[i] !in "|<>'\"[]"
    ensures forall i | 0 <= i < |"&#124;"| :: "&#124;"[i] !in "<>'\"[]"
    ensures forall i | 0 <= i < |"&lt;"| :: "&lt;"[i] !in ">'\"[]"
    ensures forall i | 0 <= i < |"&gt;"| :: "&gt;"[i] !in "'\"[]"
    ensures forall i | 0 <= i < |"&apos;"| :: "&apos;"[i] !in "\"[]"
    ensures forall i | 0 <= i < |"&quot;"| :: "&quot;"[i] !in "[]"
    ensures forall i | 0 <= i < |"&#91;"| :: "&#91;"[i] !in "]"
    ensures forall i | 0 <= i < |"&#93;"| :: "&#93;"[i] !in ""
  {
  }

  lemma EscapeAmpersand(u: Classes)
    ensures EvalChain(EscapeOps, u, ['&'], 0) == Some("&amp;")
  {
    EscapeOpsLits();
    EntitiesAvoidLaterLits();
    assert Lits(EscapeOps)[..0] == "" && Lits(EscapeOps)[1..] == "|<>'\"[]";
    EscapeOne(EscapeOps, 0, u, '&', "&amp;", "", "|<>'\"[]");
  }

  lemma EscapeBar(u: Classes)
    ensures EvalChain(EscapeOps, u, ['|'], 0) == Some("&#124;")
  {
    EscapeOpsLits();
    EntitiesAvoidLaterLits();
    assert Lits(EscapeOps)[..1] == "&" && Lits(EscapeOps)[2..] == "<>'\"[]";
    EscapeOne(EscapeOps, 1, u, '|', "&#124;", "&", "<>'\"[]");
  }

  lemma EscapeLess(u: Classes)
    ensures EvalChain(EscapeOps, u, ['<'], 0) == Some("&lt;")
  {
    EscapeOpsLits();
    EntitiesAvoidLaterLits();
    assert Lits(EscapeOps)[..2] == "&|" && Lits(EscapeOps)[3..] == ">'\"[]";
    EscapeOne(EscapeOps, 2, u, '<', "&lt;", "&|", ">'\"[]");
  }

  lemma EscapeGreater(u: Classes)
    ensures EvalChain(EscapeOps, u, ['>'], 0) == Some("&gt;")
  {
    EscapeOpsLits();
    EntitiesAvoidLaterLits();
    assert Lits(EscapeOps)[..3] == "&|<" && Lits(EscapeOps)[4..] == "'\"[]";
    EscapeOne(EscapeOps, 3, u, '>', "&gt;", "&|<", "'\"[]");
  }

  lemma EscapeApostrophe(u: Classes)
    ensures EvalChain(EscapeOps, u, ['\''], 0) == Some("&apos;")
  {
    EscapeOpsLits();
    EntitiesAvoidLaterLits();
    assert Lits(EscapeOps)[..4] == "&|<>" && Lits(EscapeOps)[5..] == "\"[]";
    EscapeOne(EscapeOps, 4, u, '\'', "&apos;", "&|<>", "\"[]");
  }

  lemma EscapeQuote(u: Classes)
    ensures EvalChain(EscapeOps, u, ['"'], 0) == Some("&quot;")
  {
    EscapeOpsLits();
    EntitiesAvoidLaterLits();
    assert Lits(EscapeOps)[..5] == "&|<>'" && Lits(EscapeOps)[6..] == "[]";
    EscapeOne(EscapeOps, 5, u, '"', "&quot;", "&|<>'", "[]");
  }

  lemma EscapeOpenBracket(u: Classes)
    ensures EvalChain(EscapeOps, u, ['['], 0) == Some("&#91;")
  {
    EscapeOpsLits();
    EntitiesAvoidLaterLits();
    assert Lits(EscapeOps)[..6] == "&|<>'\"" && Lits(EscapeOps)[7..] == "]";
    EscapeOne(EscapeOps, 6, u, '[', "&#91;", "&|<>'\"", "]");
  }

  lemma EscapeCloseBracket(u: Classes)
    ensures EvalChain(EscapeOps, u, [']'], 0) == Some("&#93;")
  {
    EscapeOpsLits();
    EntitiesAvoidLaterLits();
    assert Lits(EscapeOps)[..7] == "&|<>'\"[" && Lits(EscapeOps)[8..] == "";
    EscapeOne(EscapeOps, 7, u, ']', "&#93;", "&|<>'\"[", "");
  }

  /** Escaping replaces each special character by its entity and keeps the rest:
      the eight one-character rewrites never undo or re-escape each other's work. */
  lemma EscapeMeaning(u: Classes, s: seq<char>)
    ensures LoopFree(EscapeSpecialChars)
    ensures Apply(EscapeSpecialChars, u, s) == FlatMap(EscapeChar, s)
  {
    EscapeOpsLits();
    CharLiteralsLoopFree(EscapeOps);
    EscapeChain(u, s);
  }

  lemma {:induction false} EscapeChain(u: Classes, s: seq<char>)
    ensures EvalChain(EscapeOps, u, s, 0) == Some(FlatMap(EscapeChar, s))
    decreases |s|
  {
    if s != [] {
      var a, b := [s[0]], s[1..];
      assert a + b == s;
      EscapeOpsLits();
      CharLiteralsAppend(EscapeOps, u, a, b);
      EscapeOpsOneChar(u, s[0]);
      EscapeChain(u, b);
    }
  }

  lemma {:induction false} CharLiteralsLoopFree(ops: seq<Op>)
    requires CharLiterals(ops)
    ensures AllLoopFree(ops)
    decreases |ops|
  {
    if ops != [] {
      CharLiteralsLoopFree(ops[1..]);
    }
  }

  /** The characters escaping removes from a line ('&' stays, as the start of each entity). */
  predicate Special(c: char) {
    c in "|<>'\"[]"
  }

  lemma {:induction false} EscapedHasNoSpecial(s: seq<char>)
    ensures forall i | 0 <= i < |FlatMap(EscapeChar, s)| :: !Special(FlatMap(EscapeChar, s)[i])
    decreases |s|
  {
    if s != [] {
      EscapedHasNoSpecial(s[1..]);
      var e, rest := EscapeChar(s[0]), FlatMap(EscapeChar, s[1..]);
      assert forall i | 0 <= i < |e| :: !Special(e[i]);
      forall i | 0 <= i < |e + rest|
        ensures !Special((e + rest)[i])
      {
        if i >= |e| {
          assert (e + rest)[i] == rest[i - |e|];
        }
      }
    }
  }

  /** Reads the entities `EscapeChar` writes back as the characters they stand for. */
  function Unescape(t: seq<char>): seq<char>
    decreases |t|
  {
    if t == [] then []
    else if "&amp;" <= t then "&" + Unescape(t[5..])
    else if "&#124;" <= t then "|" + Unescape(t[6..])
    else if "&lt;" <= t then "<" + Unescape(t[4..])
    else if "&gt;" <= t then ">" + Unescape(t[4..])
    else if "&apos;" <= t then "'" + Unescape(t[6..])
    else if "&quot;" <= t then "\"" + Unescape(t[6..])
    else if "&#91;" <= t then "[" + Unescape(t[5..])
    else if "&#93;" <= t then "]" + Unescape(t[5..])
    else [t[0]] + Unescape(t[1..])
  }

  lemma UnescapeStep(c: char, rest: seq<char>)
    ensures Unescape(EscapeChar(c) + rest) == [c] + Unescape(rest)
  {
    if c == '&' || Special(c) {
      UnescapeEntity(c, rest);
    } else {
      var t := [c] + rest;
      assert t[1..] == rest && t[0] == c;
    }
  }

  /** An entity is read back as the character it stands for. */
  lemma UnescapeEntity(c: char, rest: seq<char>)
    requires c == '&' || Special(c)
    ensures Unescape(EscapeChar(c) + rest) == [c] + Unescape(rest)
  {
    var e := EscapeChar(c);
    var t := e + rest;
    assert t[|e|..] == rest;
    assert e <= t;
    assert t[0] == e[0] && t[1] == e[1] && t[2] == e[2] && t[3] == e[3];
  }

  /** Escaping loses nothing: reading the entities back gives the line before escaping. */
  lemma {:induction false} UnescapeEscape(s: seq<char>)
    ensures Unescape(FlatMap(EscapeChar, s)) == s
    decreases |s|
  {
    if s != [] {
      UnescapeStep(s[0], FlatMap(EscapeChar, s[1..]));
      UnescapeEscape(s[1..]);
    }
  }

  // ---------------------------------------------------------------------------
  // TrailingDotApostrophe

  predicate EndsWithDotApostrophe(s: seq<char>) {
    |s| >= 2 && s[|s| - 2] == '.' && s[|s| - 1] == '\''
  }

  predicate EndsWithDotApostropheBlank(s: seq<char>) {
    |s| >= 3 && s[|s| - 3] == '.' && s[|s| - 2] == '\'' && s[|s| - 1] == ' '
  }

  /** The line with a final ".'" or ".' " written as " . ' ". */
  function SplitTrailingDotApostrophe(s: seq<char>): seq<char> {
    if EndsWithDotApostrophe(s) then s[..|s| - 2] + " . ' "
    else if EndsWithDotApostropheBlank(s) then s[..|s| - 3] + " . ' "
    else s
  }

  lemma DotApostropheStep(u: Classes, s: seq<char>)
    requires s != [] && s != ".'" && s != ".' "
    ensures Replace(DotApostropheAtEnd, u, s) == [s[0]] + Replace(DotApostropheAtEnd, u, s[1..])
  {
  }

  /** `\.' ?$` only matches at the very end, so the rule rewrites just the line's tail. */
  lemma {:induction false} TrailingDotApostropheMeaning(u: Classes, s: seq<char>)
    ensures Replace(DotApostropheAtEnd, u, s) == SplitTrailingDotApostrophe(s)
    decreases |s|
  {
    if s == ".'" || s == ".' " {
      DotApostropheWhole(u, s);
    } else if s != [] {
      var t := s[1..];
      DotApostropheStep(u, s);
      TrailingDotApostropheMeaning(u, t);
      TailShift(s);
    }
  }

  lemma DotApostropheWhole(u: Classes, s: seq<char>)
    requires s == ".'" || s == ".' "
    ensures Replace(DotApostropheAtEnd, u, s) == SplitTrailingDotApostrophe(s)
  {
    assert SplitTrailingDotApostrophe(s) == " . ' ";
    assert MatchStart(DotApostropheAtEnd, u, s) == Some(Match(|s|, " . ' "));
    assert s[|s|..] == [];
  }

  /** Dropping the first character of a line longer than its tail keeps the tail. */
  lemma TailShift(s: seq<char>)
    requires s != [] && s != ".'" && s != ".' "
    ensures SplitTrailingDotApostrophe(s) == [s[0]] + SplitTrailingDotApostrophe(s[1..])
  {
    var t := s[1..];
    if EndsWithDotApostrophe(s) {
      assert |s| > 2 && EndsWithDotApostrophe(t);
      assert s[..|s| - 2] == [s[0]] + t[..|t| - 2];
    } else if EndsWithDotApostropheBlank(s) {
      assert |s| > 3 && EndsWithDotApostropheBlank(t) && !EndsWithDotApostrophe(t);
      assert s[..|s| - 3] == [s[0]] + t[..|t| - 3];
    } else {
      assert !EndsWithDotApostrophe(t) && !EndsWithDotApostropheBlank(t);
      assert s == [s[0]] + t;
    }
  }
}
