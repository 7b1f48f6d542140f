/**
 * The concrete regular expressions of the tokenizer and the substitution that
 * `ReplaceOp` performs with them (`boost::u32regex_replace`, global, leftmost
 * first, non-overlapping, Perl syntax).
 *
 * No general regular-expression engine is modelled.  Each pattern the tokenizer
 * uses is a constructor of `Pattern`, and `MatchStart` says, by hand, whether
 * that pattern matches at the start of a suffix of the buffer, how much it
 * consumes and what the replacement template expands to there.  Lookaheads
 * (`(?=...)`) and `$` inspect the rest of the suffix without consuming it.
 * `$` is end of buffer.  Boost also matches it before a line separator; the
 * separators that are `\s` have been collapsed to ' ' before the first pattern
 * with `$` runs, but code points whose low 16 bits are 0x0085, 0x2028 or 0x2029
 * (U+12028, say) are separators to Boost and not `\s`, and before those the
 * model does not match `$`.
 */
module Patterns {
  import opened Wrappers
  import opened CharClasses
  import opened Text

  /** A literal pattern is never empty. */
  type Lit = s: seq<char> | |s| > 0 witness "."

  /** A one-character class inside a pattern. */
  datatype CharTest =
    | Alpha                // [[:alpha:]]
    | NotAlpha             // [^[:alpha:]]
    | NotAlphaNorNumber    // [^[:alpha:][:Number:]]
    | Number               // [[:Number:]]
    | Exactly(c: char)     // [s]

  predicate Passes(u: Classes, t: CharTest, c: char) {
    match t
    case Alpha => u.alpha(c)
    case NotAlpha => !u.alpha(c)
    case NotAlphaNorNumber => !u.alpha(c) && !u.number(c)
    case Number => u.number(c)
    case Exactly(d) => c == d
  }

  /** Where the apostrophe goes in `(A)[']( B)`'s replacement. */
  datatype Glue =
    | Spaced        // "$1 ' $2"
    | AttachRight   // "$1 '$2"
    | AttachLeft    // "$1' $2"

  function Glued(g: Glue, a: char, b: char): seq<char> {
    match g
    case Spaced => [a, ' ', '\'', ' ', b]
    case AttachRight => [a, ' ', '\'', b]
    case AttachLeft => [a, '\'', ' ', b]
  }

  datatype Pattern =
    | Literal(lit: Lit, repl: seq<char>)  // a fixed text and a fixed replacement
    | SpaceRun                            // "[\s]+"                      -> " "
    | AsciiControl                        // "[\x00-\x1F]"                -> ""
    | PadOther(spared: seq<char>)         // "([^[:alnum:]\s\.'`,-...])"  -> " $1 "
    | PadUnlessLower(mark: char)          // "(m)(?=$|[^[:Ll:]])"         -> " $1 "
    | HyphenBetweenAlnum                  // "([[:alnum:]])\-(?=[[:alnum:]])" -> "$1 @-@ "
    | DotRun                              // "\.([\.]+)"                  -> " DOTMULTI$1"
    | DotMultiDotThen                     // "DOTMULTI\.([^\.])"          -> "DOTDOTMULTI $1"
    | CommaAfterNonNumber                 // "([^[:Number:]])[,]"         -> "$1 , "
    | CommaBeforeNonNumber                // "[,]([^[:Number:]])"         -> ", $1"
    | CommaAtEndAfterNumber               // "([[:Number:]])[,]$"         -> "$1 , "
    | Apostrophe(left: CharTest, right: CharTest, glue: Glue)  // "(A)[']( B)"
    | DotApostropheAtEnd                  // "\.' ?$"                     -> " . ' "

  /** A match at the start of a suffix: how many characters it consumes and what replaces them. */
  datatype Match = Match(len: nat, repl: seq<char>)

  /** Length of the longest prefix of `t` made of `\s` characters. */
  function LeadingSpaces(u: Classes, t: seq<char>): (n: nat)
    ensures n <= |t|
    ensures forall k | 0 <= k < n :: u.space(t[k])
    ensures n < |t| ==> !u.space(t[n])
  {
    if t != [] && u.space(t[0]) then 1 + LeadingSpaces(u, t[1..]) else 0
  }

  /** Length of the longest prefix of `t` made of '.'. */
  function LeadingDots(t: seq<char>): (n: nat)
    ensures n <= |t|
    ensures forall k | 0 <= k < n :: t[k] == '.'
    ensures n < |t| ==> t[n] != '.'
  {
    if t != [] && t[0] == '.' then 1 + LeadingDots(t[1..]) else 0
  }

  /** The character classes `PadOther` surrounds with blanks. */
  predicate Padded(u: Classes, spared: seq<char>, c: char) {
    !u.alnum(c) && !u.space(c) && c !in ".'`,-" && c !in spared
  }

  /** Whether `p` matches at the start of `t`, and with what consumption and expansion. */
  function MatchStart(p: Pattern, u: Classes, t: seq<char>): (r: Option<Match>)
    requires |t| > 0
    ensures r.Some? ==> 1 <= r.value.len <= |t|
  {
    match p
    case Literal(lit, repl) => if lit <= t then Some(Match(|lit|, repl)) else None
    case DotMultiDotThen =>
      if |t| >= 10 && t[..9] == "DOTMULTI." && t[9] != '.'
      then Some(Match(10, "DOTDOTMULTI " + [t[9]])) else None
    case _ => MatchOther(p, u, t)
  }

  /** `MatchStart` for the patterns that are neither a literal nor `DotMultiDotThen`. */
  function MatchOther(p: Pattern, u: Classes, t: seq<char>): (r: Option<Match>)
    requires |t| > 0
    ensures r.Some? ==> 1 <= r.value.len <= |t|
  {
    match p
    case SpaceRun =>
      if u.space(t[0]) then Some(Match(LeadingSpaces(u, t), " ")) else None
    case AsciiControl =>
      if t[0] as int < 32 then Some(Match(1, [])) else None
    case PadOther(spared) =>
      if Padded(u, spared, t[0]) then Some(Match(1, [' ', t[0], ' '])) else None
    case PadUnlessLower(m) =>
      if t[0] == m && (|t| == 1 || !u.ll(t[1])) then Some(Match(1, [' ', m, ' '])) else None
    case HyphenBetweenAlnum =>
      if |t| >= 3 && u.alnum(t[0]) && t[1] == '-' && u.alnum(t[2])
      then Some(Match(2, [t[0]] + " @-@ ")) else None
    case DotRun =>
      if |t| >= 2 && t[0] == '.' && t[1] == '.'
      then var n := LeadingDots(t); Some(Match(n, " DOTMULTI" + t[1..n])) else None
    case CommaAfterNonNumber =>
      if |t| >= 2 && !u.number(t[0]) && t[1] == ',' then Some(Match(2, [t[0]] + " , ")) else None
    case CommaBeforeNonNumber =>
      if |t| >= 2 && t[0] == ',' && !u.number(t[1]) then Some(Match(2, ", " + [t[1]])) else None
    case CommaAtEndAfterNumber =>
      if |t| == 2 && u.number(t[0]) && t[1] == ',' then Some(Match(2, [t[0]] + " , ")) else None
    case Apostrophe(left, right, glue) =>
      if |t| >= 3 && Passes(u, left, t[0]) && t[1] == '\'' && Passes(u, right, t[2])
      then Some(Match(3, Glued(glue, t[0], t[2]))) else None
    case DotApostropheAtEnd =>
      if t == ".'" || t == ".' " then Some(Match(|t|, " . ' ")) else None
    case _ => None
  }

  /** `u32regex_search`: the pattern matches somewhere in `s`. */
  predicate Search(p: Pattern, u: Classes, s: seq<char>)
    decreases |s|
  {
    s != [] && (MatchStart(p, u, s).Some? || Search(p, u, s[1..]))
  }

  /** How many characters the scan moves past at the start of `s`: a match, or one character. */
  function Consumed(p: Pattern, u: Classes, s: seq<char>): (n: nat)
    requires s != []
    ensures 1 <= n <= |s|
  {
    match MatchStart(p, u, s)
    case Some(m) => m.len
    case None => 1
  }

  /** What the scan writes for that step: the expanded template, or the character itself. */
  function Emitted(p: Pattern, u: Classes, s: seq<char>): seq<char>
    requires s != []
  {
    match MatchStart(p, u, s)
    case Some(m) => m.repl
    case None => [s[0]]
  }

  /** `u32regex_replace` with the default flags: scan left to right, replace each
      leftmost match and resume after it, copy every character no match starts at. */
  function Replace(p: Pattern, u: Classes, s: seq<char>): (r: seq<char>)
    decreases |s|
  {
    if s == [] then [] else Emitted(p, u, s) + Replace(p, u, s[Consumed(p, u, s)..])
  }

  /** Replacing is local: when no match attempt inside `a` looks past its end,
      `a` and `b` are rewritten independently. */
  lemma {:induction false} ReplaceAppend(p: Pattern, u: Classes, a: seq<char>, b: seq<char>)
    requires forall i | 0 <= i < |a| :: MatchStart(p, u, a[i..] + b) == MatchStart(p, u, a[i..])
    ensures Replace(p, u, a + b) == Replace(p, u, a) + Replace(p, u, b)
    decreases |a|
  {
    if a == [] {
      assert a + b == b;
    } else {
      assert a[0..] == a;
      var n := Consumed(p, u, a);
      AppendParts(a, b, n);
      SameStep(p, u, a + b, a);
      BoundaryDrop(p, u, a, b, n);
      ReplaceAppend(p, u, a[n..], b);
      StepJoin(Emitted(p, u, a), Replace(p, u, a[n..]), Replace(p, u, b));
    }
  }

  lemma StepJoin(e: seq<char>, x: seq<char>, y: seq<char>)
    ensures e + (x + y) == (e + x) + y
  {
  }

  lemma AppendParts(a: seq<char>, b: seq<char>, n: nat)
    requires a != [] && n <= |a|
    ensures a + b != [] && (a + b)[0] == a[0] && (a + b)[n..] == a[n..] + b
  {
  }

  /** Two texts with the same first character and the same match at their start take the same step. */
  lemma SameStep(p: Pattern, u: Classes, s: seq<char>, t: seq<char>)
    requires s != [] && t != [] && s[0] == t[0] && MatchStart(p, u, s) == MatchStart(p, u, t)
    ensures Consumed(p, u, s) == Consumed(p, u, t) && Emitted(p, u, s) == Emitted(p, u, t)
  {
  }

  /** The hypothesis of `ReplaceAppend` holds of every suffix of `a`. */
  lemma BoundaryDrop(p: Pattern, u: Classes, a: seq<char>, b: seq<char>, n: nat)
    requires forall i | 0 <= i < |a| :: MatchStart(p, u, a[i..] + b) == MatchStart(p, u, a[i..])
    requires n <= |a|
    ensures forall i | 0 <= i < |a[n..]| :: MatchStart(p, u, a[n..][i..] + b) == MatchStart(p, u, a[n..][i..])
  {
    forall i | 0 <= i < |a| - n
      ensures MatchStart(p, u, a[n..][i..] + b) == MatchStart(p, u, a[n..][i..])
    {
      assert a[n..][i..] == a[n + i..];
    }
  }

  /** Patterns that match exactly one character and decide on that character alone. */
  predicate CharLocal(p: Pattern) {
    p.AsciiControl? || p.PadOther? || (p.Literal? && |p.lit| == 1)
  }

  /** What a character-local pattern turns one character into. */
  function CharImage(p: Pattern, u: Classes, c: char): seq<char> {
    match MatchStart(p, u, [c])
    case Some(m) => m.repl
    case None => [c]
  }

  lemma MatchStartCharLocal(p: Pattern, u: Classes, t: seq<char>)
    requires CharLocal(p) && |t| > 0
    ensures MatchStart(p, u, t) == MatchStart(p, u, [t[0]])
    ensures MatchStart(p, u, t).Some? ==> MatchStart(p, u, t).value.len == 1
  {
    if p.Literal? {
      assert p.lit <= t <==> p.lit <= [t[0]];
    }
  }

  /** A character-local pattern rewrites every character independently. */
  lemma {:induction false} ReplaceCharLocal(p: Pattern, u: Classes, s: seq<char>)
    requires CharLocal(p)
    ensures Replace(p, u, s) == FlatMap(c => CharImage(p, u, c), s)
    decreases |s|
  {
    if s != [] {
      MatchStartCharLocal(p, u, s);
      ReplaceCharLocal(p, u, s[1..]);
    }
  }

  /** A character-local rewrite of a concatenation is the concatenation of the rewrites. */
  lemma ReplaceCharLocalAppend(p: Pattern, u: Classes, a: seq<char>, b: seq<char>)
    requires CharLocal(p)
    ensures Replace(p, u, a + b) == Replace(p, u, a) + Replace(p, u, b)
  {
    forall i | 0 <= i < |a|
      ensures MatchStart(p, u, a[i..] + b) == MatchStart(p, u, a[i..])
    {
      MatchStartCharLocal(p, u, a[i..] + b);
      MatchStartCharLocal(p, u, a[i..]);
    }
    ReplaceAppend(p, u, a, b);
  }

  /** Every match at a position of `s` keeps the `keep` characters of what it consumes. */
  ghost predicate KeepsAt(p: Pattern, u: Classes, keep: char -> bool, s: seq<char>) {
    forall i | 0 <= i < |s| ::
      MatchStart(p, u, s[i..]).Some? ==>
        var m := MatchStart(p, u, s[i..]).value;
        Filter(keep, m.repl) == Filter(keep, s[i..][..m.len])
  }

  /** A rewrite whose every replacement keeps the `keep` characters of the text it
      replaces leaves the `keep` characters of the whole buffer as they were. */
  lemma {:induction false} ReplaceKeeps(p: Pattern, u: Classes, keep: char -> bool, s: seq<char>)
    requires KeepsAt(p, u, keep, s)
    ensures Filter(keep, Replace(p, u, s)) == Filter(keep, s)
    decreases |s|
  {
    if s != [] {
      var n := Consumed(p, u, s);
      var rest := s[n..];
      assert s == s[..n] + rest;
      FilterAppend(keep, s[..n], rest);
      FilterAppend(keep, Emitted(p, u, s), Replace(p, u, rest));
      EmittedKeeps(p, u, keep, s);
      KeepsDrop(p, u, keep, s, n);
      ReplaceKeeps(p, u, keep, rest);
    }
  }

  lemma EmittedKeeps(p: Pattern, u: Classes, keep: char -> bool, s: seq<char>)
    requires s != [] && KeepsAt(p, u, keep, s)
    ensures Filter(keep, Emitted(p, u, s)) == Filter(keep, s[..Consumed(p, u, s)])
  {
    assert s[0..] == s;
    if MatchStart(p, u, s).None? {
      assert s[..1] == [s[0]];
    }
  }

  lemma KeepsDrop(p: Pattern, u: Classes, keep: char -> bool, s: seq<char>, n: nat)
    requires n <= |s| && KeepsAt(p, u, keep, s)
    ensures KeepsAt(p, u, keep, s[n..])
  {
    var rest := s[n..];
    forall i | 0 <= i < |rest| && MatchStart(p, u, rest[i..]).Some?
      ensures var m := MatchStart(p, u, rest[i..]).value;
              Filter(keep, m.repl) == Filter(keep, rest[i..][..m.len])
    {
      assert rest[i..] == s[n + i..];
    }
  }

  /** A buffer in which the pattern matches nowhere is left as it is. */
  lemma {:induction false} ReplaceWithoutMatch(p: Pattern, u: Classes, s: seq<char>)
    requires !Search(p, u, s)
    ensures Replace(p, u, s) == s
    decreases |s|
  {
    if s != [] {
      ReplaceWithoutMatch(p, u, s[1..]);
    }
  }

  /** A pattern that matches at no position of `s` is not found in it. */
  lemma {:induction false} NoMatchNoSearch(p: Pattern, u: Classes, s: seq<char>)
    requires forall i | 0 <= i < |s| :: MatchStart(p, u, s[i..]).None?
    ensures !Search(p, u, s)
    decreases |s|
  {
    if s != [] {
      assert s[0..] == s;
      forall i | 0 <= i < |s[1..]|
        ensures MatchStart(p, u, s[1..][i..]).None?
      {
        assert s[1..][i..] == s[i + 1..];
      }
      NoMatchNoSearch(p, u, s[1..]);
    }
  }

  /** A prefix at none of whose positions a match starts is copied as it is. */
  lemma {:induction false} ReplaceSkip(p: Pattern, u: Classes, w: seq<char>, t: seq<char>)
    requires forall i | 0 <= i < |w| :: MatchStart(p, u, w[i..] + t).None?
    ensures Replace(p, u, w + t) == w + Replace(p, u, t)
    decreases |w|
  {
    if w == [] {
      assert w + t == t;
    } else {
      SkipParts(w, t, Replace(p, u, t));
      SkipRest(p, u, w, t);
      ReplaceSkip(p, u, w[1..], t);
    }
  }

  lemma SkipParts(w: seq<char>, t: seq<char>, r: seq<char>)
    requires w != []
    ensures w[0..] + t == w + t && (w + t)[0] == w[0] && (w + t)[1..] == w[1..] + t
    ensures [w[0]] + (w[1..] + r) == w + r
  {
  }

  /** The hypothesis of `ReplaceSkip` holds of the rest of `w`. */
  lemma SkipRest(p: Pattern, u: Classes, w: seq<char>, t: seq<char>)
    requires w != [] && forall i | 0 <= i < |w| :: MatchStart(p, u, w[i..] + t).None?
    ensures forall i | 0 <= i < |w[1..]| :: MatchStart(p, u, w[1..][i..] + t).None?
  {
    forall i | 0 <= i < |w[1..]|
      ensures MatchStart(p, u, w[1..][i..] + t).None?
    {
      assert w[1..][i..] == w[i + 1..];
    }
  }

  /** A match in `b` is still found after a prefix. */
  lemma {:induction false} SearchAfter(p: Pattern, u: Classes, a: seq<char>, b: seq<char>)
    requires Search(p, u, b)
    ensures Search(p, u, a + b)
    decreases |a|
  {
    if a != [] {
      assert (a + b)[1..] == a[1..] + b;
      SearchAfter(p, u, a[1..], b);
    } else {
      assert a + b == b;
    }
  }

  /** A match at the start is found. */
  lemma SearchHere(p: Pattern, u: Classes, s: seq<char>)
    requires s != [] && MatchStart(p, u, s).Some?
    ensures Search(p, u, s)
  {
  }

  /** Rewriting with a literal whose replacement is longer lengthens the buffer
      exactly when the literal occurs in it. */
  lemma {:induction false} GrowingLiteral(lit: Lit, repl: seq<char>, u: Classes, s: seq<char>)
    requires |repl| > |lit|
    ensures |Replace(Literal(lit, repl), u, s)| >= |s|
    ensures Search(Literal(lit, repl), u, s) <==> |Replace(Literal(lit, repl), u, s)| > |s|
    decreases |s|
  {
    if s != [] {
      var p := Literal(lit, repl);
      GrowingLiteral(lit, repl, u, s[Consumed(p, u, s)..]);
      if MatchStart(p, u, s).None? {
        assert Search(p, u, s) == Search(p, u, s[1..]);
      }
    }
  }

  /** Rewriting with a literal whose replacement is shorter shortens the buffer
      exactly when the literal occurs in it. */
  lemma {:induction false} ShrinkingLiteral(lit: Lit, repl: seq<char>, u: Classes, s: seq<char>)
    requires |repl| < |lit|
    ensures |Replace(Literal(lit, repl), u, s)| <= |s|
    ensures Search(Literal(lit, repl), u, s) <==> |Replace(Literal(lit, repl), u, s)| < |s|
    decreases |s|
  {
    if s != [] {
      var p := Literal(lit, repl);
      ShrinkingLiteral(lit, repl, u, s[Consumed(p, u, s)..]);
      if MatchStart(p, u, s).None? {
        assert Search(p, u, s) == Search(p, u, s[1..]);
      }
    }
  }

  /** Every match of `p` replaces the text it consumes by text with fewer `c`s. */
  ghost predicate Drops(p: Pattern, u: Classes, c: char) {
    forall t | t != [] && MatchStart(p, u, t).Some? ::
      Count(c, MatchStart(p, u, t).value.repl) < Count(c, t[..MatchStart(p, u, t).value.len])
  }

  /** A rewrite whose every match drops a `c` never adds one, and drops one
      whenever it matches somewhere. */
  lemma {:induction false} ReplaceDrops(p: Pattern, u: Classes, c: char, s: seq<char>)
    requires Drops(p, u, c)
    ensures Count(c, Replace(p, u, s)) <= Count(c, s)
    ensures Search(p, u, s) ==> Count(c, Replace(p, u, s)) < Count(c, s)
    decreases |s|
  {
    if s != [] {
      ReplaceDrops(p, u, c, s[Consumed(p, u, s)..]);
      DropsStep(p, u, c, s);
    }
  }

  lemma DropsStep(p: Pattern, u: Classes, c: char, s: seq<char>)
    requires Drops(p, u, c) && s != []
    requires Count(c, Replace(p, u, s[Consumed(p, u, s)..])) <= Count(c, s[Consumed(p, u, s)..])
    requires Search(p, u, s[Consumed(p, u, s)..]) ==>
             Count(c, Replace(p, u, s[Consumed(p, u, s)..])) < Count(c, s[Consumed(p, u, s)..])
    ensures Count(c, Replace(p, u, s)) <= Count(c, s)
    ensures Search(p, u, s) ==> Count(c, Replace(p, u, s)) < Count(c, s)
  {
    var n := Consumed(p, u, s);
    CountSplit(c, s, n);
    CountAppend(c, Emitted(p, u, s), Replace(p, u, s[n..]));
    if MatchStart(p, u, s).None? {
      assert s[..1] == [s[0]];
    }
  }

  /** A literal whose replacement has fewer `c`s drops a `c` at every match. */
  lemma LiteralDrops(lit: Lit, repl: seq<char>, u: Classes, c: char)
    requires Count(c, repl) < Count(c, lit)
    ensures Drops(Literal(lit, repl), u, c)
  {
    forall t | t != [] && MatchStart(Literal(lit, repl), u, t).Some?
      ensures Count(c, repl) < Count(c, t[..|lit|])
    {
      assert t[..|lit|] == lit;
    }
  }
}
