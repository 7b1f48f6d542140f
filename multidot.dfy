/**
 * `ReplaceMultidot` and `RestoreMultidot` (`tokenizer.cc`): how a run of two or
 * more dots is protected from the later stages as a marker word and turned back
 * into dots at the end.
 *
 * A run of `m + 1` dots becomes `" DOTMULTI" + m dots`; each pass of the
 * protecting loop turns one of the remaining dots into a leading "DOT", and the
 * pass that removes the last one also puts a blank between the marker and the
 * character after it.  Restoring undoes that one "DOT" per pass and finally
 * turns "DOTMULTI" back into a dot.  `Layout` describes every intermediate text:
 * the line with each run replaced by the marker of the current `Phase`.
 *
 * All of this holds for lines that do not already contain the word "DOTMULTI".
 */
module Multidot {
  import opened Wrappers
  import opened Text
  import opened CharClasses
  import opened Patterns
  import opened Regex

  const DotMultiDot: Pattern := Literal("DOTMULTI.", "DOTDOTMULTI")
  const DotDotMulti: Pattern := Literal("DOTDOTMULTI", "DOTMULTI.")
  const DotMulti: Pattern := Literal("DOTMULTI", ".")

  const ProtectBody: Op := ChainOp([ReplaceOp(DotMultiDotThen), ReplaceOp(DotMultiDot)])
  const ReplaceMultidot: Op := LoopOp(ReplaceOp(DotRun), DotMultiDot, ProtectBody, Noop)
  const RestoreMultidot: Op := LoopOp(Noop, DotDotMulti, ReplaceOp(DotDotMulti), ReplaceOp(DotMulti))

  /** The patterns that only ever match at a marker. */
  predicate MarkerPattern(p: Pattern) {
    p == DotMultiDotThen || p == DotMultiDot || p == DotDotMulti || p == DotMulti
  }

  /** The line does not contain the marker word. */
  predicate MarkerFree(s: seq<char>) {
    forall i | 0 <= i < |s| :: !("DOTMULTI" <= s[i..])
  }

  /** A run of at least two dots starts the line. */
  predicate RunAt(s: seq<char>) {
    |s| >= 2 && s[0] == '.' && s[1] == '.'
  }

  function Min(a: nat, b: nat): nat {
    if a <= b then a else b
  }

  /** The marker word with `j` leading "DOT"s and `d` trailing dots. */
  function Marker(j: nat, d: nat, blank: bool): (r: seq<char>)
    ensures r != [] && r[0] == ' '
  {
    " " + DotWords(j) + "DOTMULTI" + Dots(d) + Blank(blank)
  }

  /** `n` dots. */
  function Dots(n: nat): (r: seq<char>)
    ensures |r| == n
  {
    if n == 0 then [] else "." + Dots(n - 1)
  }

  /** `n` copies of "DOT". */
  function DotWords(n: nat): (r: seq<char>)
    ensures |r| == 3 * n
  {
    if n == 0 then [] else "DOT" + DotWords(n - 1)
  }

  function Blank(b: bool): seq<char> {
    if b then " " else ""
  }

  /** Where the two loops are. */
  datatype Phase =
    | Protecting(k: nat)   // after `k` passes of the protecting loop
    | Halfway(k: nat)      // in pass `k + 1`, after its first rewrite
    | Restoring(k: nat)    // after `k` passes of the restoring loop
    | Unmarking            // restoring loop done
    | Restored             // the final rewrite done

  /** What a run of `m + 1` dots is in phase `ph`; `followed` says whether a character comes after the run. */
  function MarkerOf(ph: Phase, m: nat, followed: bool): (r: seq<char>)
    ensures r != [] && r[0] == ' '
  {
    match ph
    case Protecting(k) =>
      var j := Min(k, m); Marker(j, m - j, j == m && followed)
    case Halfway(k) =>
      var j := Min(k, m);
      if m - j == 1 && followed then Marker(j + 1, 0, true) else Marker(j, m - j, j == m && followed)
    case Restoring(k) =>
      var i := Min(k, m); Marker(m - i, i, followed)
    case Unmarking => Marker(0, m, followed)
    case Restored => " " + Dots(m + 1) + Blank(followed)
  }

  /** The line with every run of two or more dots replaced by its marker in phase `ph`. */
  function Layout(ph: Phase, s: seq<char>): seq<char>
    decreases |s|
  {
    if s == [] then []
    else if RunAt(s) then
      var n := LeadingDots(s);
      MarkerOf(ph, n - 1, n < |s|) + Layout(ph, s[n..])
    else [s[0]] + Layout(ph, s[1..])
  }

  /** What `ReplaceMultidot` leaves: each run of `m + 1` dots as `m` "DOT"s, then
      "DOTMULTI", with a blank on either side (none after a run that ends the line). */
  function Protected(s: seq<char>): seq<char> {
    Layout(Restoring(0), s)
  }

  // ---------------------------------------------------------------------------
  // Basic facts

  lemma {:induction false} DotWordsSnoc(n: nat)
    ensures DotWords(n) + "DOT" == DotWords(n + 1)
  {
    if n > 0 {
      DotWordsSnoc(n - 1);
      assert DotWords(n) + "DOT" == "DOT" + (DotWords(n - 1) + "DOT");
    }
  }

  lemma {:induction false} LeadingDotsAre(s: seq<char>, n: nat)
    requires n <= |s| && forall k | 0 <= k < n :: s[k] == '.'
    ensures s[..n] == Dots(n)
  {
    if n > 0 {
      LeadingDotsAre(s[1..], n - 1);
      assert s[..n] == [s[0]] + s[1..][..n - 1];
    }
  }

  lemma MarkerFreeSuffix(s: seq<char>, n: nat)
    requires MarkerFree(s) && n <= |s|
    ensures MarkerFree(s[n..])
  {
    forall i | 0 <= i < |s[n..]|
      ensures !("DOTMULTI" <= s[n..][i..])
    {
      assert s[n..][i..] == s[n + i..];
    }
  }

  /** The marker patterns need a 'D' where they start. */
  lemma NoMatchWithoutD(p: Pattern, u: Classes, t: seq<char>)
    requires MarkerPattern(p) && t != [] && t[0] != 'D'
    ensures MatchStart(p, u, t).None?
  {
  }

  /** A match of a marker pattern contains the marker word at its start or three characters in. */
  lemma MatchNeedsMarker(p: Pattern, u: Classes, t: seq<char>)
    requires MarkerPattern(p) && t != [] && MatchStart(p, u, t).Some?
    ensures "DOTMULTI" <= t || "DOTDOTMULTI" <= t
  {
    if p == DotMultiDotThen {
      assert t[..8] == t[..9][..8];
    } else if p == DotMultiDot {
      assert t[..8] == t[..9][..8];
    }
  }

  /** No match of `p` starts at a character other than 'D'. */
  ghost predicate NeedsD(p: Pattern, u: Classes) {
    forall t: seq<char> | t != [] && t[0] != 'D' :: MatchStart(p, u, t).None?
  }

  /** `w` is a prefix of `w + t`, and dropping it leaves `t`. */
  lemma PrefixThenRest(w: seq<char>, t: seq<char>)
    ensures w <= w + t && (w + t)[|w|..] == t
  {
  }

  lemma SuffixHead(w: seq<char>, t: seq<char>, i: nat)
    requires i < |w|
    ensures w[i..] + t != [] && (w[i..] + t)[0] == w[i]
  {
  }

  lemma MarkerNeedsD(p: Pattern, u: Classes)
    requires MarkerPattern(p)
    ensures NeedsD(p, u)
  {
    forall t: seq<char> | t != [] && t[0] != 'D'
      ensures MatchStart(p, u, t).None?
    {
      NoMatchWithoutD(p, u, t);
    }
  }

  /** Text without a 'D' passes through a marker pattern's rewrite unchanged. */
  lemma SkipNonD(p: Pattern, u: Classes, w: seq<char>, t: seq<char>)
    requires NeedsD(p, u) && 'D' !in w
    ensures Replace(p, u, w + t) == w + Replace(p, u, t)
  {
    forall i | 0 <= i < |w|
      ensures MatchStart(p, u, w[i..] + t).None?
    {
      SuffixHead(w, t, i);
    }
    ReplaceSkip(p, u, w, t);
  }

  /** The rewrite scans past a character no match starts at. */
  lemma ReplaceNoMatchHere(p: Pattern, u: Classes, t: seq<char>)
    requires t != [] && MatchStart(p, u, t).None?
    ensures Replace(p, u, t) == [t[0]] + Replace(p, u, t[1..])
  {
  }

  /** The rewrite replaces a match at the start and goes on after it. */
  lemma ReplaceMatchHere(p: Pattern, u: Classes, t: seq<char>)
    requires t != [] && MatchStart(p, u, t).Some?
    ensures Replace(p, u, t) == MatchStart(p, u, t).value.repl + Replace(p, u, t[MatchStart(p, u, t).value.len..])
  {
  }

  /** The patterns that need the marker word itself at the start of a match. */
  predicate AtWordPattern(p: Pattern) {
    p == DotMultiDotThen || p == DotMultiDot || p == DotMulti
  }

  lemma NoMatchWithoutM(p: Pattern, u: Classes, t: seq<char>)
    requires AtWordPattern(p) && |t| > 3 && t[3] != 'M'
    ensures MatchStart(p, u, t).None?
  {
    if p == DotMultiDotThen && |t| >= 10 {
      assert t[..9][3] == t[3];
    } else if p == DotMultiDot && |t| >= 9 {
      assert t[..9][3] == t[3];
    } else if p == DotMulti && |t| >= 8 {
      assert t[..8][3] == t[3];
    }
  }

  /** A prefix with no match at its start and no 'D' after it passes through unchanged. */
  lemma SkipPrefix(p: Pattern, u: Classes, w: seq<char>, x: seq<char>)
    requires NeedsD(p, u) && w != [] && 'D' !in w[1..]
    requires MatchStart(p, u, w + x).None?
    ensures Replace(p, u, w + x) == w + Replace(p, u, x)
  {
    SkipHeads(p, u, w, x);
    ReplaceSkip(p, u, w, x);
  }

  lemma SkipHeads(p: Pattern, u: Classes, w: seq<char>, x: seq<char>)
    requires NeedsD(p, u) && w != [] && 'D' !in w[1..]
    requires MatchStart(p, u, w + x).None?
    ensures forall i | 0 <= i < |w| :: MatchStart(p, u, w[i..] + x).None?
  {
    forall i | 0 <= i < |w|
      ensures MatchStart(p, u, w[i..] + x).None?
    {
      if i == 0 {
        assert w[i..] == w;
      } else {
        assert (w[i..] + x)[0] == w[1..][i - 1];
      }
    }
  }

  /** No match of `p` starts three characters before a 'D'. */
  ghost predicate SkipsDots(p: Pattern, u: Classes) {
    forall t: seq<char> | |t| > 3 && t[3] == 'D' :: MatchStart(p, u, t).None?
  }

  lemma AtWordSkipsDots(p: Pattern, u: Classes)
    requires AtWordPattern(p)
    ensures NeedsD(p, u) && SkipsDots(p, u)
  {
    MarkerNeedsD(p, u);
    forall t: seq<char> | |t| > 3 && t[3] == 'D'
      ensures MatchStart(p, u, t).None?
    {
      NoMatchWithoutM(p, u, t);
    }
  }

  lemma {:induction false} DotWordsChar(n: nat, k: nat)
    requires k < 3 * n
    ensures DotWords(n)[k] == "DOT"[k % 3]
  {
    if k >= 3 {
      DotWordsChar(n - 1, k - 3);
    }
  }

  /** In "DOT"s followed by a 'D', the 'D's sit exactly at the multiples of three. */
  lemma DotsAt(j: nat, t: seq<char>, k: nat)
    requires t != [] && t[0] == 'D' && k <= 3 * j
    ensures (DotWords(j) + t)[k] == 'D' <==> k % 3 == 0
  {
    if k < 3 * j {
      DotWordsChar(j, k);
    }
  }

  lemma DotsHead(j: nat, m: seq<char>, i: nat)
    requires m != [] && m[0] == 'D' && i < 3 * j
    ensures (DotWords(j)[i..] + m)[0] == 'D' <==> i % 3 == 0
  {
    var w := DotWords(j);
    assert (w[i..] + m)[0] == (w + m)[i];
    DotsAt(j, m, i);
  }

  /** Inside "DOT"s followed by "DOT" or "DOTDOT", a 'D' has another 'D' `gap` characters on. */
  lemma DotsGap(j: nat, m: seq<char>, i: nat, gap: nat)
    requires m != [] && m[0] == 'D' && i < 3 * j && i % 3 == 0 && gap % 3 == 0
    requires i + gap <= 3 * j || (i + gap == 3 * j + 3 && |m| > 3 && m[3] == 'D')
    ensures |DotWords(j)[i..] + m| > gap && (DotWords(j)[i..] + m)[gap] == 'D'
  {
    var w := DotWords(j);
    assert (w[i..] + m)[gap] == (w + m)[i + gap];
    if i + gap <= 3 * j {
      DotsAt(j, m, i + gap);
    }
  }

  lemma DotsNoMatch(p: Pattern, u: Classes, j: nat, m: seq<char>, i: nat)
    requires NeedsD(p, u) && SkipsDots(p, u)
    requires m != [] && m[0] == 'D' && i < 3 * j
    ensures MatchStart(p, u, DotWords(j)[i..] + m).None?
  {
    var t := DotWords(j)[i..] + m;
    DotsHead(j, m, i);
    if i % 3 == 0 {
      DotsGap(j, m, i, 3);
      UseSkipsDots(p, u, t);
    } else {
      UseNeedsD(p, u, t);
    }
  }

  lemma UseSkipsDots(p: Pattern, u: Classes, t: seq<char>)
    requires SkipsDots(p, u) && |t| > 3 && t[3] == 'D'
    ensures MatchStart(p, u, t).None?
  {
  }

  lemma UseNeedsD(p: Pattern, u: Classes, t: seq<char>)
    requires NeedsD(p, u) && t != [] && t[0] != 'D'
    ensures MatchStart(p, u, t).None?
  {
  }

  /** The leading "DOT"s of a marker pass through the rewrites that need the marker word. */
  lemma SkipDots(p: Pattern, u: Classes, j: nat, t: seq<char>)
    requires NeedsD(p, u) && SkipsDots(p, u)
    ensures Replace(p, u, DotWords(j) + ("DOTMULTI" + t)) == DotWords(j) + Replace(p, u, "DOTMULTI" + t)
  {
    var w, m := DotWords(j), "DOTMULTI" + t;
    forall i | 0 <= i < |w|
      ensures MatchStart(p, u, w[i..] + m).None?
    {
      DotsNoMatch(p, u, j, m, i);
    }
    ReplaceSkip(p, u, w, m);
  }

  lemma NoDotDotMultiWithoutM(u: Classes, t: seq<char>)
    requires |t| > 6 && t[6] != 'M'
    ensures MatchStart(DotDotMulti, u, t).None?
  {
    if |t| >= 11 {
      assert t[..11][6] == t[6];
    }
  }

  lemma DotDotMultiAt(u: Classes, t: seq<char>)
    ensures Replace(DotDotMulti, u, "DOTDOTMULTI" + t) == "DOTMULTI." + Replace(DotDotMulti, u, t)
  {
    var w := "DOTDOTMULTI" + t;
    PrefixThenRest("DOTDOTMULTI", t);
    ReplaceMatchHere(DotDotMulti, u, w);
  }

  lemma DotsNoDotDotMulti(u: Classes, j: nat, t: seq<char>, i: nat)
    requires NeedsD(DotDotMulti, u) && i < 3 * j
    ensures MatchStart(DotDotMulti, u, DotWords(j)[i..] + ("DOTDOTMULTI" + t)).None?
  {
    var m := "DOTDOTMULTI" + t;
    DotsHead(j, m, i);
    if i % 3 == 0 {
      DotsGap(j, m, i, 6);
      NoDotDotMultiWithoutM(u, DotWords(j)[i..] + m);
    }
  }

  /** `DotDotMulti` rewrites the last two "DOT"s of a marker and nothing before them. */
  lemma SkipDotsToLast(u: Classes, j: nat, t: seq<char>)
    ensures Replace(DotDotMulti, u, DotWords(j + 1) + ("DOTMULTI" + t)) ==
            DotWords(j) + ("DOTMULTI." + Replace(DotDotMulti, u, t))
  {
    PendingWords(j, t);
    DotWordsSkipPair(u, j, t);
    ReplaceSkip(DotDotMulti, u, DotWords(j), "DOTDOTMULTI" + t);
    DotDotMultiAt(u, t);
  }

  lemma DotWordsSkipPair(u: Classes, j: nat, t: seq<char>)
    ensures forall i | 0 <= i < |DotWords(j)| :: MatchStart(DotDotMulti, u, DotWords(j)[i..] + ("DOTDOTMULTI" + t)).None?
  {
    MarkerNeedsD(DotDotMulti, u);
    forall i | 0 <= i < |DotWords(j)|
      ensures MatchStart(DotDotMulti, u, DotWords(j)[i..] + ("DOTDOTMULTI" + t)).None?
    {
      DotsNoDotDotMulti(u, j, t, i);
    }
  }

  // ---------------------------------------------------------------------------
  // The rewrites at a marker word

  lemma WordNoMatch(p: Pattern, u: Classes, t: seq<char>)
    requires p == DotDotMulti
          || ((p == DotMultiDotThen || p == DotMultiDot) && (t == [] || t[0] != '.'))
          || (p == DotMultiDotThen && (|t| == 1 || (|t| >= 2 && t[1] == '.')))
    ensures MatchStart(p, u, "DOTMULTI" + t).None?
  {
    var w := "DOTMULTI" + t;
    if p == DotDotMulti {
      NoDotDotMultiWithoutM(u, "DOTMULTI" + t);
    } else if |w| >= 9 {
      assert w[8] == t[0];
      if |w| >= 10 {
        assert w[9] == t[1];
      }
    }
  }

  /** A marker word the pattern does not rewrite is copied. */
  lemma WordStays(p: Pattern, u: Classes, t: seq<char>)
    requires NeedsD(p, u) && MatchStart(p, u, "DOTMULTI" + t).None?
    ensures Replace(p, u, "DOTMULTI" + t) == "DOTMULTI" + Replace(p, u, t)
  {
    WordTail();
    SkipPrefix(p, u, "DOTMULTI", t);
  }

  lemma WordTail()
    ensures 'D' !in "DOTMULTI"[1..]
  {
  }

  /** "DOTMULTI." before a character other than a dot: the dot becomes a "DOT" and a blank separates the character. */
  lemma WordThenSplits(u: Classes, x: char, r: seq<char>)
    requires x != '.'
    ensures Replace(DotMultiDotThen, u, "DOTMULTI" + ("." + ([x] + r))) == "DOTDOTMULTI " + [x] + Replace(DotMultiDotThen, u, r)
  {
    var w := "DOTMULTI" + ("." + ([x] + r));
    assert w[..9] == "DOTMULTI." && w[9] == x && w[10..] == r;
    ReplaceMatchHere(DotMultiDotThen, u, w);
  }

  lemma WordDotShape(t: seq<char>)
    ensures "DOTMULTI." <= "DOTMULTI" + ("." + t) && ("DOTMULTI" + ("." + t))[9..] == t
  {
  }

  lemma WordDotMoves(u: Classes, t: seq<char>)
    ensures Replace(DotMultiDot, u, "DOTMULTI" + ("." + t)) == "DOTDOTMULTI" + Replace(DotMultiDot, u, t)
  {
    var w := "DOTMULTI" + ("." + t);
    WordDotShape(t);
    ReplaceMatchHere(DotMultiDot, u, w);
  }

  lemma WordUnmarks(u: Classes, t: seq<char>)
    ensures Replace(DotMulti, u, "DOTMULTI" + t) == "." + Replace(DotMulti, u, t)
  {
    var w := "DOTMULTI" + t;
    PrefixThenRest("DOTMULTI", t);
    ReplaceMatchHere(DotMulti, u, w);
  }

  lemma {:induction false} DotsChar(d: nat, k: nat)
    requires k < d
    ensures Dots(d)[k] == '.'
  {
    if k > 0 {
      DotsChar(d - 1, k - 1);
    }
  }

  lemma DotsBlankNoD(d: nat, b: bool)
    ensures 'D' !in Dots(d) + Blank(b)
  {
    var w := Dots(d) + Blank(b);
    forall k | 0 <= k < |w|
      ensures w[k] != 'D'
    {
      if k < d {
        DotsChar(d, k);
      }
    }
  }

  /** The dots and blank after a marker word are copied. */
  lemma ScanTail(p: Pattern, u: Classes, d: nat, b: bool, r: seq<char>)
    requires NeedsD(p, u)
    ensures Replace(p, u, Dots(d) + Blank(b) + r) == Dots(d) + Blank(b) + Replace(p, u, r)
  {
    DotsBlankNoD(d, b);
    SkipNonD(p, u, Dots(d) + Blank(b), r);
  }

  // ---------------------------------------------------------------------------
  // One pass over one marker

  /** What follows the marker word in `Marker(j, d, b) + r`. */
  function After(d: nat, b: bool, r: seq<char>): seq<char> {
    Dots(d) + Blank(b) + r
  }

  lemma NoDotWords(t: seq<char>)
    ensures DotWords(0) + t == t
  {
  }

  /** The same split of a marker, grouped as `ScanMarker` leaves it. */
  lemma MarkerShapeLeft(j: nat, d: nat, b: bool, r: seq<char>)
    ensures Marker(j, d, b) + r == " " + DotWords(j) + ("DOTMULTI" + After(d, b, r))
  {
  }

  lemma MarkerShape(j: nat, d: nat, b: bool, r: seq<char>)
    ensures Marker(j, d, b) + r == " " + (DotWords(j) + ("DOTMULTI" + After(d, b, r)))
  {
  }

  /** The blank and the "DOT"s before a marker word are copied. */
  lemma ScanMarker(p: Pattern, u: Classes, j: nat, d: nat, b: bool, r: seq<char>)
    requires NeedsD(p, u) && (j == 0 || SkipsDots(p, u))
    ensures Replace(p, u, Marker(j, d, b) + r) ==
            " " + DotWords(j) + Replace(p, u, "DOTMULTI" + After(d, b, r))
  {
    var t := After(d, b, r);
    var x := DotWords(j) + ("DOTMULTI" + t);
    calc {
      Replace(p, u, Marker(j, d, b) + r);
      { MarkerShape(j, d, b, r); }
      Replace(p, u, " " + x);
      { SkipNonD(p, u, " ", x); }
      " " + Replace(p, u, x);
      { SkipDotsAny(p, u, j, t); }
      " " + (DotWords(j) + Replace(p, u, "DOTMULTI" + t));
    }
  }

  lemma SkipDotsAny(p: Pattern, u: Classes, j: nat, t: seq<char>)
    requires NeedsD(p, u) && (j == 0 || SkipsDots(p, u))
    ensures Replace(p, u, DotWords(j) + ("DOTMULTI" + t)) == DotWords(j) + Replace(p, u, "DOTMULTI" + t)
  {
    if j > 0 {
      SkipDots(p, u, j, t);
    } else {
      NoDotWords("DOTMULTI" + t);
      NoDotWords(Replace(p, u, "DOTMULTI" + t));
    }
  }

  /** A marker the pattern does not rewrite is copied. */
  lemma MarkerStays(p: Pattern, u: Classes, j: nat, d: nat, b: bool, r: seq<char>)
    requires NeedsD(p, u) && (j == 0 || SkipsDots(p, u))
    requires MatchStart(p, u, "DOTMULTI" + After(d, b, r)).None?
    ensures Replace(p, u, Marker(j, d, b) + r) == Marker(j, d, b) + Replace(p, u, r)
  {
    calc {
      Replace(p, u, Marker(j, d, b) + r);
      { ScanMarker(p, u, j, d, b, r); }
      " " + DotWords(j) + Replace(p, u, "DOTMULTI" + After(d, b, r));
      { WordStays(p, u, After(d, b, r)); }
      " " + DotWords(j) + ("DOTMULTI" + Replace(p, u, After(d, b, r)));
      { ScanTail(p, u, d, b, r); }
      " " + DotWords(j) + ("DOTMULTI" + After(d, b, Replace(p, u, r)));
      { MarkerShapeLeft(j, d, b, Replace(p, u, r)); }
      Marker(j, d, b) + Replace(p, u, r);
    }
  }

  /** What a pass needs of the text `r` after a marker: it is there exactly when
      the run was followed, it does not start with a dot, and no match starts it. */
  predicate Boundary(p: Pattern, u: Classes, followed: bool, r: seq<char>) {
    (followed <==> r != []) && (r != [] ==> r[0] != '.' && MatchStart(p, u, r).None?)
  }

  lemma GrownShape(j: nat, x: char, y: seq<char>)
    ensures " " + DotWords(j) + ("DOTDOTMULTI " + [x] + y) == Marker(j + 1, 0, true) + ([x] + y)
  {
    DotWordsSnoc(j);
    assert Dots(0) == [];
  }

  lemma AfterOne(x: char, r: seq<char>)
    ensures After(1, false, [x] + r) == "." + ([x] + r)
  {
  }

  /** A marker whose last dot, before a character `x`, the pattern turns into a
      "DOT" followed by a blank. */
  lemma MarkerGrows(p: Pattern, u: Classes, j: nat, x: char, r: seq<char>)
    requires NeedsD(p, u) && SkipsDots(p, u)
    requires Replace(p, u, "DOTMULTI" + ("." + ([x] + r))) == "DOTDOTMULTI " + [x] + Replace(p, u, r)
    ensures Replace(p, u, Marker(j, 1, false) + ([x] + r)) == Marker(j + 1, 0, true) + ([x] + Replace(p, u, r))
  {
    AfterOne(x, r);
    calc {
      Replace(p, u, Marker(j, 1, false) + ([x] + r));
      { ScanMarker(p, u, j, 1, false, [x] + r); }
      " " + DotWords(j) + Replace(p, u, "DOTMULTI" + ("." + ([x] + r)));
      " " + DotWords(j) + ("DOTDOTMULTI " + [x] + Replace(p, u, r));
      { GrownShape(j, x, Replace(p, u, r)); }
      Marker(j + 1, 0, true) + ([x] + Replace(p, u, r));
    }
  }

  /** "DOTMULTI" + one dot before a character: the dot becomes a "DOT" and a blank
      separates the marker from the character. */
  lemma MarkerSplits(u: Classes, j: nat, r: seq<char>)
    requires Boundary(DotMultiDotThen, u, true, r)
    ensures Replace(DotMultiDotThen, u, Marker(j, 1, false) + r) == Marker(j + 1, 0, true) + Replace(DotMultiDotThen, u, r)
  {
    AtWordSkipsDots(DotMultiDotThen, u);
    WordThenSplits(u, r[0], r[1..]);
    MarkerGrows(DotMultiDotThen, u, j, r[0], r[1..]);
    assert [r[0]] + r[1..] == r;
    ReplaceNoMatchHere(DotMultiDotThen, u, r);
  }

  lemma AfterDots(d: nat, b: bool, r: seq<char>, k: nat)
    requires k < d
    ensures |After(d, b, r)| > k && After(d, b, r)[k] == '.'
  {
    DotsChar(d, k);
  }

  /** The first rewrite of a protecting pass leaves every marker as `Halfway` describes it. */
  lemma ProtectFirst(u: Classes, k: nat, m: nat, f: bool, r: seq<char>)
    requires Boundary(DotMultiDotThen, u, f, r)
    ensures Replace(DotMultiDotThen, u, MarkerOf(Protecting(k), m, f) + r) ==
            MarkerOf(Halfway(k), m, f) + Replace(DotMultiDotThen, u, r)
  {
    if m - Min(k, m) == 1 && f {
      SplitMarkers(k, m, f);
      MarkerSplits(u, k, r);
    } else {
      var j, d, b := FirstParts(k, m, f, r);
      FirstStays(u, j, d, b, r);
    }
  }

  lemma FirstStays(u: Classes, j: nat, d: nat, b: bool, r: seq<char>)
    requires d == 1 ==> !b && r == []
    requires d == 0 && !b ==> r == [] || r[0] != '.'
    ensures Replace(DotMultiDotThen, u, Marker(j, d, b) + r) == Marker(j, d, b) + Replace(DotMultiDotThen, u, r)
  {
    MarkerNeedsD(DotMultiDotThen, u);
    AtWordSkipsDots(DotMultiDotThen, u);
    ThenNoMatch(u, d, b, r);
    MarkerStays(DotMultiDotThen, u, j, d, b, r);
  }

  /** The run whose last dot the first rewrite of a pass reaches. */
  lemma SplitMarkers(k: nat, m: nat, f: bool)
    requires m - Min(k, m) == 1 && f
    ensures MarkerOf(Protecting(k), m, f) == Marker(k, 1, false)
    ensures MarkerOf(Halfway(k), m, f) == Marker(k + 1, 0, true)
  {
    assert Min(k, m) == k && m == k + 1;
  }

  /** Every other run is the same in both phases, and what follows its marker is no match for the first rewrite. */
  lemma FirstParts(k: nat, m: nat, f: bool, r: seq<char>) returns (j: nat, d: nat, b: bool)
    requires (f <==> r != []) && (r != [] ==> r[0] != '.')
    requires !(m - Min(k, m) == 1 && f)
    ensures MarkerOf(Protecting(k), m, f) == Marker(j, d, b)
    ensures MarkerOf(Halfway(k), m, f) == Marker(j, d, b)
    ensures d == 1 ==> !b && r == []
    ensures d == 0 && !b ==> r == [] || r[0] != '.'
  {
    j := Min(k, m);
    d, b := m - j, j == m && f;
  }

  /** After a marker word the first rewrite does not match, except before a single last dot and a character. */
  lemma ThenNoMatch(u: Classes, d: nat, b: bool, r: seq<char>)
    requires d == 1 ==> !b && r == []
    requires d == 0 && !b ==> r == [] || r[0] != '.'
    ensures MatchStart(DotMultiDotThen, u, "DOTMULTI" + After(d, b, r)).None?
  {
    var t := After(d, b, r);
    if d >= 2 {
      AfterDots(d, b, r, 0);
      AfterDots(d, b, r, 1);
    } else if d == 1 {
      assert t == "." + r;
    } else {
      assert t == Blank(b) + r;
    }
    WordNoMatch(DotMultiDotThen, u, t);
  }

  lemma ShiftedShape(j: nat, i: nat, y: seq<char>)
    ensures " " + DotWords(j) + ("DOTDOTMULTI" + After(i, false, y)) == Marker(j + 1, i, false) + y
  {
    DotWordsSnoc(j);
  }

  /** A marker whose first trailing dot the second protecting rewrite turns into a leading "DOT". */
  lemma MarkerShifts(u: Classes, j: nat, i: nat, r: seq<char>)
    ensures Replace(DotMultiDot, u, Marker(j, i + 1, false) + r) == Marker(j + 1, i, false) + Replace(DotMultiDot, u, r)
  {
    MarkerNeedsD(DotMultiDot, u);
    ShiftHead(u, j, i, r);
    WordDotMoves(u, After(i, false, r));
    ScanTail(DotMultiDot, u, i, false, r);
    ShiftJoin(j, i, Replace(DotMultiDot, u, After(i, false, r)), Replace(DotMultiDot, u, r));
  }

  lemma ShiftHead(u: Classes, j: nat, i: nat, r: seq<char>)
    ensures Replace(DotMultiDot, u, Marker(j, i + 1, false) + r) ==
            " " + DotWords(j) + Replace(DotMultiDot, u, "DOTMULTI" + ("." + After(i, false, r)))
  {
    MarkerNeedsD(DotMultiDot, u);
    AtWordSkipsDots(DotMultiDot, u);
    ScanMarker(DotMultiDot, u, j, i + 1, false, r);
    AfterDot(i, r);
  }

  lemma AfterDot(i: nat, r: seq<char>)
    ensures After(i + 1, false, r) == "." + After(i, false, r)
  {
  }

  lemma ShiftJoin(j: nat, i: nat, x: seq<char>, y: seq<char>)
    requires x == Dots(i) + Blank(false) + y
    ensures " " + DotWords(j) + ("DOTDOTMULTI" + x) == Marker(j + 1, i, false) + y
  {
    ShiftedShape(j, i, y);
  }

  lemma DotMultiDotStays(u: Classes, j: nat, d: nat, b: bool, r: seq<char>)
    requires d == 0 && (b || r == [] || r[0] != '.')
    ensures Replace(DotMultiDot, u, Marker(j, d, b) + r) == Marker(j, d, b) + Replace(DotMultiDot, u, r)
  {
    AtWordSkipsDots(DotMultiDot, u);
    assert After(0, b, r) == Blank(b) + r;
    WordNoMatch(DotMultiDot, u, After(0, b, r));
    MarkerStays(DotMultiDot, u, j, 0, b, r);
  }

  lemma ProtectSecondLast(u: Classes, k: nat, m: nat, f: bool, r: seq<char>)
    requires m - Min(k, m) == 1 && f && Boundary(DotMultiDot, u, f, r)
    ensures Replace(DotMultiDot, u, MarkerOf(Halfway(k), m, f) + r) ==
            MarkerOf(Protecting(k + 1), m, f) + Replace(DotMultiDot, u, r)
  {
    assert MarkerOf(Halfway(k), m, f) == Marker(m, 0, true) == MarkerOf(Protecting(k + 1), m, f);
    DotMultiDotStays(u, m, 0, true, r);
  }

  lemma ProtectSecondMoves(u: Classes, k: nat, m: nat, f: bool, r: seq<char>)
    requires m - Min(k, m) >= 1 && !(m - Min(k, m) == 1 && f)
    ensures Replace(DotMultiDot, u, MarkerOf(Halfway(k), m, f) + r) ==
            MarkerOf(Protecting(k + 1), m, f) + Replace(DotMultiDot, u, r)
  {
    MovesMarkers(k, m, f);
    MovedMarker(k, m, f);
    MarkerShifts(u, k, m - k - 1, r);
  }

  lemma MovesMarkers(k: nat, m: nat, f: bool)
    requires m - Min(k, m) >= 1 && !(m - Min(k, m) == 1 && f)
    ensures k < m
    ensures MarkerOf(Halfway(k), m, f) == Marker(k, m - k - 1 + 1, false)
  {
    assert Min(k, m) == k;
    assert m - k - 1 + 1 == m - k;
  }

  lemma MovedMarker(k: nat, m: nat, f: bool)
    requires k < m && !(m - k == 1 && f)
    ensures MarkerOf(Protecting(k + 1), m, f) == Marker(k + 1, m - k - 1, false)
  {
    assert Min(k + 1, m) == k + 1;
  }

  lemma ProtectSecondDone(u: Classes, k: nat, m: nat, f: bool, r: seq<char>)
    requires Min(k, m) == m && Boundary(DotMultiDot, u, f, r)
    ensures Replace(DotMultiDot, u, MarkerOf(Halfway(k), m, f) + r) ==
            MarkerOf(Protecting(k + 1), m, f) + Replace(DotMultiDot, u, r)
  {
    assert MarkerOf(Halfway(k), m, f) == Marker(m, 0, f) == MarkerOf(Protecting(k + 1), m, f);
    DotMultiDotStays(u, m, 0, f, r);
  }

  /** The second rewrite of a protecting pass completes it. */
  lemma ProtectSecond(u: Classes, k: nat, m: nat, f: bool, r: seq<char>)
    requires Boundary(DotMultiDot, u, f, r)
    ensures Replace(DotMultiDot, u, MarkerOf(Halfway(k), m, f) + r) ==
            MarkerOf(Protecting(k + 1), m, f) + Replace(DotMultiDot, u, r)
  {
    var d := m - Min(k, m);
    if d == 1 && f {
      ProtectSecondLast(u, k, m, f, r);
    } else if d >= 1 {
      ProtectSecondMoves(u, k, m, f, r);
    } else {
      ProtectSecondDone(u, k, m, f, r);
    }
  }

  lemma ShrunkShape(j: nat, i: nat, f: bool, y: seq<char>)
    ensures " " + (DotWords(j) + ("DOTMULTI." + After(i, f, y))) == Marker(j, i + 1, f) + y
  {
    assert "." + Dots(i) == Dots(i + 1);
  }

  /** A marker whose last "DOT" the restoring rewrite turns back into a trailing dot. */
  lemma MarkerShrinks(u: Classes, j: nat, i: nat, f: bool, r: seq<char>)
    ensures Replace(DotDotMulti, u, Marker(j + 1, i, f) + r) == Marker(j, i + 1, f) + Replace(DotDotMulti, u, r)
  {
    var p := DotDotMulti;
    var x := DotWords(j + 1) + ("DOTMULTI" + After(i, f, r));
    MarkerNeedsD(p, u);
    calc {
      Replace(p, u, Marker(j + 1, i, f) + r);
      { MarkerShape(j + 1, i, f, r); }
      Replace(p, u, " " + x);
      { SkipNonD(p, u, " ", x); }
      " " + Replace(p, u, x);
      { SkipDotsToLast(u, j, After(i, f, r)); }
      " " + (DotWords(j) + ("DOTMULTI." + Replace(p, u, After(i, f, r))));
      { ScanTail(p, u, i, f, r); }
      " " + (DotWords(j) + ("DOTMULTI." + After(i, f, Replace(p, u, r))));
      { ShrunkShape(j, i, f, Replace(p, u, r)); }
      Marker(j, i + 1, f) + Replace(p, u, r);
    }
  }

  lemma RestoringMarker(i: nat, j: nat, f: bool)
    ensures MarkerOf(Restoring(i), i + j + 1, f) == Marker(j + 1, i, f)
  {
    assert Min(i, i + j + 1) == i;
    assert i + j + 1 - i == j + 1;
  }

  lemma RestoredMarker(i: nat, j: nat, f: bool)
    ensures MarkerOf(Restoring(i + 1), i + j + 1, f) == Marker(j, i + 1, f)
  {
    assert Min(i + 1, i + j + 1) == i + 1;
    assert i + j + 1 - (i + 1) == j;
  }

  lemma KeepMarkers(k: nat, m: nat, f: bool)
    requires k >= m
    ensures MarkerOf(Restoring(k), m, f) == Marker(0, m, f) == MarkerOf(Restoring(k + 1), m, f)
  {
  }

  /** A pass of the restoring loop moves one more "DOT" of every marker back into a dot. */
  lemma RestorePass(u: Classes, k: nat, m: nat, f: bool, r: seq<char>)
    requires Boundary(DotDotMulti, u, f, r)
    ensures Replace(DotDotMulti, u, MarkerOf(Restoring(k), m, f) + r) ==
            MarkerOf(Restoring(k + 1), m, f) + Replace(DotDotMulti, u, r)
  {
    if k < m {
      var j := ShrinkParts(k, m, f);
      MarkerShrinks(u, j, k, f, r);
    } else {
      RestoreStays(u, k, m, f, r);
    }
  }

  /** A run the restoring pass still shortens, as a marker before and after the pass. */
  lemma ShrinkParts(k: nat, m: nat, f: bool) returns (j: nat)
    requires k < m
    ensures MarkerOf(Restoring(k), m, f) == Marker(j + 1, k, f)
    ensures MarkerOf(Restoring(k + 1), m, f) == Marker(j, k + 1, f)
  {
    j := m - k - 1;
    RestoringMarker(k, j, f);
    RestoredMarker(k, j, f);
  }

  lemma RestoreStays(u: Classes, k: nat, m: nat, f: bool, r: seq<char>)
    requires k >= m && Boundary(DotDotMulti, u, f, r)
    ensures Replace(DotDotMulti, u, MarkerOf(Restoring(k), m, f) + r) ==
            MarkerOf(Restoring(k + 1), m, f) + Replace(DotDotMulti, u, r)
  {
    KeepMarkers(k, m, f);
    MarkerNeedsD(DotDotMulti, u);
    WordNoMatch(DotDotMulti, u, After(m, f, r));
    MarkerStays(DotDotMulti, u, 0, m, f, r);
  }

  lemma UnmarkedShape(m: nat, f: bool, y: seq<char>)
    ensures " " + DotWords(0) + ("." + After(m, f, y)) == MarkerOf(Restored, m, f) + y
  {
    assert "." + Dots(m) == Dots(m + 1);
  }

  /** The final rewrite turns each marker word back into a dot. */
  lemma UnmarkPass(u: Classes, m: nat, f: bool, r: seq<char>)
    ensures Replace(DotMulti, u, MarkerOf(Unmarking, m, f) + r) == MarkerOf(Restored, m, f) + Replace(DotMulti, u, r)
  {
    var p := DotMulti;
    MarkerNeedsD(p, u);
    UnmarkingMarker(m, f);
    ScanMarker(p, u, 0, m, f, r);
    WordUnmarks(u, After(m, f, r));
    ScanTail(p, u, m, f, r);
    UnmarkedShape(m, f, Replace(p, u, r));
  }

  lemma UnmarkingMarker(m: nat, f: bool)
    ensures MarkerOf(Unmarking, m, f) == Marker(0, m, f)
  {
  }

  // ---------------------------------------------------------------------------
  // One pass over a whole line

  /** A blank-free word at the start of a layout is at the start of the line. */
  lemma {:induction false} LayoutPrefix(ph: Phase, s: seq<char>, w: seq<char>)
    requires ' ' !in w
    ensures w <= Layout(ph, s) ==> w <= s
    decreases |s|
  {
    if w != [] && s != [] {
      if RunAt(s) {
        LayoutRunHead(ph, s);
        assert w[0] in w;
      } else {
        LayoutChar(ph, s);
        assert ' ' !in w[1..] by {
          assert forall c | c in w[1..] :: c in w;
        }
        LayoutPrefix(ph, s[1..], w[1..]);
        PrefixStep(w, s, Layout(ph, s[1..]));
      }
    }
  }

  lemma LayoutRunHead(ph: Phase, s: seq<char>)
    requires RunAt(s)
    ensures Layout(ph, s) != [] && Layout(ph, s)[0] == ' '
  {
    LayoutRun(ph, s);
  }

  lemma LayoutChar(ph: Phase, s: seq<char>)
    requires s != [] && !RunAt(s)
    ensures Layout(ph, s) == [s[0]] + Layout(ph, s[1..])
  {
  }

  /** A prefix of `[s[0]] + a` whose tail is also a prefix of `s[1..]` is a prefix of `s`. */
  lemma PrefixStep(w: seq<char>, s: seq<char>, a: seq<char>)
    requires w != [] && s != []
    ensures w <= [s[0]] + a ==> w[1..] <= a
    ensures w <= [s[0]] + a && w[1..] <= s[1..] ==> w <= s
  {
    if w <= [s[0]] + a && w[1..] <= s[1..] {
      assert w == [s[0]] + w[1..];
    }
  }

  /** No marker pattern matches where a layout of a marker-free line starts. */
  lemma LayoutNoMatch(p: Pattern, u: Classes, ph: Phase, s: seq<char>)
    requires MarkerPattern(p) && MarkerFree(s) && s != []
    ensures Layout(ph, s) != [] && MatchStart(p, u, Layout(ph, s)).None?
  {
    assert s[0..] == s;
    LayoutPrefix(ph, s, "DOTMULTI");
    LayoutPrefix(ph, s, "DOTDOTMULTI");
    DoubleWord(s);
    NoWordNoMatch(p, u, Layout(ph, s));
  }

  lemma DoubleWord(s: seq<char>)
    ensures "DOTDOTMULTI" <= s ==> |s| > 3 && "DOTMULTI" <= s[3..]
  {
    if "DOTDOTMULTI" <= s {
      assert s[3..][..8] == s[..11][3..];
    }
  }

  lemma NoWordNoMatch(p: Pattern, u: Classes, t: seq<char>)
    requires MarkerPattern(p) && t != [] && !("DOTMULTI" <= t) && !("DOTDOTMULTI" <= t)
    ensures MatchStart(p, u, t).None?
  {
    if p == DotMultiDotThen && |t| >= 10 {
      assert t[..8] == t[..9][..8];
    } else if p == DotMultiDot && |t| >= 9 {
      assert t[..8] == t[..9][..8];
    }
  }

  /** The rewrite `p` takes the loops from phase `ph` to phase `next`. */
  predicate Step(p: Pattern, ph: Phase, next: Phase) {
    || (p == DotMultiDotThen && ph.Protecting? && next == Halfway(ph.k))
    || (p == DotMultiDot && ph.Halfway? && next == Protecting(ph.k + 1))
    || (p == DotDotMulti && ph.Restoring? && next == Restoring(ph.k + 1))
    || (p == DotMulti && ph == Unmarking && next == Restored)
  }

  lemma MarkerPass(p: Pattern, u: Classes, ph: Phase, next: Phase, m: nat, f: bool, r: seq<char>)
    requires Step(p, ph, next) && Boundary(p, u, f, r)
    ensures Replace(p, u, MarkerOf(ph, m, f) + r) == MarkerOf(next, m, f) + Replace(p, u, r)
  {
    if ph.Protecting? {
      var k := ph.k;
      assert p == DotMultiDotThen && ph == Protecting(k) && next == Halfway(k);
      ProtectFirst(u, k, m, f, r);
      assert MarkerOf(ph, m, f) == MarkerOf(Protecting(k), m, f);
      assert MarkerOf(next, m, f) == MarkerOf(Halfway(k), m, f);
    } else if ph.Halfway? {
      var k := ph.k;
      assert p == DotMultiDot && ph == Halfway(k) && next == Protecting(k + 1);
      ProtectSecond(u, k, m, f, r);
      assert MarkerOf(ph, m, f) == MarkerOf(Halfway(k), m, f);
      assert MarkerOf(next, m, f) == MarkerOf(Protecting(k + 1), m, f);
    } else if ph.Restoring? {
      var k := ph.k;
      assert p == DotDotMulti && ph == Restoring(k) && next == Restoring(k + 1);
      RestorePass(u, k, m, f, r);
      assert MarkerOf(ph, m, f) == MarkerOf(Restoring(k), m, f);
      assert MarkerOf(next, m, f) == MarkerOf(Restoring(k + 1), m, f);
    } else {
      assert p == DotMulti && ph == Unmarking && next == Restored;
      UnmarkPass(u, m, f, r);
    }
  }

  /** What follows a run in a marker-free line meets `Boundary`. */
  lemma LayoutRun(ph: Phase, s: seq<char>)
    requires RunAt(s)
    ensures Layout(ph, s) == MarkerOf(ph, LeadingDots(s) - 1, LeadingDots(s) < |s|) + Layout(ph, s[LeadingDots(s)..])
  {
    assert s != [];
  }

  lemma AfterRun(p: Pattern, u: Classes, ph: Phase, s: seq<char>)
    requires MarkerPattern(p) && MarkerFree(s) && RunAt(s)
    ensures MarkerFree(s[LeadingDots(s)..])
    ensures Boundary(p, u, LeadingDots(s) < |s|, Layout(ph, s[LeadingDots(s)..]))
  {
    var n := LeadingDots(s);
    var rest := s[n..];
    MarkerFreeSuffix(s, n);
    if rest != [] {
      assert rest[0] == s[n] != '.';
      assert Layout(ph, rest) == [rest[0]] + Layout(ph, rest[1..]);
      LayoutNoMatch(p, u, ph, rest);
    }
  }

  /** The first run of a line, taken apart: the marker in both phases, and what follows it. */
  lemma RunSplit(p: Pattern, u: Classes, ph: Phase, next: Phase, s: seq<char>) returns (m: nat, f: bool, rest: seq<char>)
    requires Step(p, ph, next) && MarkerFree(s) && RunAt(s)
    ensures |rest| < |s| && MarkerFree(rest)
    ensures Layout(ph, s) == MarkerOf(ph, m, f) + Layout(ph, rest)
    ensures Layout(next, s) == MarkerOf(next, m, f) + Layout(next, rest)
    ensures Boundary(p, u, f, Layout(ph, rest))
  {
    m, f, rest := LeadingDots(s) - 1, LeadingDots(s) < |s|, s[LeadingDots(s)..];
    LayoutRun(ph, s);
    LayoutRun(next, s);
    AfterRun(p, u, ph, s);
  }

  lemma JoinMarker(p: Pattern, u: Classes, ph: Phase, next: Phase, m: nat, f: bool,
                   r: seq<char>, r': seq<char>, w: seq<char>, w': seq<char>)
    requires Step(p, ph, next) && Boundary(p, u, f, r) && Replace(p, u, r) == r'
    requires w == MarkerOf(ph, m, f) + r && w' == MarkerOf(next, m, f) + r'
    ensures Replace(p, u, w) == w'
  {
    MarkerPass(p, u, ph, next, m, f, r);
  }

  lemma CharStep(p: Pattern, u: Classes, ph: Phase, next: Phase, s: seq<char>)
    requires Step(p, ph, next) && MarkerFree(s) && s != [] && !RunAt(s)
    requires Replace(p, u, Layout(ph, s[1..])) == Layout(next, s[1..])
    ensures Replace(p, u, Layout(ph, s)) == Layout(next, s)
  {
    LayoutNoMatch(p, u, ph, s);
    ReplaceNoMatchHere(p, u, Layout(ph, s));
  }

  /** A pass of rewrite `p` over the layout of a marker-free line gives the layout of the next phase. */
  lemma {:induction false} LayoutPass(p: Pattern, u: Classes, ph: Phase, next: Phase, s: seq<char>)
    requires Step(p, ph, next) && MarkerFree(s)
    ensures Replace(p, u, Layout(ph, s)) == Layout(next, s)
    decreases |s|
  {
    if s == [] {
    } else if RunAt(s) {
      var m, f, rest := RunSplit(p, u, ph, next, s);
      LayoutPass(p, u, ph, next, rest);
      JoinMarker(p, u, ph, next, m, f, Layout(ph, rest), Layout(next, rest), Layout(ph, s), Layout(next, s));
    } else {
      MarkerFreeSuffix(s, 1);
      LayoutPass(p, u, ph, next, s[1..]);
      CharStep(p, u, ph, next, s);
    }
  }

  // ---------------------------------------------------------------------------
  // The first rewrite of `ReplaceMultidot`

  lemma FreshMarker(s: seq<char>, n: nat)
    requires RunAt(s) && n == LeadingDots(s)
    ensures MarkerOf(Protecting(0), n - 1, n < |s|) == " DOTMULTI" + s[1..n]
  {
    FreshMarkerOf(n - 1, n < |s|);
    RunDots(s);
  }

  lemma RunDots(s: seq<char>)
    requires RunAt(s)
    ensures s[1..LeadingDots(s)] == Dots(LeadingDots(s) - 1)
  {
    var n := LeadingDots(s);
    LeadingDotsAre(s[1..], n - 1);
    assert s[1..][..n - 1] == s[1..n];
  }

  lemma FreshMarkerOf(m: nat, f: bool)
    requires m >= 1
    ensures MarkerOf(Protecting(0), m, f) == " DOTMULTI" + Dots(m)
  {
    assert MarkerOf(Protecting(0), m, f) == Marker(0, m, false);
    PlainMarker(m);
  }

  lemma PlainMarker(d: nat)
    ensures Marker(0, d, false) == " DOTMULTI" + Dots(d)
  {
    assert DotWords(0) == [] && Blank(false) == [];
    assert " " + DotWords(0) + "DOTMULTI" == " DOTMULTI";
  }

  /** `DotRun` turns every run of `m + 1` dots into " DOTMULTI" and `m` dots. */
  lemma {:induction false} DotRunPass(u: Classes, s: seq<char>)
    ensures Replace(DotRun, u, s) == Layout(Protecting(0), s)
    decreases |s|
  {
    if s != [] {
      if RunAt(s) {
        FreshMarker(s, LeadingDots(s));
        ReplaceMatchHere(DotRun, u, s);
        DotRunPass(u, s[LeadingDots(s)..]);
      } else {
        ReplaceNoMatchHere(DotRun, u, s);
        DotRunPass(u, s[1..]);
      }
    }
  }

  // ---------------------------------------------------------------------------
  // When the loops stop

  /** The two phases agree on every run shorter than `n + 1` dots. */
  ghost predicate SameMarkers(ph: Phase, other: Phase, n: nat) {
    forall m: nat, f: bool | m < n :: MarkerOf(ph, m, f) == MarkerOf(other, m, f)
  }

  lemma {:induction false} LayoutSame(ph: Phase, other: Phase, s: seq<char>)
    requires SameMarkers(ph, other, |s|)
    ensures Layout(ph, s) == Layout(other, s)
    decreases |s|
  {
    if s != [] {
      if RunAt(s) {
        var n := LeadingDots(s);
        assert MarkerOf(ph, n - 1, n < |s|) == MarkerOf(other, n - 1, n < |s|);
        LayoutSame(ph, other, s[n..]);
      } else {
        LayoutSame(ph, other, s[1..]);
      }
    }
  }

  /** After as many protecting passes as the longest run has dots, every marker is complete. */
  lemma ProtectSettled(k: nat, n: nat)
    requires k >= n
    ensures SameMarkers(Protecting(k), Restoring(0), n)
    ensures SameMarkers(Halfway(k), Restoring(0), n)
  {
    forall m: nat, f: bool | m < n
      ensures MarkerOf(Protecting(k), m, f) == MarkerOf(Restoring(0), m, f)
      ensures MarkerOf(Halfway(k), m, f) == MarkerOf(Restoring(0), m, f)
    {
      FinishedMarker(k, m, f);
      HalfwayFinished(k, m, f);
      UnstartedMarker(m, f);
    }
  }

  lemma FinishedMarker(k: nat, m: nat, f: bool)
    requires m <= k
    ensures MarkerOf(Protecting(k), m, f) == Marker(m, 0, f)
  {
    assert Min(k, m) == m;
  }

  lemma HalfwayFinished(k: nat, m: nat, f: bool)
    requires m <= k
    ensures MarkerOf(Halfway(k), m, f) == Marker(m, 0, f)
  {
    assert Min(k, m) == m;
  }

  lemma UnstartedMarker(m: nat, f: bool)
    ensures MarkerOf(Restoring(0), m, f) == Marker(m, 0, f)
  {
    assert Min(0, m) == 0;
  }

  lemma RestoreSettled(k: nat, n: nat)
    requires k >= n
    ensures SameMarkers(Restoring(k), Unmarking, n)
  {
    forall m: nat, f: bool | m < n
      ensures MarkerOf(Restoring(k), m, f) == MarkerOf(Unmarking, m, f)
    {
      KeepMarkers(k, m, f);
      UnmarkingMarker(m, f);
    }
  }

  /** The protecting loop's condition fails on the protected line. */
  lemma ProtectedNoSearch(u: Classes, s: seq<char>)
    requires MarkerFree(s)
    ensures !Search(DotMultiDot, u, Protected(s))
  {
    var n := |s|;
    ProtectSettled(n, n);
    ProtectSettled(n + 1, n);
    LayoutSame(Halfway(n), Restoring(0), s);
    LayoutSame(Protecting(n + 1), Restoring(0), s);
    LayoutPass(DotMultiDot, u, Halfway(n), Protecting(n + 1), s);
    GrowingLiteral("DOTMULTI.", "DOTDOTMULTI", u, Protected(s));
  }

  /** The restoring loop's condition fails once every marker is bare. */
  lemma UnmarkingNoSearch(u: Classes, s: seq<char>)
    requires MarkerFree(s)
    ensures !Search(DotDotMulti, u, Layout(Unmarking, s))
  {
    var n := |s|;
    RestoreSettled(n, n);
    RestoreSettled(n + 1, n);
    LayoutSame(Restoring(n), Unmarking, s);
    LayoutSame(Restoring(n + 1), Unmarking, s);
    LayoutPass(DotDotMulti, u, Restoring(n), Restoring(n + 1), s);
    ShrinkingLiteral("DOTDOTMULTI", "DOTMULTI.", u, Layout(Unmarking, s));
  }

  lemma SearchInMarker(p: Pattern, u: Classes, j: nat, w: seq<char>)
    requires w != [] && MatchStart(p, u, w).Some?
    ensures Search(p, u, " " + (DotWords(j) + w))
  {
    SearchHere(p, u, w);
    SearchAfter(p, u, " " + DotWords(j), w);
    SpaceWordsAssoc(j, w);
  }

  lemma SpaceWordsAssoc(j: nat, w: seq<char>)
    ensures " " + DotWords(j) + w == " " + (DotWords(j) + w)
  {
  }

  lemma ProtectPendingShape(k: nat, m: nat, f: bool, r: seq<char>)
    requires k < m
    ensures MarkerOf(Protecting(k), m, f) + r == " " + (DotWords(k) + ("DOTMULTI." + After(m - k - 1, false, r)))
  {
    assert MarkerOf(Protecting(k), m, f) == Marker(k, m - k, false);
    MarkerShape(k, m - k, false, r);
    assert After(m - k, false, r) == "." + After(m - k - 1, false, r);
  }

  lemma RestorePendingShape(j: nat, i: nat, f: bool, r: seq<char>)
    ensures Marker(j + 1, i, f) + r == " " + (DotWords(j) + ("DOTDOTMULTI" + After(i, f, r)))
  {
    MarkerShape(j + 1, i, f, r);
    PendingWords(j, After(i, f, r));
  }

  lemma PendingWords(j: nat, t: seq<char>)
    ensures DotWords(j + 1) + ("DOTMULTI" + t) == DotWords(j) + ("DOTDOTMULTI" + t)
  {
    DotWordsSnoc(j);
    assert "DOT" + "DOTMULTI" == "DOTDOTMULTI";
    assert (DotWords(j) + "DOT") + ("DOTMULTI" + t) == DotWords(j) + (("DOT" + "DOTMULTI") + t);
  }

  /** An incomplete marker still has a dot the protecting loop's condition finds. */
  lemma ProtectMarkerPending(u: Classes, k: nat, m: nat, f: bool, r: seq<char>)
    requires k < m
    ensures Search(DotMultiDot, u, MarkerOf(Protecting(k), m, f) + r)
  {
    var w := "DOTMULTI." + After(m - k - 1, false, r);
    ProtectPendingShape(k, m, f, r);
    assert "DOTMULTI." <= w;
    SearchInMarker(DotMultiDot, u, k, w);
  }

  /** A marker with a "DOT" left has the pair the restoring loop's condition finds. */
  lemma RestoreMarkerPending(u: Classes, k: nat, m: nat, f: bool, r: seq<char>)
    requires k < m
    ensures Search(DotDotMulti, u, MarkerOf(Restoring(k), m, f) + r)
  {
    var j := ShrinkParts(k, m, f);
    var w := "DOTDOTMULTI" + After(k, f, r);
    RestorePendingShape(j, k, f, r);
    assert "DOTDOTMULTI" <= w;
    SearchInMarker(DotDotMulti, u, j, w);
  }

  /** The first run of a line in two phases, and the marker-free rest of the line. */
  lemma SplitRun(ph: Phase, other: Phase, s: seq<char>) returns (m: nat, f: bool, rest: seq<char>)
    requires MarkerFree(s) && RunAt(s)
    ensures |rest| < |s| && MarkerFree(rest)
    ensures Layout(ph, s) == MarkerOf(ph, m, f) + Layout(ph, rest)
    ensures Layout(other, s) == MarkerOf(other, m, f) + Layout(other, rest)
  {
    m, f, rest := LeadingDots(s) - 1, LeadingDots(s) < |s|, s[LeadingDots(s)..];
    LayoutRun(ph, s);
    LayoutRun(other, s);
    MarkerFreeSuffix(s, LeadingDots(s));
  }

  /** The first character of a line that does not start a run, in two phases. */
  lemma SplitChar(ph: Phase, other: Phase, s: seq<char>)
    requires MarkerFree(s) && s != [] && !RunAt(s)
    ensures MarkerFree(s[1..])
    ensures Layout(ph, s) == [s[0]] + Layout(ph, s[1..])
    ensures Layout(other, s) == [s[0]] + Layout(other, s[1..])
  {
    MarkerFreeSuffix(s, 1);
  }

  // ---------------------------------------------------------------------------
  // The two loops

  /** Either every marker is complete after `k` protecting passes, or the loop's condition still holds. */
  lemma {:induction false} ProtectDoneOrPending(u: Classes, k: nat, s: seq<char>)
    requires MarkerFree(s)
    ensures Layout(Protecting(k), s) == Protected(s) || Search(DotMultiDot, u, Layout(Protecting(k), s))
    decreases |s|
  {
    if s != [] {
      if RunAt(s) {
        var m, f, rest := SplitRun(Protecting(k), Restoring(0), s);
        ProtectDoneOrPending(u, k, rest);
        ProtectRunDoneOrPending(u, k, m, f, Layout(Protecting(k), rest), Layout(Restoring(0), rest));
      } else {
        SplitChar(Protecting(k), Restoring(0), s);
        ProtectDoneOrPending(u, k, s[1..]);
        CharDoneOrPending(DotMultiDot, u, s[0], Layout(Protecting(k), s[1..]), Layout(Restoring(0), s[1..]));
      }
    }
  }

  lemma ProtectRunDoneOrPending(u: Classes, k: nat, m: nat, f: bool, r: seq<char>, r0: seq<char>)
    requires r == r0 || Search(DotMultiDot, u, r)
    ensures MarkerOf(Protecting(k), m, f) + r == MarkerOf(Restoring(0), m, f) + r0 ||
            Search(DotMultiDot, u, MarkerOf(Protecting(k), m, f) + r)
  {
    if k < m {
      ProtectMarkerPending(u, k, m, f, r);
    } else {
      FinishedMarker(k, m, f);
      UnstartedMarker(m, f);
      if Search(DotMultiDot, u, r) {
        SearchAfter(DotMultiDot, u, MarkerOf(Protecting(k), m, f), r);
      }
    }
  }

  lemma CharDoneOrPending(p: Pattern, u: Classes, c: char, r: seq<char>, r0: seq<char>)
    requires r == r0 || Search(p, u, r)
    ensures [c] + r == [c] + r0 || Search(p, u, [c] + r)
  {
    if Search(p, u, r) {
      SearchAfter(p, u, [c], r);
    }
  }

  /** Either every marker is bare after `k` restoring passes, or the loop's condition still holds. */
  lemma {:induction false} RestoreDoneOrPending(u: Classes, k: nat, s: seq<char>)
    requires MarkerFree(s)
    ensures Layout(Restoring(k), s) == Layout(Unmarking, s) || Search(DotDotMulti, u, Layout(Restoring(k), s))
    decreases |s|
  {
    if s != [] {
      if RunAt(s) {
        var m, f, rest := SplitRun(Restoring(k), Unmarking, s);
        RestoreDoneOrPending(u, k, rest);
        RestoreRunDoneOrPending(u, k, m, f, Layout(Restoring(k), rest), Layout(Unmarking, rest));
      } else {
        SplitChar(Restoring(k), Unmarking, s);
        RestoreDoneOrPending(u, k, s[1..]);
        CharDoneOrPending(DotDotMulti, u, s[0], Layout(Restoring(k), s[1..]), Layout(Unmarking, s[1..]));
      }
    }
  }

  lemma RestoreRunDoneOrPending(u: Classes, k: nat, m: nat, f: bool, r: seq<char>, r0: seq<char>)
    requires r == r0 || Search(DotDotMulti, u, r)
    ensures MarkerOf(Restoring(k), m, f) + r == MarkerOf(Unmarking, m, f) + r0 ||
            Search(DotDotMulti, u, MarkerOf(Restoring(k), m, f) + r)
  {
    if k < m {
      RestoreMarkerPending(u, k, m, f, r);
    } else {
      KeepMarkers(k, m, f);
      UnmarkingMarker(m, f);
      if Search(DotDotMulti, u, r) {
        SearchAfter(DotDotMulti, u, MarkerOf(Restoring(k), m, f), r);
      }
    }
  }

  lemma ProtectBodyEval(u: Classes, w: seq<char>, fuel: nat)
    ensures Eval(ProtectBody, u, w, fuel) == Some(Replace(DotMultiDot, u, Replace(DotMultiDotThen, u, w)))
  {
    var ops := ProtectBody.ops;
    var v := Replace(DotMultiDotThen, u, w);
    assert Eval(ops[0], u, w, fuel) == Some(v);
    assert Eval(ops[1], u, v, fuel) == Some(Replace(DotMultiDot, u, v));
    assert ops[1..][1..] == [];
    assert EvalChain(ops[1..], u, v, fuel) == Some(Replace(DotMultiDot, u, v));
  }

  /** Once `k` is at least the length of the line, the protecting loop is done. */
  lemma ProtectSettledLine(u: Classes, k: nat, s: seq<char>)
    requires MarkerFree(s) && k >= |s|
    ensures Layout(Protecting(k), s) == Protected(s)
    ensures !Search(DotMultiDot, u, Protected(s))
  {
    ProtectSettled(k, |s|);
    LayoutSame(Protecting(k), Restoring(0), s);
    ProtectedNoSearch(u, s);
  }

  /** From `k` passes on, the protecting loop ends with every marker complete,
      given enough passes for the longest run. */
  lemma {:induction false} ProtectLoop(u: Classes, k: nat, s: seq<char>, fuel: nat)
    requires MarkerFree(s) && k + fuel >= |s|
    ensures EvalLoop(DotMultiDot, ProtectBody, u, Layout(Protecting(k), s), fuel) == Some(Protected(s))
    decreases fuel
  {
    if fuel == 0 {
      ProtectSettledLine(u, k, s);
    } else {
      ProtectDoneOrPending(u, k, s);
      if Search(DotMultiDot, u, Layout(Protecting(k), s)) {
        ProtectLoop(u, k + 1, s, fuel - 1);
        ProtectLoopStep(u, k, s, fuel);
      }
    }
  }

  /** The step of `ProtectLoop`: one pass, then the loop from pass `k + 1`. */
  lemma ProtectLoopStep(u: Classes, k: nat, s: seq<char>, fuel: nat)
    requires MarkerFree(s) && fuel > 0 && Search(DotMultiDot, u, Layout(Protecting(k), s))
    requires EvalLoop(DotMultiDot, ProtectBody, u, Layout(Protecting(k + 1), s), fuel - 1) == Some(Protected(s))
    ensures EvalLoop(DotMultiDot, ProtectBody, u, Layout(Protecting(k), s), fuel) == Some(Protected(s))
  {
    ProtectRound(u, k, s, fuel - 1);
    LoopPass(DotMultiDot, ProtectBody, u, Layout(Protecting(k), s), Layout(Protecting(k + 1), s), fuel);
  }

  /** A pass of the protecting loop's body takes the layout from pass `k` to pass `k + 1`. */
  lemma ProtectRound(u: Classes, k: nat, s: seq<char>, fuel: nat)
    requires MarkerFree(s)
    ensures Eval(ProtectBody, u, Layout(Protecting(k), s), fuel) == Some(Layout(Protecting(k + 1), s))
  {
    ProtectBodyEval(u, Layout(Protecting(k), s), fuel);
    LayoutPass(DotMultiDotThen, u, Protecting(k), Halfway(k), s);
    LayoutPass(DotMultiDot, u, Halfway(k), Protecting(k + 1), s);
  }

  /** `ReplaceMultidot` on a line without the marker word: every run of `m + 1`
      dots becomes its complete marker, and the loop needs at most as many
      passes as the line is long. */
  lemma ProtectMeaning(u: Classes, s: seq<char>, fuel: nat)
    requires MarkerFree(s) && fuel >= |s|
    ensures Eval(ReplaceMultidot, u, s, fuel) == Some(Protected(s))
  {
    DotRunPass(u, s);
    ProtectLoop(u, 0, s, fuel);
  }

  /** Once `k` is at least the length of the line, the restoring loop is done. */
  lemma RestoreSettledLine(u: Classes, k: nat, s: seq<char>)
    requires MarkerFree(s) && k >= |s|
    ensures Layout(Restoring(k), s) == Layout(Unmarking, s)
    ensures !Search(DotDotMulti, u, Layout(Unmarking, s))
  {
    RestoreSettled(k, |s|);
    LayoutSame(Restoring(k), Unmarking, s);
    UnmarkingNoSearch(u, s);
  }

  /** From `k` passes on, the restoring loop ends with every marker bare. */
  lemma {:induction false} RestoreLoop(u: Classes, k: nat, s: seq<char>, fuel: nat)
    requires MarkerFree(s) && k + fuel >= |s|
    ensures EvalLoop(DotDotMulti, ReplaceOp(DotDotMulti), u, Layout(Restoring(k), s), fuel) == Some(Layout(Unmarking, s))
    decreases fuel
  {
    var w := Layout(Restoring(k), s);
    if fuel == 0 {
      RestoreSettledLine(u, k, s);
    } else {
      RestoreDoneOrPending(u, k, s);
      if Search(DotDotMulti, u, w) {
        LayoutPass(DotDotMulti, u, Restoring(k), Restoring(k + 1), s);
        LoopPass(DotDotMulti, ReplaceOp(DotDotMulti), u, w, Layout(Restoring(k + 1), s), fuel);
        RestoreLoop(u, k + 1, s, fuel - 1);
      }
    }
  }

  /** `RestoreMultidot` after `ReplaceMultidot`: every marker is a run of dots
      again, with the blanks that protecting put around it. */
  lemma RestoreMeaning(u: Classes, s: seq<char>, fuel: nat)
    requires MarkerFree(s) && fuel >= |s|
    ensures Eval(RestoreMultidot, u, Protected(s), fuel) == Some(Layout(Restored, s))
  {
    RestoreLoop(u, 0, s, fuel);
    LayoutPass(DotMulti, u, Unmarking, Restored, s);
  }

  // ---------------------------------------------------------------------------
  // The round trip

  lemma RestoredRunKeeps(n: nat, f: bool)
    ensures Filter(NonBlank, " " + Dots(n) + Blank(f)) == Filter(NonBlank, Dots(n))
  {
    FilterAppend(NonBlank, " " + Dots(n), Blank(f));
    FilterAppend(NonBlank, " ", Dots(n));
    assert Filter(NonBlank, " ") == [];
    assert Filter(NonBlank, Blank(f)) == [];
    assert Dots(n) + [] == Dots(n);
  }

  lemma RestoredRun(s: seq<char>)
    requires RunAt(s)
    ensures Filter(NonBlank, Layout(Restored, s)) ==
            Filter(NonBlank, s[..LeadingDots(s)]) + Filter(NonBlank, Layout(Restored, s[LeadingDots(s)..]))
  {
    var n := LeadingDots(s);
    LayoutRun(Restored, s);
    LeadingDotsAre(s, n);
    RestoredRunKeeps(n, n < |s|);
    assert MarkerOf(Restored, n - 1, n < |s|) == " " + Dots(n) + Blank(n < |s|);
    FilterAppend(NonBlank, MarkerOf(Restored, n - 1, n < |s|), Layout(Restored, s[n..]));
  }

  /** Protecting and restoring only add blanks: without them, the line is what it was. */
  lemma {:induction false} RestoredKeepsText(s: seq<char>)
    ensures Filter(NonBlank, Layout(Restored, s)) == Filter(NonBlank, s)
    decreases |s|
  {
    if s != [] {
      if RunAt(s) {
        var n := LeadingDots(s);
        RestoredRun(s);
        RestoredKeepsText(s[n..]);
        FilterSplit(NonBlank, s, n);
      } else {
        LayoutChar(Restored, s);
        RestoredKeepsText(s[1..]);
        FilterSplit(NonBlank, s, 1);
        FilterAppend(NonBlank, [s[0]], Layout(Restored, s[1..]));
        assert s[..1] == [s[0]];
      }
    }
  }

  /** The multi-dot round trip: on a line without the marker word, `ReplaceMultidot`
      and then `RestoreMultidot` stop, and give back the line with at most a blank
      added on either side of each run of dots. */
  lemma MultidotRoundTrip(u: Classes, s: seq<char>, fuel: nat)
    requires MarkerFree(s) && fuel >= |s|
    ensures Eval(ReplaceMultidot, u, s, fuel).Some?
    ensures Eval(RestoreMultidot, u, Eval(ReplaceMultidot, u, s, fuel).value, fuel).Some?
    ensures Filter(NonBlank, Eval(RestoreMultidot, u, Eval(ReplaceMultidot, u, s, fuel).value, fuel).value) == Filter(NonBlank, s)
  {
    ProtectMeaning(u, s, fuel);
    RestoreMeaning(u, s, fuel);
    RestoredKeepsText(s);
  }

  // ---------------------------------------------------------------------------
  // Termination on every line

  /** `DotRun` turns `n` dots into `n - 1`. */
  lemma DotRunDrops(u: Classes)
    ensures Drops(DotRun, u, '.')
  {
    forall t | t != [] && MatchStart(DotRun, u, t).Some?
      ensures Count('.', MatchStart(DotRun, u, t).value.repl) < Count('.', t[..MatchStart(DotRun, u, t).value.len])
    {
      var n := LeadingDots(t);
      assert t[..n] == [t[0]] + t[1..n];
      CountAppend('.', [t[0]], t[1..n]);
      CountAppend('.', " DOTMULTI", t[1..n]);
      assert Count('.', " DOTMULTI") == 0;
    }
  }

  lemma MarkerWordCount()
    ensures Count('.', "DOTMULTI.") == 1
  {
    CountAbsent('.', "DOTMULTI");
    CountAppend('.', "DOTMULTI", ".");
    assert "DOTMULTI" + "." == "DOTMULTI.";
  }

  lemma ShiftedWordCount()
    ensures Count('.', "DOTDOTMULTI") == 0
  {
    CountAbsent('.', "DOTDOTMULTI");
  }

  lemma ThenWordCount(x: char)
    requires x != '.'
    ensures Count('.', "DOTMULTI." + [x]) == 1
  {
    MarkerWordCount();
    CountAbsent('.', [x]);
    CountAppend('.', "DOTMULTI.", [x]);
  }

  lemma SplitWordCount(x: char)
    requires x != '.'
    ensures Count('.', "DOTDOTMULTI " + [x]) == 0
  {
    CountAbsent('.', "DOTDOTMULTI " + [x]);
  }

  /** The first rewrite of the protecting loop's body turns "DOTMULTI." into a word without a dot. */
  lemma DotMultiDotThenDrops(u: Classes)
    ensures Drops(DotMultiDotThen, u, '.')
  {
    forall t | t != [] && MatchStart(DotMultiDotThen, u, t).Some?
      ensures Count('.', MatchStart(DotMultiDotThen, u, t).value.repl) < Count('.', t[..MatchStart(DotMultiDotThen, u, t).value.len])
    {
      assert t[..10] == t[..9] + [t[9]];
      ThenWordCount(t[9]);
      SplitWordCount(t[9]);
    }
  }

  /** So does the second. */
  lemma DotMultiDotDrops(u: Classes)
    ensures Drops(DotMultiDot, u, '.')
  {
    MarkerWordCount();
    ShiftedWordCount();
    LiteralDrops("DOTMULTI.", "DOTDOTMULTI", u, '.');
  }

  /** A pass of the protecting loop's body removes at least one dot. */
  lemma ProtectBodyDrops(u: Classes, w: seq<char>)
    requires Search(DotMultiDot, u, w)
    ensures Count('.', Replace(DotMultiDot, u, Replace(DotMultiDotThen, u, w))) < Count('.', w)
  {
    DotMultiDotThenDrops(u);
    DotMultiDotDrops(u);
    var w1 := Replace(DotMultiDotThen, u, w);
    ReplaceDrops(DotMultiDotThen, u, '.', w);
    if !Search(DotMultiDotThen, u, w) {
      ReplaceWithoutMatch(DotMultiDotThen, u, w);
    }
    ReplaceDrops(DotMultiDot, u, '.', w1);
  }

  /** The protecting loop stops within as many passes as the text has dots. */
  lemma {:induction false} ProtectStops(u: Classes, w: seq<char>, fuel: nat)
    requires fuel >= Count('.', w)
    ensures EvalLoop(DotMultiDot, ProtectBody, u, w, fuel).Some?
    decreases fuel
  {
    if Search(DotMultiDot, u, w) {
      var w' := ProtectPass(u, w, fuel);
      ProtectStops(u, w', fuel - 1);
    }
  }

  /** One pass of the protecting loop, with one dot fewer to go. */
  lemma ProtectPass(u: Classes, w: seq<char>, fuel: nat) returns (w': seq<char>)
    requires Search(DotMultiDot, u, w) && fuel >= Count('.', w)
    ensures fuel > 0 && fuel - 1 >= Count('.', w')
    ensures EvalLoop(DotMultiDot, ProtectBody, u, w, fuel) == EvalLoop(DotMultiDot, ProtectBody, u, w', fuel - 1)
  {
    w' := ProtectBodyStep(u, w);
    LoopPass(DotMultiDot, ProtectBody, u, w, w', fuel);
  }

  lemma ProtectBodyStep(u: Classes, w: seq<char>) returns (w': seq<char>)
    requires Search(DotMultiDot, u, w)
    ensures Count('.', w') < Count('.', w)
    ensures forall fuel: nat :: Eval(ProtectBody, u, w, fuel) == Some(w')
  {
    w' := Replace(DotMultiDot, u, Replace(DotMultiDotThen, u, w));
    ProtectBodyDrops(u, w);
    forall fuel: nat
      ensures Eval(ProtectBody, u, w, fuel) == Some(w')
    {
      ProtectBodyEval(u, w, fuel);
    }
  }

  /** The restoring loop stops within as many passes as the text is long. */
  lemma {:induction false} RestoreStops(u: Classes, w: seq<char>, fuel: nat)
    requires fuel >= |w|
    ensures EvalLoop(DotDotMulti, ReplaceOp(DotDotMulti), u, w, fuel).Some?
    decreases fuel
  {
    if Search(DotDotMulti, u, w) {
      ShrinkingLiteral("DOTDOTMULTI", "DOTMULTI.", u, w);
      var w' := Replace(DotDotMulti, u, w);
      LoopPass(DotDotMulti, ReplaceOp(DotDotMulti), u, w, w', fuel);
      RestoreStops(u, w', fuel - 1);
    }
  }

  /** `ReplaceMultidot` stops on every line, the marker word or not. */
  lemma ReplaceMultidotStops(u: Classes, s: seq<char>, fuel: nat)
    requires fuel >= Count('.', s)
    ensures Eval(ReplaceMultidot, u, s, fuel).Some?
  {
    DotRunDrops(u);
    ReplaceDrops(DotRun, u, '.', s);
    ProtectStops(u, Replace(DotRun, u, s), fuel);
  }

  /** `RestoreMultidot` stops on every line. */
  lemma RestoreMultidotStops(u: Classes, s: seq<char>, fuel: nat)
    requires fuel >= |s|
    ensures Eval(RestoreMultidot, u, s, fuel).Some?
  {
    RestoreStops(u, s, fuel);
  }
}
