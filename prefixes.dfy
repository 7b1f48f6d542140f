/**
 * The non-breaking prefix dictionary (src/nonbreaking_prefix_set.cc).
 *
 * A word list is read line by line with `std::getline`.  Comment and blank
 * lines are skipped, a line `P #NUMERIC_ONLY#` adds `P` to the prefixes that
 * stay attached only before a number, and every other line is a prefix that
 * always stays attached.  The two `std::regex` patterns use the ECMAScript
 * grammar on bytes: `.` is any character but '\n' and '\r', and `\s` is the
 * classic-locale white space of `std::isspace`.
 */
module Prefixes {
  import opened Wrappers
  import opened CharClasses

  // ---------------------------------------------------------------------------
  // std::getline

  /** The position of the first '\n' in `s`, or `|s|` when there is none. */
  function LineEnd(s: seq<char>): (k: nat)
    ensures k <= |s| && (k < |s| ==> s[k] == '\n')
    ensures forall i | 0 <= i < k :: s[i] != '\n'
  {
    if s == [] || s[0] == '\n' then 0 else 1 + LineEnd(s[1..])
  }

  /** What is left after one `std::getline`: the text after the line's '\n'. */
  function AfterLine(s: seq<char>): (r: seq<char>)
    requires s != []
    ensures |r| < |s|
  {
    var k := LineEnd(s);
    if k < |s| then s[k + 1..] else []
  }

  /** The lines `while (std::getline(stream, line))` reads from `data`: a final
      '\n' does not start another line, and empty data has none. */
  function Lines(data: seq<char>): seq<seq<char>>
    decreases |data|
  {
    if data == [] then [] else [data[..LineEnd(data)]] + Lines(AfterLine(data))
  }

  /** The lines written back, each followed by '\n'. */
  function Unlines(lines: seq<seq<char>>): seq<char> {
    if lines == [] then [] else lines[0] + "\n" + Unlines(lines[1..])
  }

  lemma UnlinesCons(l: seq<char>, ls: seq<seq<char>>)
    ensures Unlines([l] + ls) == l + "\n" + Unlines(ls)
  {
    assert ([l] + ls)[1..] == ls;
  }

  /** No line read holds a '\n'. */
  lemma {:induction false} LinesHaveNoNewline(data: seq<char>)
    ensures forall l | l in Lines(data) :: '\n' !in l
    decreases |data|
  {
    if data != [] {
      LinesHaveNoNewline(AfterLine(data));
    }
  }

  /** Reading lines loses nothing: writing them back gives the data, with a
      '\n' added when the data did not end in one. */
  lemma {:induction false} LinesRoundTrip(data: seq<char>)
    ensures Unlines(Lines(data)) ==
            if data != [] && data[|data| - 1] != '\n' then data + "\n" else data
    decreases |data|
  {
    if data != [] {
      var k := LineEnd(data);
      var rest := AfterLine(data);
      LinesRoundTrip(rest);
      UnlinesCons(data[..k], Lines(rest));
      if k < |data| {
        NewlineSplit(data, k);
      } else {
        assert data[..k] == data;
      }
    }
  }

  lemma NewlineSplit(data: seq<char>, k: nat)
    requires k < |data| && data[k] == '\n'
    ensures data == data[..k] + "\n" + data[k + 1..]
    ensures data[k + 1..] != [] ==> data[k + 1..][|data[k + 1..]| - 1] == data[|data| - 1]
    ensures data[k + 1..] == [] ==> data[|data| - 1] == '\n'
  {
  }

  // ---------------------------------------------------------------------------
  // The two patterns

  /** ECMAScript `.`: any character but a line terminator. */
  predicate AnyChar(c: char) {
    c != '\n' && c != '\r'
  }

  /** `^#.*`, matched against the whole line: a '#' in the first column. */
  predicate IsComment(l: seq<char>) {
    |l| >= 1 && l[0] == '#' && forall i | 1 <= i < |l| :: AnyChar(l[i])
  }

  /** `^\s*$`, matched against the whole line. */
  predicate IsBlank(l: seq<char>) {
    forall i | 0 <= i < |l| :: IsTrimSpace(l[i])
  }

  const NumericMarker: seq<char> := "#NUMERIC_ONLY#"

  /** Group 1 `l[..j]` is made of `.` characters and only white space follows it up to `k`. */
  predicate GroupFits(l: seq<char>, j: nat, k: nat) {
    && j <= k <= |l|
    && (forall i | 0 <= i < j :: AnyChar(l[i]))
    && (forall i | j <= i < k :: IsTrimSpace(l[i]))
  }

  /** `^(.+)\s+#NUMERIC_ONLY#\s*` matches the whole line with group 1 `l[..j]`
      and the marker at `k`. */
  predicate NumericMatch(l: seq<char>, j: nat, k: nat) {
    && 1 <= j < k && k + |NumericMarker| <= |l|
    && GroupFits(l, j, k)
    && l[k..k + |NumericMarker|] == NumericMarker
    && (forall i | k + |NumericMarker| <= i < |l| :: IsTrimSpace(l[i]))
  }

  /** Where the marker must sit: it ends at the last character that is not white space. */
  function MarkerStart(l: seq<char>): Option<nat> {
    var e := |TrimRight(l)|;
    if e >= |NumericMarker| && l[e - |NumericMarker|..e] == NumericMarker then Some(e - |NumericMarker|)
    else None
  }

  /** The greedy `(.+)`: the longest group, tried from `j` down, that leaves only
      white space before the marker at `k`. */
  function Greedy(l: seq<char>, j: nat, k: nat): (r: Option<nat>)
    requires j < k <= |l|
    ensures r.Some? ==> 1 <= r.value <= j && GroupFits(l, r.value, k)
    ensures forall j' | (if r.Some? then r.value else 0) < j' <= j :: !GroupFits(l, j', k)
  {
    if j == 0 then None
    else if GroupFits(l, j, k) then Some(j)
    else Greedy(l, j - 1, k)
  }

  /** Group 1 of `^(.+)\s+#NUMERIC_ONLY#\s*` when the whole line matches. */
  function NumericGroup(l: seq<char>): Option<seq<char>> {
    match MarkerStart(l)
    case None => None
    case Some(k) =>
      if k == 0 then None
      else
        match Greedy(l, k - 1, k)
        case None => None
        case Some(j) => Some(l[..j])
  }

  /** The marker of a match ends where the trailing white space starts. */
  lemma MarkerUnique(l: seq<char>, j: nat, k: nat)
    requires NumericMatch(l, j, k)
    ensures MarkerStart(l) == Some(k)
  {
    var e := |TrimRight(l)|;
    var m := |NumericMarker|;
    assert l[k + m - 1] == l[k..k + m][m - 1] == '#';
  }

  /** When the line matches, `NumericGroup` gives group 1 of a match. */
  lemma NumericGroupMatches(l: seq<char>)
    requires NumericGroup(l).Some?
    ensures var g := NumericGroup(l).value;
            g == l[..|g|] && NumericMatch(l, |g|, MarkerStart(l).value)
  {
    var k := MarkerStart(l).value;
    var e := |TrimRight(l)|;
    assert e == k + |NumericMarker|;
  }

  /** Every match of the line has a group 1 no longer than `NumericGroup`'s:
      it is the greedy one. */
  lemma NumericGroupLongest(l: seq<char>, j: nat, k: nat)
    requires NumericMatch(l, j, k)
    ensures NumericGroup(l).Some? && j <= |NumericGroup(l).value|
  {
    MarkerUnique(l, j, k);
  }

  /** Group 1 keeps all white space before the marker but its last character,
      when nothing before it is a line terminator. */
  lemma GroupKeepsSpaces(l: seq<char>, k: nat)
    requires MarkerStart(l) == Some(k) && k >= 2 && IsTrimSpace(l[k - 1])
    requires forall i | 0 <= i < k - 1 :: AnyChar(l[i])
    ensures NumericGroup(l) == Some(l[..k - 1])
  {
    assert GroupFits(l, k - 1, k);
  }

  // ---------------------------------------------------------------------------
  // The parser

  /** What one line contributes to the dictionary. */
  datatype LineKind = Skip | NumericOnly(prefix: seq<char>) | Text(prefix: seq<char>)

  function Classify(l: seq<char>): (r: LineKind)
    ensures r.Text? ==> r.prefix == l
  {
    if IsComment(l) || IsBlank(l) then Skip
    else
      match NumericGroup(l)
      case Some(g) => NumericOnly(g)
      case None => Text(l)
  }

  /** A prefix dictionary's two sets: `text_prefixes` and `numeric_prefixes`. */
  datatype PrefixSets = PrefixSets(text: set<seq<char>>, numeric: set<seq<char>>)

  /** One pass of the constructor's loop. */
  function Insert(p: PrefixSets, l: seq<char>): PrefixSets {
    match Classify(l)
    case Skip => p
    case NumericOnly(g) => p.(numeric := p.numeric + {g})
    case Text(t) => p.(text := p.text + {t})
  }

  /** The sets after reading `lines` in order. */
  function Parse(lines: seq<seq<char>>): PrefixSets {
    if lines == [] then PrefixSets({}, {})
    else Insert(Parse(lines[..|lines| - 1]), lines[|lines| - 1])
  }

  /** A word is a plain prefix exactly when it is itself a line of the list that
      is neither skipped nor marked numeric-only. */
  lemma {:induction false} ParseText(lines: seq<seq<char>>, t: seq<char>)
    ensures t in Parse(lines).text <==> t in lines && Classify(t).Text?
  {
    if lines != [] {
      var init := lines[..|lines| - 1];
      ParseText(init, t);
      assert lines == init + [lines[|lines| - 1]];
    }
  }

  /** A word is a numeric-only prefix exactly when some line of the list marks it so. */
  lemma {:induction false} ParseNumeric(lines: seq<seq<char>>, g: seq<char>)
    ensures g in Parse(lines).numeric <==> exists l | l in lines :: Classify(l) == NumericOnly(g)
  {
    if lines != [] {
      var init := lines[..|lines| - 1];
      var last := lines[|lines| - 1];
      ParseNumeric(init, g);
      assert lines == init + [last];
      if g in Parse(lines).numeric && g !in Parse(init).numeric {
        assert Classify(last) == NumericOnly(g);
      }
    }
  }

  /** The sets depend only on which lines occur: not on their order, nor on repeats. */
  lemma SameLinesSameSets(a: seq<seq<char>>, b: seq<seq<char>>)
    requires forall l :: l in a <==> l in b
    ensures Parse(a) == Parse(b)
  {
    forall t
      ensures t in Parse(a).text <==> t in Parse(b).text
    {
      ParseText(a, t);
      ParseText(b, t);
    }
    forall g
      ensures g in Parse(a).numeric <==> g in Parse(b).numeric
    {
      ParseNumeric(a, g);
      ParseNumeric(b, g);
    }
  }

  /** A '#' after leading blanks does not make a comment. */
  lemma IndentedHashIsText()
    ensures Classify("  #x") == Text("  #x")
  {
    assert !IsBlank("  #x") by {
      assert !IsTrimSpace("  #x"[2]);
    }
    assert MarkerStart("  #x").None? by {
      assert |TrimRight("  #x")| == 4;
    }
  }

  /** The marker line puts the word before it in the numeric-only set. */
  lemma NumericLineExample()
    ensures Classify("No #NUMERIC_ONLY#") == NumericOnly("No")
  {
    var l := "No #NUMERIC_ONLY#";
    assert l == "No" + " " + NumericMarker;
    assert !IsBlank(l) by {
      assert !IsTrimSpace(l[0]);
    }
    assert |TrimRight(l)| == 17;
    assert l[3..17] == NumericMarker;
    GroupKeepsSpaces(l, 3);
  }

  // ---------------------------------------------------------------------------
  // NonbreakingPrefixSet

  class NonbreakingPrefixSet {
    var textPrefixes: set<seq<char>>
    var numericPrefixes: set<seq<char>>
    /** The lines the set was read from. */
    ghost var lines: seq<seq<char>>

    ghost predicate Valid()
      reads this
    {
      PrefixSets(textPrefixes, numericPrefixes) == Parse(lines)
    }

    /** Reads `data` line by line, sorting each line into one of the two sets. */
    constructor(data: seq<char>)
      ensures lines == Lines(data) && Valid()
    {
      var text: set<seq<char>> := {};
      var numeric: set<seq<char>> := {};
      var rest := data;
      ghost var done: seq<seq<char>> := [];
      while rest != []
        invariant Lines(data) == done + Lines(rest)
        invariant PrefixSets(text, numeric) == Parse(done)
        decreases |rest|
      {
        var line := rest[..LineEnd(rest)];
        ReadOneLine(done, rest);
        rest := AfterLine(rest);
        done := done + [line];
        match Classify(line)
        case Skip =>
        case NumericOnly(g) => numeric := numeric + {g};
        case Text(t) => text := text + {t};
      }
      assert done + [] == done;
      textPrefixes, numericPrefixes, lines := text, numeric, done;
    }

    /** `IsNonbreakingPrefix`: exact membership in the plain prefixes, which are the
        lines of the list that are neither skipped nor numeric-only. */
    function IsNonbreakingPrefix(token: seq<char>): (r: bool)
      reads this
      requires Valid()
      ensures r <==> token in lines && Classify(token).Text?
    {
      ParseText(lines, token);
      token in textPrefixes
    }

    /** `IsNumericNonbreakingPrefix`: exact membership in the numeric-only prefixes. */
    function IsNumericNonbreakingPrefix(token: seq<char>): (r: bool)
      reads this
      requires Valid()
      ensures r <==> exists l | l in lines :: Classify(l) == NumericOnly(token)
    {
      ParseNumeric(lines, token);
      token in numericPrefixes
    }
  }

  /** One loop pass: the line read joins the lines done. */
  lemma ReadOneLine(done: seq<seq<char>>, rest: seq<char>)
    requires rest != []
    ensures done + Lines(rest) == (done + [rest[..LineEnd(rest)]]) + Lines(AfterLine(rest))
    ensures Parse(done + [rest[..LineEnd(rest)]]) == Insert(Parse(done), rest[..LineEnd(rest)])
  {
    var line := rest[..LineEnd(rest)];
    var more := Lines(AfterLine(rest));
    assert Lines(rest) == [line] + more;
    ConsJoin(done, line, more);
    ParseSnoc(done, line);
  }

  lemma ConsJoin(a: seq<seq<char>>, x: seq<char>, b: seq<seq<char>>)
    ensures a + ([x] + b) == (a + [x]) + b
  {
  }

  lemma ParseSnoc(a: seq<seq<char>>, x: seq<char>)
    ensures Parse(a + [x]) == Insert(Parse(a), x)
  {
    assert (a + [x])[..|a|] == a;
  }

  /** `NonbreakingPrefixSet::get`: the set registered for `language`, and the
      English one for a language without its own. */
  function Get(registry: map<seq<char>, NonbreakingPrefixSet>, language: seq<char>): (r: NonbreakingPrefixSet)
    requires "en" in registry
    ensures r in registry.Values
    ensures language in registry ==> r == registry[language]
    ensures language !in registry ==> r == registry["en"]
  {
    if language in registry then registry[language] else registry["en"]
  }
}
