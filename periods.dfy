/**
 * The period rule of the tokenizer (src/tokenizer.cc:115-186, 282-313): a
 * word ending in '.' is split from its period unless the period evidently
 * belongs to it, judged from the word itself, the prefix dictionary and the
 * word after it.  Words are the pieces between single ' ' characters, walked
 * with `SplitIterator`.
 */
module Periods {
  import opened Wrappers
  import opened Text
  import opened CharClasses
  import opened Prefixes

  // ---------------------------------------------------------------------------
  // Helper predicates

  /** `StartsNumeric`: the first character is an ASCII digit. */
  predicate StartsNumeric(s: seq<char>) {
    |s| > 0 && '0' <= s[0] <= '9'
  }

  /** `ContainsDot`. */
  predicate ContainsDot(s: seq<char>) {
    '.' in s
  }

  /** `IsWhitespace`: only the blank and the tab. */
  predicate IsWhitespace(c: char) {
    c == '\t' || c == ' '
  }

  /** `ContainsAlpha`: `[[:alpha:]]` occurs somewhere. */
  predicate ContainsAlpha(u: Classes, s: seq<char>) {
    exists i | 0 <= i < |s| :: u.alpha(s[i])
  }

  /** `StartsLowerCase`: `^[[:lower:]]`, with `^` read as the start of the word
      (the separators where Boost reads it otherwise are described in `CharClasses`). */
  predicate StartsLowerCase(u: Classes, s: seq<char>) {
    |s| > 0 && u.lower(s[0])
  }

  /** The words `TokenEndsWithPeriod` accepts: at least two characters, a final
      '.', and no blank or tab before it. */
  predicate EndsWithPeriod(s: seq<char>) {
    |s| >= 2 && s[|s| - 1] == '.' && !IsWhitespace(s[|s| - 2])
  }

  /** `TokenEndsWithPeriod`: reports whether `str` ends with a period after a
      word character, and only then sets `prefix` to `str` without that period. */
  method TokenEndsWithPeriod(str: seq<char>, prefix: seq<char>) returns (b: bool, prefix': seq<char>)
    ensures b <==> EndsWithPeriod(str)
    ensures b ==> prefix' + "." == str && |prefix'| >= 1
    ensures !b ==> prefix' == prefix
  {
    if |str| < 2 {
      return false, prefix;
    }
    if str[|str| - 1] != '.' || IsWhitespace(str[|str| - 2]) {
      return false, prefix;
    }
    prefix' := str[..|str| - 1];
    b := true;
  }

  // ---------------------------------------------------------------------------
  // Words

  /** A position in a string, or `std::string::npos`. */
  datatype Position = Npos | At(index: nat)

  /** `text.find(c, from)`: the first `c` at or after `from`. */
  function Find(text: seq<char>, c: char, from: Position): (r: Position)
    decreases if from.At? then |text| - from.index else 0
    ensures r.At? ==> from.At? && from.index <= r.index < |text| && text[r.index] == c
  {
    if from.Npos? || from.index >= |text| then Npos
    else if text[from.index] == c then from
    else Find(text, c, At(from.index + 1))
  }

  /** `Find` stops at the first `c`: there is none between `from` and the result. */
  lemma {:induction false} FindFirst(text: seq<char>, c: char, from: nat)
    ensures var r := Find(text, c, At(from));
            forall i | from <= i < (if r.At? then r.index else |text|) :: text[i] != c
    decreases |text| - from
  {
    if from < |text| && text[from] != c {
      FindFirst(text, c, from + 1);
    }
  }

  /** The ' '-separated words of `s`, empty ones included. */
  function Words(s: seq<char>): seq<seq<char>>
    decreases |s|
  {
    match Find(s, ' ', At(0))
    case Npos => [s]
    case At(k) => [s[..k]] + Words(s[k + 1..])
  }

  /** There is one word more than `s` has blanks, and no word holds a blank. */
  lemma {:induction false} WordsCount(s: seq<char>)
    ensures |Words(s)| == Count(' ', s) + 1
    ensures forall k | 0 <= k < |Words(s)| :: ' ' !in Words(s)[k]
    decreases |s|
  {
    FindFirst(s, ' ', 0);
    match Find(s, ' ', At(0))
    case Npos =>
      CountAbsent(' ', s);
    case At(k) =>
      BlankSplit(s, k);
      WordsCount(s[k + 1..]);
      WordsStep(s, k);
  }

  lemma BlankSplit(s: seq<char>, k: nat)
    requires k < |s| && s[k] == ' ' && forall i | 0 <= i < k :: s[i] != ' '
    ensures Count(' ', s) == 1 + Count(' ', s[k + 1..]) && ' ' !in s[..k]
  {
    CountSplit(' ', s, k);
    CountAbsent(' ', s[..k]);
    assert s[k..] == [' '] + s[k + 1..];
  }

  /** The words written back with a ' ' between neighbours. */
  function Join(ws: seq<seq<char>>): seq<char>
    requires |ws| >= 1
  {
    if |ws| == 1 then ws[0] else ws[0] + " " + Join(ws[1..])
  }

  /** Splitting at blanks loses nothing. */
  lemma {:induction false} JoinWords(s: seq<char>)
    ensures Join(Words(s)) == s
    decreases |s|
  {
    match Find(s, ' ', At(0))
    case Npos =>
    case At(k) =>
      var rest := s[k + 1..];
      JoinWords(rest);
      WordsStep(s, k);
      JoinCons(s[..k], Words(rest));
  }

  lemma WordsStep(s: seq<char>, k: nat)
    requires Find(s, ' ', At(0)) == At(k)
    ensures Words(s) == [s[..k]] + Words(s[k + 1..])
    ensures s == s[..k] + " " + s[k + 1..]
  {
  }

  lemma JoinCons(w: seq<char>, ws: seq<seq<char>>)
    requires |ws| >= 1
    ensures Join([w] + ws) == w + " " + Join(ws)
  {
    assert ([w] + ws)[1..] == ws;
  }

  // ---------------------------------------------------------------------------
  // The decision

  /** Whether `HandleNonbreakingPrefixes` splits the period off `word`, given
      the word after it (`None` for the last word) and the prefix dictionary. */
  predicate SplitsPeriod(u: Classes, sets: PrefixSets, word: seq<char>, next: Option<seq<char>>) {
    if !EndsWithPeriod(word) then false
    else
      var prefix := word[..|word| - 1];
      if next.None? then true
      else if ContainsDot(prefix) && ContainsAlpha(u, prefix) then false
      else if prefix in sets.text then false
      else if StartsLowerCase(u, next.value) then false
      else if StartsNumeric(next.value) && prefix in sets.numeric then false
      else true
  }

  /** What one word becomes in the output, before its trailing ' '. */
  function Piece(u: Classes, sets: PrefixSets, word: seq<char>, next: Option<seq<char>>): seq<char> {
    if SplitsPeriod(u, sets, word, next) then word[..|word| - 1] + " ." else word
  }

  /** The output for a list of words: each word's piece followed by one ' '. */
  function Handled(u: Classes, sets: PrefixSets, ws: seq<seq<char>>): seq<char> {
    if ws == [] then []
    else
      var next := if |ws| > 1 then Some(ws[1]) else None;
      Piece(u, sets, ws[0], next) + " " + Handled(u, sets, ws[1..])
  }

  /** A candidate that is not the last word stays whole in exactly the four
      cases the source tests, whatever their order. */
  lemma KeptWhole(u: Classes, sets: PrefixSets, word: seq<char>, next: seq<char>)
    requires EndsWithPeriod(word)
    ensures var prefix := word[..|word| - 1];
            !SplitsPeriod(u, sets, word, Some(next)) <==>
              || (ContainsDot(prefix) && ContainsAlpha(u, prefix))
              || prefix in sets.text
              || StartsLowerCase(u, next)
              || (StartsNumeric(next) && prefix in sets.numeric)
  {
  }

  /** The last word of the line loses its period whenever it has one, and the
      output ends with it. */
  lemma {:induction false} LastWordSplit(u: Classes, sets: PrefixSets, ws: seq<seq<char>>)
    requires ws != [] && EndsWithPeriod(ws[|ws| - 1])
    ensures var w := ws[|ws| - 1];
            var tail := w[..|w| - 1] + " . ";
            var out := Handled(u, sets, ws);
            |out| >= |tail| && out[|out| - |tail|..] == tail
  {
    var w := ws[|ws| - 1];
    var tail := w[..|w| - 1] + " . ";
    if |ws| == 1 {
      assert Handled(u, sets, ws) == Piece(u, sets, w, None) + " " + Handled(u, sets, []);
      assert Piece(u, sets, w, None) + " " == tail;
    } else {
      var later := ws[1..];
      assert later[|later| - 1] == w;
      LastWordSplit(u, sets, later);
      var p := Piece(u, sets, ws[0], NextWord(ws)) + " ";
      var rest := Handled(u, sets, later);
      assert Handled(u, sets, ws) == p + rest;
      EndsWithAfter(p, rest, tail);
    }
  }

  lemma EndsWithAfter(p: seq<char>, rest: seq<char>, tail: seq<char>)
    requires |rest| >= |tail| && rest[|rest| - |tail|..] == tail
    ensures |p + rest| >= |tail| && (p + rest)[|p + rest| - |tail|..] == tail
  {
    assert (p + rest)[|p + rest| - |tail|..] == rest[|rest| - |tail|..];
  }

  /** The non-blank characters of the words, in order. */
  function Letters(ws: seq<seq<char>>): seq<char> {
    if ws == [] then [] else Filter(NonBlank, ws[0]) + Letters(ws[1..])
  }

  /** A split word keeps its characters: only a blank goes in before the period. */
  lemma PieceKeepsText(u: Classes, sets: PrefixSets, word: seq<char>, next: Option<seq<char>>)
    ensures Filter(NonBlank, Piece(u, sets, word, next)) == Filter(NonBlank, word)
  {
    if SplitsPeriod(u, sets, word, next) {
      var prefix := word[..|word| - 1];
      assert word == prefix + ".";
      FilterAppend(NonBlank, prefix, " .");
      FilterAppend(NonBlank, prefix, ".");
    }
  }

  lemma {:induction false} HandledLetters(u: Classes, sets: PrefixSets, ws: seq<seq<char>>)
    ensures Filter(NonBlank, Handled(u, sets, ws)) == Letters(ws)
  {
    if ws != [] {
      var next := if |ws| > 1 then Some(ws[1]) else None;
      var p := Piece(u, sets, ws[0], next);
      HandledLetters(u, sets, ws[1..]);
      PieceKeepsText(u, sets, ws[0], next);
      FilterAppend(NonBlank, p + " ", Handled(u, sets, ws[1..]));
      FilterAppend(NonBlank, p, " ");
    }
  }

  lemma {:induction false} JoinLetters(ws: seq<seq<char>>)
    requires |ws| >= 1
    ensures Filter(NonBlank, Join(ws)) == Letters(ws)
  {
    if |ws| > 1 {
      JoinLetters(ws[1..]);
      FilterAppend(NonBlank, ws[0] + " ", Join(ws[1..]));
      FilterAppend(NonBlank, ws[0], " ");
    } else {
      assert ws[1..] == [];
    }
  }

  /** The period rule only inserts blanks: every other character of the line
      comes out, in order. */
  lemma HandledKeepsText(u: Classes, sets: PrefixSets, s: seq<char>)
    ensures Filter(NonBlank, Handled(u, sets, Words(s))) == Filter(NonBlank, s)
  {
    HandledLetters(u, sets, Words(s));
    JoinLetters(Words(s));
    JoinWords(s);
  }

  /** The word starting at `o`, and where the walk goes after it. */
  lemma WordsAt(text: seq<char>, o: nat)
    requires o <= |text|
    ensures var e := Find(text, ' ', At(o));
            && Words(text[o..])[0] == text[o..if e.At? then e.index else |text|]
            && (e.At? ==> e.index + 1 <= |text| && Words(text[o..])[1..] == Words(text[e.index + 1..]))
            && (e.Npos? ==> |Words(text[o..])| == 1)
  {
    match Find(text, ' ', At(o))
    case Npos =>
      WordsAtNone(text, o);
    case At(e) =>
      WordsAtBlank(text, o, e);
  }

  lemma WordsAtNone(text: seq<char>, o: nat)
    requires o <= |text| && Find(text, ' ', At(o)).Npos?
    ensures Words(text[o..]) == [text[o..]]
  {
    var t := text[o..];
    match Find(t, ' ', At(0))
    case Npos =>
    case At(k) =>
      FindShift(text, o, k);
      assert false;
  }

  lemma WordsAtBlank(text: seq<char>, o: nat, e: nat)
    requires o <= |text| && Find(text, ' ', At(o)) == At(e)
    ensures e + 1 <= |text| && Words(text[o..]) == [text[o..e]] + Words(text[e + 1..])
  {
    FindShiftBack(text, o, e);
    WordsStep(text[o..], e - o);
    SuffixParts(text, o, e);
  }

  lemma SuffixParts(text: seq<char>, o: nat, e: nat)
    requires o <= e < |text|
    ensures text[o..][e - o + 1..] == text[e + 1..] && text[o..][..e - o] == text[o..e]
  {
  }

  /** The first blank from `o` is the first blank of the suffix at `o`. */
  lemma FindShiftBack(text: seq<char>, o: nat, e: nat)
    requires o <= |text| && Find(text, ' ', At(o)) == At(e)
    ensures Find(text[o..], ' ', At(0)) == At(e - o)
  {
    var t := text[o..];
    FindFirst(text, ' ', o);
    FindFirst(t, ' ', 0);
    assert t[e - o] == ' ';
    match Find(t, ' ', At(0))
    case Npos =>
    case At(k) =>
      assert text[o + k] == ' ';
  }

  /** No blank in the suffix means none from `o` on in the whole text. */
  lemma FindShiftNone(text: seq<char>, o: nat)
    requires o <= |text| && Find(text[o..], ' ', At(0)).Npos?
    ensures Find(text, ' ', At(o)).Npos?
  {
    var t := text[o..];
    FindFirst(t, ' ', 0);
    assert forall i | o <= i < |text| :: text[i] == t[i - o];
  }

  /** The first blank of the suffix at `o` is the first blank from `o` in the text. */
  lemma FindShift(text: seq<char>, o: nat, k: nat)
    requires o <= |text| && Find(text[o..], ' ', At(0)) == At(k)
    ensures Find(text, ' ', At(o)) == At(o + k)
  {
    var t := text[o..];
    FindFirst(t, ' ', 0);
    FindFirst(text, ' ', o);
    assert text[o + k] == t[k] == ' ';
    assert forall i | o <= i < o + k :: text[i] == t[i - o];
  }

  // ---------------------------------------------------------------------------
  // SplitIterator

  /** The words from position `p` on; none from `npos`. */
  function WordsFrom(text: seq<char>, p: Position): seq<seq<char>>
    requires p.At? ==> p.index <= |text|
  {
    if p.At? then Words(text[p.index..]) else []
  }

  /** Starting after the blank that ends the current word drops that word. */
  lemma NextStart(text: seq<char>, p: Position)
    requires p.At? ==> p.index <= |text|
    ensures var e := Find(text, ' ', p);
            var q := if e.Npos? then Npos else At(e.index + 1);
            && (q.At? ==> q.index <= |text|)
            && WordsFrom(text, q) == if WordsFrom(text, p) == [] then [] else WordsFrom(text, p)[1..]
  {
    if p.At? {
      WordsAt(text, p.index);
    }
  }

  /** Walks the ' '-separated words of `text`: `offset` is where the current
      word starts and `endPos` the blank that ends it. */
  class SplitIterator {
    const text: seq<char>
    var offset: Position
    var endPos: Position

    ghost predicate Valid()
      reads this
    {
      (offset.At? ==> offset.index <= |text|) && endPos == Find(text, ' ', offset)
    }

    /** The words still to visit, the current one first. */
    ghost function Remaining(): seq<seq<char>>
      reads this
      requires Valid()
    {
      WordsFrom(text, offset)
    }

    /** Starts at the word beginning at `offset`. */
    constructor(text: seq<char>, offset: nat)
      requires offset <= |text|
      ensures this.text == text && this.offset == At(offset) && Valid()
      ensures Remaining() == Words(text[offset..])
    {
      this.text := text;
      this.offset := At(offset);
      this.endPos := Find(text, ' ', At(offset));
    }

    /** The past-the-end iterator, over the empty string. */
    constructor End()
      ensures text == [] && offset == Npos && Valid() && Remaining() == []
    {
      text := [];
      offset := Npos;
      endPos := Npos;
    }

    /** The copy constructor. */
    constructor Copy(other: SplitIterator)
      requires other.Valid()
      ensures text == other.text && offset == other.offset && endPos == other.endPos
      ensures Valid() && Remaining() == other.Remaining()
    {
      text := other.text;
      offset := other.offset;
      endPos := other.endPos;
    }

    /** `operator*`: the current word. */
    function Current(): (r: seq<char>)
      reads this
      requires Valid() && offset.At?
      ensures r == Remaining()[0]
    {
      WordsAt(text, offset.index);
      text[offset.index..if endPos.At? then endPos.index else |text|]
    }

    /** `operator!=`: iterators differ when their offsets do. */
    predicate NotEqual(other: SplitIterator)
      reads this, other
    {
      offset != other.offset
    }

    /** `HasNext`: another word follows the current one. */
    predicate HasNext()
      reads this
      requires Valid()
      ensures HasNext() <==> |Remaining()| > 1
    {
      if offset.At? then WordsAt(text, offset.index); endPos.At? else endPos.At?
    }

    /** `operator++`: on to the next word, or past the end after the last one. */
    method Increment()
      requires Valid()
      modifies this
      ensures Valid()
      ensures Remaining() == if old(Remaining()) == [] then [] else old(Remaining())[1..]
    {
      NextStart(text, offset);
      offset := if endPos.Npos? then Npos else At(endPos.index + 1);
      endPos := Find(text, ' ', offset);
    }

    /** `operator+`: a copy moved on by `amount` words. */
    method Plus(amount: nat) returns (it: SplitIterator)
      requires Valid()
      ensures fresh(it) && it.Valid() && it.text == text
      ensures it.Remaining() == Remaining()[if amount <= |Remaining()| then amount else |Remaining()|..]
    {
      it := new SplitIterator.Copy(this);
      var n := 0;
      while n < amount
        invariant 0 <= n <= amount && it.Valid() && it.text == text
        invariant it.Remaining() == Remaining()[if n <= |Remaining()| then n else |Remaining()|..]
      {
        it.Increment();
        n := n + 1;
      }
    }
  }

  // ---------------------------------------------------------------------------
  // HandleNonbreakingPrefixes

  /** The two sets of a prefix dictionary, as values. */
  function SetsOf(prefixSet: NonbreakingPrefixSet): PrefixSets
    reads prefixSet
  {
    PrefixSets(prefixSet.textPrefixes, prefixSet.numericPrefixes)
  }

  /** The word after the current one, if any. */
  ghost function NextWord(ws: seq<seq<char>>): Option<seq<char>> {
    if |ws| > 1 then Some(ws[1]) else None
  }

  /** `Tokenizer::HandleNonbreakingPrefixes`: clears `out`, then appends each
      word, with its period split off where `SplitsPeriod` says, and a ' '. */
  method HandleNonbreakingPrefixes(u: Classes, prefixSet: NonbreakingPrefixSet, text: seq<char>) returns (out: seq<char>)
    requires prefixSet.Valid()
    ensures out == Handled(u, SetsOf(prefixSet), Words(text))
  {
    out := [];
    var prefix: seq<char> := [];
    var it := new SplitIterator(text, 0);
    var end := new SplitIterator.End();
    assert text[0..] == text;
    ghost var sets := SetsOf(prefixSet);
    while it.NotEqual(end)
      invariant it.Valid() && end.offset == Npos
      invariant out + Handled(u, sets, it.Remaining()) == Handled(u, sets, Words(text))
      decreases |it.Remaining()|
    {
      out, prefix := HandleWord(u, prefixSet, it, out, prefix);
    }
  }

  /** One pass of the loop: the current word's piece and a ' ' appended to
      `out`, and the iterator moved on. */
  method HandleWord(u: Classes, prefixSet: NonbreakingPrefixSet, it: SplitIterator, out: seq<char>, prefix: seq<char>)
    returns (out': seq<char>, prefix': seq<char>)
    requires prefixSet.Valid() && it.Valid() && it.offset.At?
    modifies it
    ensures it.Valid() && |it.Remaining()| < |old(it.Remaining())|
    ensures out' + Handled(u, SetsOf(prefixSet), it.Remaining()) == out + Handled(u, SetsOf(prefixSet), old(it.Remaining()))
  {
    var word := it.Current();
    var split;
    split, prefix' := Decide(u, prefixSet, it, word, prefix);
    ghost var ws := it.Remaining();
    var piece := if split then prefix' + " ." else word;
    out' := out + piece + " ";
    HandledStep(u, SetsOf(prefixSet), ws, out);
    it.Increment();
  }

  /** The decision for the current word, in the source's order of tests.  Like
      `TokenEndsWithPeriod`, it leaves `prefix` alone for a word without a final period. */
  method Decide(u: Classes, prefixSet: NonbreakingPrefixSet, it: SplitIterator, word: seq<char>, prefix: seq<char>)
    returns (split: bool, prefix': seq<char>)
    requires prefixSet.Valid() && it.Valid() && it.offset.At? && word == it.Current()
    ensures split == SplitsPeriod(u, SetsOf(prefixSet), word, NextWord(it.Remaining()))
    ensures split ==> prefix' + " ." == Piece(u, SetsOf(prefixSet), word, NextWord(it.Remaining()))
    ensures !split ==> word == Piece(u, SetsOf(prefixSet), word, NextWord(it.Remaining()))
  {
    split := false;
    var candidate;
    candidate, prefix' := TokenEndsWithPeriod(word, prefix);
    if candidate {
      if !it.HasNext() {
        split := true;
      } else if ContainsDot(prefix') && ContainsAlpha(u, prefix') {
      } else if prefixSet.IsNonbreakingPrefix(prefix') {
      } else {
        var after := it.Plus(1);
        var next := after.Current();
        if StartsLowerCase(u, next) {
        } else if StartsNumeric(next) && prefixSet.IsNumericNonbreakingPrefix(prefix') {
        } else {
          split := true;
        }
      }
    }
  }

  /** One word handled: its piece and a ' ' move from the pending output to `out`. */
  lemma HandledStep(u: Classes, sets: PrefixSets, ws: seq<seq<char>>, out: seq<char>)
    requires ws != []
    ensures out + Handled(u, sets, ws) == (out + Piece(u, sets, ws[0], NextWord(ws)) + " ") + Handled(u, sets, ws[1..])
  {
    var p := Piece(u, sets, ws[0], NextWord(ws));
    var r := Handled(u, sets, ws[1..]);
    assert Handled(u, sets, ws) == p + " " + r;
    assert out + (p + " " + r) == (out + p + " ") + r;
  }
}
