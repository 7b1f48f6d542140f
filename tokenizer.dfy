/**
 * `Tokenizer` (src/tokenizer.hh and the end of src/tokenizer.cc): the choice of
 * the language-specific stages in the constructor and the fixed sequence of
 * stages `operator()` runs over one line, threading the `tmp`/`out` buffers
 * through `std::swap`.
 */
module MosesTokenizer {
  import opened Wrappers
  import opened Text
  import opened CharClasses
  import opened Regex
  import opened Stages
  import opened Multidot
  import opened Options
  import opened Prefixes
  import opened Periods

  // ---------------------------------------------------------------------------
  // The language dispatch of the constructor

  /** The punctuation padding a language uses: fi and sv spare ':', ca spares '·'. */
  function PadOpFor(language: seq<char>): (r: Op)
    ensures LoopFree(r)
    ensures r == FiSvPadNonAlphanumeric <==> language == "fi" || language == "sv"
    ensures r == CaPadNonAlphanumeric <==> language == "ca"
    ensures r == PadNonAlphanumeric <==> language != "fi" && language != "sv" && language != "ca"
  {
    if language == "fi" || language == "sv" then FiSvPadNonAlphanumeric
    else if language == "ca" then CaPadNonAlphanumeric
    else PadNonAlphanumeric
  }

  /** The apostrophe rules a language uses, chosen on the exact language code. */
  function ApostropheOpFor(language: seq<char>): (r: Op)
    ensures LoopFree(r)
    ensures r == EnSpecificApostrophe <==> language == "en"
    ensures r == FrItGaCaSpecificApostrophe <==>
              language == "fr" || language == "it" || language == "ga" || language == "ca"
    ensures r == SoSpecificApostrophe <==> language == "so"
    ensures r == NonSpecificApostrophe <==>
              language !in {"en", "fr", "it", "ga", "ca", "so"}
  {
    if language == "en" then EnSpecificApostrophe
    else if language == "fr" || language == "it" || language == "ga" || language == "ca" then FrItGaCaSpecificApostrophe
    else if language == "so" then SoSpecificApostrophe
    else NonSpecificApostrophe
  }

  /** Whatever the language, its padding and apostrophe stages only insert blanks. */
  lemma LanguageStagesOnlyInsertBlanks(language: seq<char>, u: Classes, s: seq<char>)
    ensures Filter(NonBlank, Apply(PadOpFor(language), u, s)) == Filter(NonBlank, s)
    ensures Filter(NonBlank, Apply(ApostropheOpFor(language), u, s)) == Filter(NonBlank, s)
  {
    if language == "fi" || language == "sv" {
      FiSvPadOnlyInsertsBlanks(u, s);
    } else if language == "ca" {
      CaPadOnlyInsertsBlanks(u, s);
    } else {
      PadOnlyInsertsBlanks(u, s);
    }
    if language == "en" {
      EnApostropheOnlyInsertsBlanks(u, s);
    } else if language == "fr" || language == "it" || language == "ga" || language == "ca" {
      FrItGaCaApostropheOnlyInsertsBlanks(u, s);
    } else if language == "so" {
      SoApostropheOnlyInsertsBlanks(u, s);
    } else {
      OtherApostropheOnlyInsertsBlanks(u, s);
    }
  }

  /** Every fixed stage other than the two multi-dot loops runs straight through. */
  lemma FixedStagesLoopFree()
    ensures LoopFree(DeduplicateSpace) && LoopFree(RemoveAsciiJunk)
    ensures LoopFree(AggressiveHyphenSplit) && LoopFree(SeparateCommaInNumbers)
    ensures LoopFree(TrailingDotApostrophe) && LoopFree(EscapeSpecialChars)
  {
    var none := Classes(_ => false, _ => false, _ => false, _ => false, _ => false, _ => false);
    EscapeMeaning(none, []);
    CommaChain(none, []);
  }

  // ---------------------------------------------------------------------------
  // The multi-dot loops on any line

  /** `ReplaceMultidot` on a line; the loop stops within as many passes as the
      line has dots, and on a line without the marker word it yields the
      protected layout. */
  function Protect(u: Classes, s: seq<char>): (r: seq<char>)
    ensures MarkerFree(s) ==> r == Protected(s)
  {
    var fuel := |s| + Count('.', s);
    ReplaceMultidotStops(u, s, fuel);
    var r := Eval(ReplaceMultidot, u, s, fuel).value;
    assert MarkerFree(s) ==> r == Protected(s) by {
      if MarkerFree(s) {
        ProtectMeaning(u, s, fuel);
      }
    }
    r
  }

  /** `RestoreMultidot` on a line; the loop stops within as many passes as the
      line is long. */
  function Restore(u: Classes, s: seq<char>): seq<char>
  {
    RestoreMultidotStops(u, s, |s|);
    Eval(RestoreMultidot, u, s, |s|).value
  }

  /** Protecting and then restoring dots directly gives back the line up to
      blanks, on every line without the marker word. */
  lemma ProtectRestore(u: Classes, s: seq<char>)
    requires MarkerFree(s)
    ensures Filter(NonBlank, Restore(u, Protect(u, s))) == Filter(NonBlank, s)
  {
    var p := Protect(u, s);
    var fuel := |s| + |p|;
    MultidotRoundTrip(u, s, fuel);
    ProtectMeaning(u, s, fuel);
    RestoreMultidotStops(u, p, |p|);
    EvalMoreFuel(RestoreMultidot, u, p, |p|, fuel);
  }

  // ---------------------------------------------------------------------------
  // The pipeline

  /** The stages up to and including the apostrophe rules. */
  function Separated(u: Classes, language: seq<char>, options: Options, line: seq<char>): seq<char>
  {
    FixedStagesLoopFree();
    var deduplicated := Apply(DeduplicateSpace, u, line);
    var cleaned := Apply(RemoveAsciiJunk, u, deduplicated);
    var trimmed := Trim(cleaned);
    var padded := Apply(PadOpFor(language), u, trimmed);
    var hyphens := if Has(options, Aggressive) then Apply(AggressiveHyphenSplit, u, padded) else padded;
    var protected := Protect(u, hyphens);
    var commas := Apply(SeparateCommaInNumbers, u, protected);
    Apply(ApostropheOpFor(language), u, commas)
  }

  /** The stages after the period handling. */
  function Finished(u: Classes, options: Options, s: seq<char>): seq<char>
  {
    FixedStagesLoopFree();
    var deduplicated := Trim(Apply(DeduplicateSpace, u, s));
    var dotApostrophe := Apply(TrailingDotApostrophe, u, deduplicated);
    var restored := Restore(u, dotApostrophe);
    if Has(options, NoEscape) then restored else Apply(EscapeSpecialChars, u, restored)
  }

  /** What `Tokenizer::operator()` leaves in `out` for one line. */
  function Tokenized(u: Classes, language: seq<char>, options: Options, sets: PrefixSets, line: seq<char>): seq<char>
  {
    Finished(u, options, Handled(u, sets, Words(Separated(u, language, options, line))))
  }

  /** Only the two flag bits of the options word make a difference. */
  lemma OnlyFlagBitsMatter(u: Classes, language: seq<char>, o: Options, o': Options, sets: PrefixSets, line: seq<char>)
    requires Bit(o, 0) == Bit(o', 0) && Bit(o, 1) == Bit(o', 1)
    ensures Tokenized(u, language, o, sets, line) == Tokenized(u, language, o', sets, line)
  {
    HasAggressive(o);
    HasAggressive(o');
    HasNoEscape(o);
    HasNoEscape(o');
  }

  /** Without `no_escape` the result holds none of `| < > ' " [ ]`, and escaping
      is the last stage: dropping the flag escapes exactly the text that is
      returned with it, and the entities read back as that text. */
  lemma EscapingIsLast(u: Classes, language: seq<char>, o: Options, o': Options, sets: PrefixSets, line: seq<char>)
    requires Has(o, Aggressive) == Has(o', Aggressive)
    requires !Has(o, NoEscape) && Has(o', NoEscape)
    ensures var escaped := Tokenized(u, language, o, sets, line);
            && escaped == FlatMap(EscapeChar, Tokenized(u, language, o', sets, line))
            && (forall i | 0 <= i < |escaped| :: !Special(escaped[i]))
            && Unescape(escaped) == Tokenized(u, language, o', sets, line)
  {
    var handled := Handled(u, sets, Words(Separated(u, language, o, line)));
    assert Separated(u, language, o, line) == Separated(u, language, o', line);
    var plain := Tokenized(u, language, o', sets, line);
    EscapeMeaning(u, plain);
    EscapedHasNoSpecial(plain);
    UnescapeEscape(plain);
  }

  // ---------------------------------------------------------------------------
  // The tokenizer object

  /** Runs one loop-free stage on `tmp` and swaps its result back into `tmp`. */
  method RunStage(b: Buffers, op: Op, u: Classes)
    requires LoopFree(op)
    modifies b
    ensures b.text == Apply(op, u, old(b.text))
  {
    LoopFreeFinishes(op, u, b.text, 0);
    b.Run(op, u, 0);
    b.Swap();
  }

  /** `ReplaceMultidot(tmp, out)` followed by the swap. */
  method RunProtect(b: Buffers, u: Classes)
    modifies b
    ensures b.text == Protect(u, old(b.text))
  {
    ghost var fuel := |b.text| + Count('.', b.text);
    ReplaceMultidotStops(u, b.text, fuel);
    b.Run(ReplaceMultidot, u, fuel);
    b.Swap();
  }

  /** `RestoreMultidot(tmp, out)` followed by the swap. */
  method RunRestore(b: Buffers, u: Classes)
    modifies b
    ensures b.text == Restore(u, old(b.text))
  {
    ghost var fuel := |b.text|;
    RestoreMultidotStops(u, b.text, fuel);
    b.Run(RestoreMultidot, u, fuel);
    b.Swap();
  }

  class Tokenizer {
    const options: Options
    const language: seq<char>
    /** A reference to a set owned by the registry. */
    const prefixSet: NonbreakingPrefixSet
    const padOp: Op
    const apostropheOp: Op

    ghost predicate Valid()
      reads prefixSet
    {
      && prefixSet.Valid()
      && padOp == PadOpFor(language)
      && apostropheOp == ApostropheOpFor(language)
    }

    /** Picks the prefix set, with the English fallback, and the two
        language-specific stages. */
    constructor(registry: map<seq<char>, NonbreakingPrefixSet>, language: seq<char>, options: Options)
      requires "en" in registry
      requires forall l | l in registry :: registry[l].Valid()
      ensures this.options == options && this.language == language
      ensures prefixSet == Get(registry, language)
      ensures Valid()
    {
      this.options := options;
      this.language := language;
      prefixSet := Get(registry, language);
      padOp := PadOpFor(language);
      apostropheOp := ApostropheOpFor(language);
    }

    /** `operator()`: tokenizes one line.  It changes nothing in the tokenizer
        or its prefix set, so every line is tokenized on its own. */
    method Tokenize(u: Classes, text: seq<char>) returns (out: seq<char>)
      requires Valid()
      ensures out == Tokenized(u, language, options, SetsOf(prefixSet), text)
    {
      var b := new Buffers(text);
      SeparateStages(b, u);
      b.out := HandleNonbreakingPrefixes(u, prefixSet, b.text);
      b.Swap();
      FinishStages(b, u);
      b.Swap();
      out := b.out;
    }

    /** The stages of `operator()` before the period handling. */
    method SeparateStages(b: Buffers, u: Classes)
      requires Valid()
      modifies b
      ensures b.text == Separated(u, language, options, old(b.text))
    {
      FixedStagesLoopFree();
      RunStage(b, DeduplicateSpace, u);
      RunStage(b, RemoveAsciiJunk, u);
      b.text := Trim(b.text);
      RunStage(b, padOp, u);
      if Has(options, Aggressive) {
        RunStage(b, AggressiveHyphenSplit, u);
      }
      RunProtect(b, u);
      RunStage(b, SeparateCommaInNumbers, u);
      RunStage(b, apostropheOp, u);
    }

    /** The stages of `operator()` after the period handling. */
    method FinishStages(b: Buffers, u: Classes)
      modifies b
      ensures b.text == Finished(u, options, old(b.text))
    {
      FixedStagesLoopFree();
      RunStage(b, DeduplicateSpace, u);
      b.text := Trim(b.text);
      RunStage(b, TrailingDotApostrophe, u);
      RunRestore(b, u);
      if !Has(options, NoEscape) {
        RunStage(b, EscapeSpecialChars, u);
      }
    }
  }
}
