/**
 * The tokenizer's option flags (`Tokenizer::Options` and its `|`, `|=`
 * operators in src/tokenizer.hh).  The enum is converted through
 * `unsigned int`, a 32-bit word, for the bitwise OR; a word is modelled as a
 * natural number below 2^32 and its bits by halving.
 */
module Options {

  const WordLimit: nat := 0x1_0000_0000

  type Options = x: nat | x < WordLimit

  /** Split dashes between letters and digits. */
  const Aggressive: Options := 1
  /** Leave `&`, `|`, `<`, `>`, `'`, `"`, `[`, `]` unescaped. */
  const NoEscape: Options := 2
  /** The constructor's default: `static_cast<Options>(0)`. */
  const Default: Options := 0

  function Pow2(n: nat): (r: nat)
    ensures r >= 1
  {
    if n == 0 then 1 else 2 * Pow2(n - 1)
  }

  /** Bit `i` of `x`, counting from the least significant bit. */
  predicate Bit(x: nat, i: nat)
    decreases i
  {
    if i == 0 then x % 2 == 1 else Bit(x / 2, i - 1)
  }

  /** Bitwise OR of two naturals, one bit at a time from the lowest. */
  function BitOr(x: nat, y: nat): nat
    decreases x + y
  {
    if x == 0 then y
    else if y == 0 then x
    else 2 * BitOr(x / 2, y / 2) + (if x % 2 == 1 || y % 2 == 1 then 1 else 0)
  }

  /** Bitwise AND of two naturals, one bit at a time from the lowest. */
  function BitAnd(x: nat, y: nat): nat
    decreases x + y
  {
    if x == 0 || y == 0 then 0
    else 2 * BitAnd(x / 2, y / 2) + (if x % 2 == 1 && y % 2 == 1 then 1 else 0)
  }

  lemma {:induction false} ZeroHasNoBit(i: nat)
    ensures !Bit(0, i)
  {
    if i > 0 {
      ZeroHasNoBit(i - 1);
    }
  }

  /** Halving undoes appending a low bit. */
  lemma Halve(q: nat, b: nat)
    requires b < 2
    ensures (2 * q + b) / 2 == q && (2 * q + b) % 2 == b
  {
  }

  lemma {:induction false} OrBit(x: nat, y: nat, i: nat)
    ensures Bit(BitOr(x, y), i) <==> Bit(x, i) || Bit(y, i)
    decreases i
  {
    if x == 0 || y == 0 {
      ZeroHasNoBit(i);
    } else {
      Halve(BitOr(x / 2, y / 2), if x % 2 == 1 || y % 2 == 1 then 1 else 0);
      if i > 0 {
        OrBit(x / 2, y / 2, i - 1);
      }
    }
  }

  lemma {:induction false} AndBit(x: nat, y: nat, i: nat)
    ensures Bit(BitAnd(x, y), i) <==> Bit(x, i) && Bit(y, i)
    decreases i
  {
    if x == 0 || y == 0 {
      ZeroHasNoBit(i);
    } else {
      Halve(BitAnd(x / 2, y / 2), if x % 2 == 1 && y % 2 == 1 then 1 else 0);
      if i > 0 {
        AndBit(x / 2, y / 2, i - 1);
      }
    }
  }

  /** OR of two `n`-bit numbers is an `n`-bit number: `operator|` stays within the word. */
  lemma {:induction false} OrBelow(x: nat, y: nat, n: nat)
    requires x < Pow2(n) && y < Pow2(n)
    ensures BitOr(x, y) < Pow2(n)
    decreases n
  {
    if x != 0 && y != 0 {
      OrBelow(x / 2, y / 2, n - 1);
    }
  }

  lemma OrBits(x: nat, y: nat)
    ensures forall i: nat :: Bit(BitOr(x, y), i) <==> Bit(x, i) || Bit(y, i)
  {
    forall i: nat
      ensures Bit(BitOr(x, y), i) <==> Bit(x, i) || Bit(y, i)
    {
      OrBit(x, y, i);
    }
  }

  lemma WordIsPow2()
    ensures Pow2(32) == WordLimit
  {
    assert Pow2(4) == 16;
    assert Pow2(8) == 0x100;
    assert Pow2(12) == 0x1000;
    assert Pow2(16) == 0x1_0000;
    assert Pow2(20) == 0x10_0000;
    assert Pow2(24) == 0x100_0000;
    assert Pow2(28) == 0x1000_0000;
  }

  /** `operator|`: a 32-bit word whose bit `i` is set exactly when it is set in `x` or in `y`. */
  function Or(x: Options, y: Options): (r: Options)
    ensures forall i: nat :: Bit(r, i) <==> Bit(x, i) || Bit(y, i)
  {
    WordIsPow2();
    OrBelow(x, y, 32);
    OrBits(x, y);
    BitOr(x, y)
  }

  /** `options_ & flag`, read as a condition. */
  predicate Has(x: Options, flag: Options) {
    BitAnd(x, flag) != 0
  }

  /** The aggressive flag tests bit 0 of the word. */
  lemma HasAggressive(x: Options)
    ensures Has(x, Aggressive) <==> Bit(x, 0)
  {
    if x != 0 {
      assert BitAnd(x, Aggressive) == 2 * BitAnd(x / 2, 0) + x % 2;
    }
  }

  /** The no-escape flag tests bit 1 of the word. */
  lemma HasNoEscape(x: Options)
    ensures Has(x, NoEscape) <==> Bit(x, 1)
  {
    if x != 0 {
      assert BitAnd(x, NoEscape) == 2 * BitAnd(x / 2, 1);
    }
  }

  /** The two flags are single, different bits. */
  lemma {:induction false} FlagsAreDistinctBits(i: nat)
    ensures Bit(Aggressive, i) <==> i == 0
    ensures Bit(NoEscape, i) <==> i == 1
  {
    if i > 1 {
      ZeroHasNoBit(i - 1);
      ZeroHasNoBit(i - 2);
    }
  }

  /** With the default options neither stage switch is on. */
  lemma DefaultHasNoFlag()
    ensures !Has(Default, Aggressive) && !Has(Default, NoEscape)
  {
  }

  /** A combination of options has a flag exactly when one of its parts has it. */
  lemma OrHas(x: Options, y: Options)
    ensures Has(Or(x, y), Aggressive) <==> Has(x, Aggressive) || Has(y, Aggressive)
    ensures Has(Or(x, y), NoEscape) <==> Has(x, NoEscape) || Has(y, NoEscape)
  {
    HasAggressive(x);
    HasAggressive(y);
    HasAggressive(Or(x, y));
    HasNoEscape(x);
    HasNoEscape(y);
    HasNoEscape(Or(x, y));
  }

  /** A variable of type `Options`, updated in place by `operator|=`. */
  class OptionsVar {
    var value: Options

    constructor(init: Options)
      ensures value == init
    {
      value := init;
    }

    /** `x |= y`: stores `x | y` into `x` and returns the new `x`. */
    method OrAssign(y: Options) returns (r: Options)
      modifies this
      ensures value == Or(old(value), y) && r == value
      ensures forall i: nat :: Bit(value, i) <==> Bit(old(value), i) || Bit(y, i)
    {
      value := Or(value, y);
      r := value;
    }
  }
}
