/**
 * The pipeline combinators of `regex.hh`: `Noop`, `ChainOp`, `LoopOp` and the
 * `ReplaceOp` they are built from, all working on a pair of buffers: an
 * operation reads `text`, writes its result to `out`, and the combinators swap
 * the two buffers so that the next operation reads what the last one wrote.
 *
 * `Op` is the tree of combinators, `Eval` its meaning (what ends up in `out`),
 * and `Buffers` the two buffers with methods that run an `Op` the way the C++
 * templates do.  A `LoopOp` need not stop for every condition and body, so
 * `Eval` takes a bound `fuel` on the number of passes of every loop and
 * answers `None` when a loop has not stopped within it.
 */
module Regex {
  import opened Wrappers
  import opened CharClasses
  import opened Patterns

  datatype Op =
    | Noop
    | ReplaceOp(pattern: Pattern)
    | ChainOp(ops: seq<Op>)
    | LoopOp(initial: Op, condition: Pattern, operation: Op, finalize: Op)

  function Size(op: Op): (n: nat)
    ensures n >= 1
  {
    match op
    case Noop => 1
    case ReplaceOp(_) => 1
    case ChainOp(ops) => 1 + SizeAll(ops)
    case LoopOp(i, _, b, f) => 1 + Size(i) + Size(b) + Size(f)
  }

  function SizeAll(ops: seq<Op>): (n: nat)
    ensures n >= 1
    ensures ops != [] ==> n == Size(ops[0]) + SizeAll(ops[1..])
  {
    if ops == [] then 1 else Size(ops[0]) + SizeAll(ops[1..])
  }

  /** What `op` leaves in `out` when it starts with `text == s`. */
  function Eval(op: Op, u: Classes, s: seq<char>, fuel: nat): Option<seq<char>>
    decreases fuel, Size(op)
  {
    match op
    case Noop => Some(s)
    case ReplaceOp(p) => Some(Replace(p, u, s))
    case ChainOp(ops) => EvalChain(ops, u, s, fuel)
    case LoopOp(i, c, b, f) =>
      match Eval(i, u, s, fuel)
      case None => None
      case Some(w) =>
        match EvalLoop(c, b, u, w, fuel)
        case None => None
        case Some(w') => Eval(f, u, w', fuel)
  }

  /** `ChainOp<T, R...>`: `T` first, then the rest; `ChainOp<>` passes the text on. */
  function EvalChain(ops: seq<Op>, u: Classes, s: seq<char>, fuel: nat): Option<seq<char>>
    decreases fuel, SizeAll(ops)
  {
    if ops == [] then Some(s)
    else
      match Eval(ops[0], u, s, fuel)
      case None => None
      case Some(w) => EvalChain(ops[1..], u, w, fuel)
  }

  /** The `while (condition(text))` loop of `LoopOp`: the condition is evaluated before every pass. */
  function EvalLoop(c: Pattern, b: Op, u: Classes, w: seq<char>, fuel: nat): Option<seq<char>>
    decreases fuel, Size(b)
  {
    if !Search(c, u, w) then Some(w)
    else if fuel == 0 then None
    else
      match Eval(b, u, w, fuel - 1)
      case None => None
      case Some(w') => EvalLoop(c, b, u, w', fuel - 1)
  }

  /** More fuel never changes a result: what a pipeline computes does not depend on the bound. */
  lemma {:induction false} EvalMoreFuel(op: Op, u: Classes, s: seq<char>, f: nat, g: nat)
    requires f <= g && Eval(op, u, s, f).Some?
    ensures Eval(op, u, s, g) == Eval(op, u, s, f)
    decreases f, Size(op)
  {
    match op
    case Noop =>
    case ReplaceOp(_) =>
    case ChainOp(ops) =>
      EvalChainMoreFuel(ops, u, s, f, g);
    case LoopOp(i, c, b, fin) =>
      EvalMoreFuel(i, u, s, f, g);
      var w := Eval(i, u, s, f).value;
      EvalLoopMoreFuel(c, b, u, w, f, g);
      EvalMoreFuel(fin, u, EvalLoop(c, b, u, w, f).value, f, g);
  }

  lemma {:induction false} EvalChainMoreFuel(ops: seq<Op>, u: Classes, s: seq<char>, f: nat, g: nat)
    requires f <= g && EvalChain(ops, u, s, f).Some?
    ensures EvalChain(ops, u, s, g) == EvalChain(ops, u, s, f)
    decreases f, SizeAll(ops)
  {
    if ops != [] {
      EvalMoreFuel(ops[0], u, s, f, g);
      EvalChainMoreFuel(ops[1..], u, Eval(ops[0], u, s, f).value, f, g);
    }
  }

  lemma {:induction false} EvalLoopMoreFuel(c: Pattern, b: Op, u: Classes, w: seq<char>, f: nat, g: nat)
    requires f <= g && EvalLoop(c, b, u, w, f).Some?
    ensures EvalLoop(c, b, u, w, g) == EvalLoop(c, b, u, w, f)
    decreases f, Size(b)
  {
    if Search(c, u, w) {
      EvalMoreFuel(b, u, w, f - 1, g - 1);
      EvalLoopMoreFuel(c, b, u, Eval(b, u, w, f - 1).value, f - 1, g - 1);
    }
  }

  /** A pass of a loop whose condition holds. */
  lemma LoopPass(c: Pattern, b: Op, u: Classes, w: seq<char>, w': seq<char>, fuel: nat)
    requires Search(c, u, w) && fuel > 0 && Eval(b, u, w, fuel - 1) == Some(w')
    ensures EvalLoop(c, b, u, w, fuel) == EvalLoop(c, b, u, w', fuel - 1)
  {
  }

  /** Chaining composes: running `xs + ys` is running `xs`, then `ys` on its result. */
  lemma {:induction false} EvalChainAppend(xs: seq<Op>, ys: seq<Op>, u: Classes, s: seq<char>, fuel: nat)
    ensures EvalChain(xs + ys, u, s, fuel) ==
            match EvalChain(xs, u, s, fuel)
            case None => None
            case Some(w) => EvalChain(ys, u, w, fuel)
    decreases |xs|
  {
    if xs == [] {
      assert xs + ys == ys;
    } else {
      assert (xs + ys)[0] == xs[0];
      assert (xs + ys)[1..] == xs[1..] + ys;
      match Eval(xs[0], u, s, fuel)
      case None =>
      case Some(w) => EvalChainAppend(xs[1..], ys, u, w, fuel);
    }
  }

  /** A chain nested as the first member of another chain behaves as if spliced in. */
  lemma NestedChain(xs: seq<Op>, ys: seq<Op>, u: Classes, s: seq<char>, fuel: nat)
    ensures Eval(ChainOp([ChainOp(xs)] + ys), u, s, fuel) == Eval(ChainOp(xs + ys), u, s, fuel)
  {
    var outer := [ChainOp(xs)] + ys;
    assert outer[0] == ChainOp(xs) && outer[1..] == ys;
    assert Eval(ChainOp(outer), u, s, fuel) == EvalChain(outer, u, s, fuel);
    assert Eval(ChainOp(xs), u, s, fuel) == EvalChain(xs, u, s, fuel);
    EvalChainAppend(xs, ys, u, s, fuel);
  }

  /** Operations without a loop always finish, whatever the fuel. */
  predicate LoopFree(op: Op)
    decreases Size(op)
  {
    match op
    case Noop => true
    case ReplaceOp(_) => true
    case ChainOp(ops) => AllLoopFree(ops)
    case LoopOp(_, _, _, _) => false
  }

  predicate AllLoopFree(ops: seq<Op>)
    decreases SizeAll(ops)
  {
    ops == [] || (LoopFree(ops[0]) && AllLoopFree(ops[1..]))
  }

  lemma {:induction false} LoopFreeFinishes(op: Op, u: Classes, s: seq<char>, fuel: nat)
    requires LoopFree(op)
    ensures Eval(op, u, s, fuel).Some?
    decreases Size(op), 1
  {
    if op.ChainOp? {
      ChainLoopFreeFinishes(op.ops, u, s, fuel);
    }
  }

  lemma {:induction false} ChainLoopFreeFinishes(ops: seq<Op>, u: Classes, s: seq<char>, fuel: nat)
    requires AllLoopFree(ops)
    ensures EvalChain(ops, u, s, fuel).Some?
    decreases SizeAll(ops), 0
  {
    if ops != [] {
      LoopFreeFinishes(ops[0], u, s, fuel);
      ChainLoopFreeFinishes(ops[1..], u, Eval(ops[0], u, s, fuel).value, fuel);
    }
  }

  /** The `text`/`out` buffer pair every operation works on. */
  class Buffers {
    var text: seq<char>
    var out: seq<char>

    constructor (initial: seq<char>)
      ensures text == initial && out == []
    {
      text := initial;
      out := [];
    }

    /** `std::swap(text, out)`. */
    method Swap()
      modifies this
      ensures text == old(out) && out == old(text)
    {
      text, out := out, text;
    }

    /** `ReplaceOp::operator()`: `out` gets the rewritten text, `text` is read only. */
    method RunReplace(p: Pattern, u: Classes)
      modifies this
      ensures out == Replace(p, u, old(text)) && text == old(text)
    {
      out := Replace(p, u, text);
    }

    /** Runs `op` on `text`; the result is left in `out`, and `text` holds
        whatever intermediate buffer the last swap left there (for `Noop`,
        the old `out`). */
    method Run(op: Op, u: Classes, ghost fuel: nat)
      requires Eval(op, u, text, fuel).Some?
      modifies this
      ensures Eval(op, u, old(text), fuel) == Some(out)
      ensures op.Noop? ==> text == old(out)
      decreases fuel, Size(op), 1
    {
      match op
      case Noop =>
        Swap();
      case ReplaceOp(p) =>
        RunReplace(p, u);
      case ChainOp(ops) =>
        RunChain(ops, u, fuel);
      case LoopOp(_, _, _, _) =>
        RunLoop(op, u, fuel);
    }

    /** `ChainOp<>` swaps; `ChainOp<T, R...>` runs `T`, swaps, and runs the rest. */
    method RunChain(ops: seq<Op>, u: Classes, ghost fuel: nat)
      requires EvalChain(ops, u, text, fuel).Some?
      modifies this
      ensures EvalChain(ops, u, old(text), fuel) == Some(out)
      decreases fuel, SizeAll(ops), 1
    {
      if ops == [] {
        Swap();
      } else {
        Run(ops[0], u, fuel);
        Swap();
        RunChain(ops[1..], u, fuel);
      }
    }

    /** `LoopOp::operator()`: `initial`, swap, then `operation` and a swap while
        `condition` holds of `text`, then `finalize`. */
    method RunLoop(op: Op, u: Classes, ghost fuel: nat)
      requires op.LoopOp? && Eval(op, u, text, fuel).Some?
      modifies this
      ensures Eval(op, u, old(text), fuel) == Some(out)
      decreases fuel, Size(op), 0
    {
      Run(op.initial, u, fuel);
      Swap();
      RunWhile(op.condition, op.operation, u, fuel);
      Run(op.finalize, u, fuel);
    }

    /** The `while` loop of `LoopOp::operator()`; its result is left in `text`. */
    method RunWhile(c: Pattern, b: Op, u: Classes, ghost fuel: nat)
      requires EvalLoop(c, b, u, text, fuel).Some?
      modifies this
      ensures EvalLoop(c, b, u, old(text), fuel) == Some(text)
      decreases fuel, Size(b), 2
    {
      ghost var f: nat := fuel;
      while Search(c, u, text)
        invariant f <= fuel
        invariant EvalLoop(c, b, u, text, f) == EvalLoop(c, b, u, old(text), fuel)
        invariant EvalLoop(c, b, u, text, f).Some?
        decreases f
      {
        Run(b, u, f - 1);
        Swap();
        f := f - 1;
      }
    }
  }
}
