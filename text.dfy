/** Sequence helpers used to state what the rewrite stages do. */
module Text {

  /** Rewrites every character independently and concatenates the results. */
  function FlatMap(f: char -> seq<char>, s: seq<char>): seq<char>
  {
    if s == [] then [] else f(s[0]) + FlatMap(f, s[1..])
  }

  lemma {:induction false} FlatMapAppend(f: char -> seq<char>, a: seq<char>, b: seq<char>)
    ensures FlatMap(f, a + b) == FlatMap(f, a) + FlatMap(f, b)
  {
    if a == [] {
      assert a + b == b;
    } else {
      assert (a + b)[0] == a[0];
      assert (a + b)[1..] == a[1..] + b;
      FlatMapAppend(f, a[1..], b);
    }
  }

  /** Two character-wise rewrites in a row are one character-wise rewrite. */
  lemma {:induction false} FlatMapFlatMap(f: char -> seq<char>, g: char -> seq<char>, s: seq<char>)
    ensures FlatMap(g, FlatMap(f, s)) == FlatMap(c => FlatMap(g, f(c)), s)
  {
    if s != [] {
      FlatMapAppend(g, f(s[0]), FlatMap(f, s[1..]));
      FlatMapFlatMap(f, g, s[1..]);
    }
  }

  /** Everything but the blank ' '. */
  predicate NonBlank(c: char) { c != ' ' }

  /** The characters of `s` that satisfy `keep`, in order. */
  function Filter(keep: char -> bool, s: seq<char>): (r: seq<char>)
    ensures |r| <= |s|
    ensures forall k | 0 <= k < |r| :: keep(r[k])
  {
    if s == [] then [] else (if keep(s[0]) then [s[0]] else []) + Filter(keep, s[1..])
  }

  lemma {:induction false} FilterAppend(keep: char -> bool, a: seq<char>, b: seq<char>)
    ensures Filter(keep, a + b) == Filter(keep, a) + Filter(keep, b)
  {
    if a == [] {
      assert a + b == b;
    } else {
      assert (a + b)[0] == a[0];
      assert (a + b)[1..] == a[1..] + b;
      FilterAppend(keep, a[1..], b);
    }
  }

  lemma FilterSplit(keep: char -> bool, s: seq<char>, n: nat)
    requires n <= |s|
    ensures Filter(keep, s) == Filter(keep, s[..n]) + Filter(keep, s[n..])
  {
    assert s == s[..n] + s[n..];
    FilterAppend(keep, s[..n], s[n..]);
  }

  /** `s` contains `w` at position `i`. */
  predicate OccursAt(w: seq<char>, s: seq<char>, i: int) {
    0 <= i && i + |w| <= |s| && s[i..i + |w|] == w
  }

  /** `s` does not contain `w` anywhere. */
  predicate Free(w: seq<char>, s: seq<char>) {
    forall i | 0 <= i <= |s| :: !OccursAt(w, s, i)
  }

  /** The number of occurrences of character `c` in `s`. */
  function Count(c: char, s: seq<char>): nat
  {
    if s == [] then 0 else (if s[0] == c then 1 else 0) + Count(c, s[1..])
  }

  lemma {:induction false} CountAppend(c: char, a: seq<char>, b: seq<char>)
    ensures Count(c, a + b) == Count(c, a) + Count(c, b)
  {
    if a == [] {
      assert a + b == b;
    } else {
      assert (a + b)[0] == a[0];
      assert (a + b)[1..] == a[1..] + b;
      CountAppend(c, a[1..], b);
    }
  }

  lemma CountSplit(c: char, s: seq<char>, n: nat)
    requires n <= |s|
    ensures Count(c, s) == Count(c, s[..n]) + Count(c, s[n..])
  {
    assert s == s[..n] + s[n..];
    CountAppend(c, s[..n], s[n..]);
  }

  lemma {:induction false} CountAbsent(c: char, s: seq<char>)
    requires c !in s
    ensures Count(c, s) == 0
  {
    if s != [] {
      assert forall x | x in s[1..] :: x in s;
      CountAbsent(c, s[1..]);
    }
  }
}
