/** The in-place list shuffle the quiz uses twice: once on the question bank and
    once on a copy of a question's answers. It is the Fisher–Yates pass of the
    JVM's `Collections.shuffle`: for each position `i` from the last down to 1,
    swap position `i` with a position drawn uniformly from `0 .. i`.
    The random generator is replaced by a sequence of draws supplied by the
    caller; a draw is reduced modulo the bound it stands for, and a missing draw
    reads as 0. Over all draw sequences the result ranges over exactly the
    permutations of the input (`Shuffle`'s contract and `ShuffleReachesEvery`). */
module Shuffling {

  /** Exchange the elements at positions `i` and `j`. */
  function Swap<T>(s: seq<T>, i: nat, j: nat): (r: seq<T>)
    requires i < |s| && j < |s|
    ensures |r| == |s| && r[i] == s[j] && r[j] == s[i]
    ensures multiset(r) == multiset(s)
  {
    s[i := s[j]][j := s[i]]
  }

  /** The next random index below `bound`, taken from the head of `draws`. */
  function Draw(draws: seq<nat>, bound: nat): (j: nat)
    requires bound > 0
    ensures j < bound
    ensures |draws| > 0 && draws[0] < bound ==> j == draws[0]
  {
    if |draws| == 0 then 0 else draws[0] % bound
  }

  /** The draws that remain once the head has been used. */
  function Rest(draws: seq<nat>): seq<nat>
  {
    if |draws| == 0 then [] else draws[1..]
  }

  /** Shuffle a whole list, as `MutableList.shuffle()` does. The first step
      swaps the last position with a drawn one; every later step works below
      the last position, so the pass is the pass over the prefix followed by
      the element that the first step put last. The result is a permutation
      of the input. */
  function Shuffle<T>(s: seq<T>, draws: seq<nat>): (r: seq<T>)
    ensures |r| == |s|
    ensures multiset(r) == multiset(s)
    decreases |s|
  {
    if |s| <= 1 then s
    else
      var last := |s| - 1;
      var s' := Swap(s, last, Draw(draws, |s|));
      LastSplit(s');
      Shuffle(s'[..last], Rest(draws)) + [s'[last]]
  }

  /** A non-empty sequence is its prefix followed by its last element. */
  lemma LastSplit<T>(s: seq<T>)
    requires |s| > 0
    ensures s == s[..|s| - 1] + [s[|s| - 1]]
    ensures multiset(s) == multiset(s[..|s| - 1]) + multiset{s[|s| - 1]}
  {
  }

  /** The position of the first occurrence of `x` in `s`. */
  function IndexOf<T(==)>(s: seq<T>, x: T): (k: nat)
    requires x in s
    ensures k < |s| && s[k] == x
  {
    if s[0] == x then 0 else 1 + IndexOf(s[1..], x)
  }

  /** Draws that make `Shuffle(s, _)` produce `t` whenever `t` is a
      permutation of `s`: at each step, draw the position where the element
      wanted last currently sits (position 0 when it is nowhere). */
  function DrawsFor<T(==)>(s: seq<T>, t: seq<T>): (draws: seq<nat>)
    decreases |s|
  {
    if |s| <= 1 || |s| != |t| then []
    else
      var last := |s| - 1;
      var j := if t[last] in s then IndexOf(s, t[last]) else 0;
      [j] + DrawsFor(Swap(s, last, j)[..last], t[..last])
  }

  /** Permutations have the same length. */
  lemma PermutationLength<T>(s: seq<T>, t: seq<T>)
    requires multiset(s) == multiset(t)
    ensures |s| == |t|
  {
    assert |multiset(s)| == |s| && |multiset(t)| == |t|;
  }

  /** Putting the wanted last element in place leaves prefixes that are
      permutations of each other. */
  lemma StepTowards<T>(s: seq<T>, t: seq<T>, j: nat)
    requires 1 < |s| == |t|
    requires multiset(s) == multiset(t)
    requires j < |s| && s[j] == t[|t| - 1]
    ensures multiset(Swap(s, |s| - 1, j)[..|s| - 1]) == multiset(t[..|t| - 1])
  {
    var s' := Swap(s, |s| - 1, j);
    LastSplit(s');
    LastSplit(t);
    Cancel(multiset(s'[..|s| - 1]), multiset(t[..|t| - 1]), t[|t| - 1]);
  }

  /** One occurrence of the same element can be taken off both sides. */
  lemma Cancel<T>(a: multiset<T>, b: multiset<T>, x: T)
    requires a + multiset{x} == b + multiset{x}
    ensures a == b
  {
    assert a == (a + multiset{x}) - multiset{x};
    assert b == (b + multiset{x}) - multiset{x};
  }

  /** The first step of a shuffle uses the head draw `j`. */
  lemma ShuffleStep<T>(s: seq<T>, j: nat, rest: seq<nat>)
    requires 1 < |s| && j < |s|
    ensures Shuffle(s, [j] + rest)
         == Shuffle(Swap(s, |s| - 1, j)[..|s| - 1], rest) + [Swap(s, |s| - 1, j)[|s| - 1]]
  {
    assert Draw([j] + rest, |s|) == j;
    assert Rest([j] + rest) == rest;
  }

  /** Where the element wanted last sits in `s`: the head draw `DrawsFor`
      picks, after which the prefixes are permutations of each other. */
  lemma WantedIndex<T>(s: seq<T>, t: seq<T>) returns (j: nat)
    requires 1 < |s| == |t|
    requires multiset(s) == multiset(t)
    ensures j < |s| && s[j] == t[|t| - 1]
    ensures DrawsFor(s, t) == [j] + DrawsFor(Swap(s, |s| - 1, j)[..|s| - 1], t[..|t| - 1])
    ensures multiset(Swap(s, |s| - 1, j)[..|s| - 1]) == multiset(t[..|t| - 1])
  {
    assert t[|t| - 1] in multiset(s) by {
      assert t[|t| - 1] in t;
    }
    j := IndexOf(s, t[|t| - 1]);
    StepTowards(s, t, j);
  }

  /** A shuffle whose head draw puts the wanted element last, and whose
      remaining draws produce the wanted prefix, produces the wanted sequence. */
  lemma Assemble<T>(s: seq<T>, t: seq<T>, j: nat, rest: seq<nat>)
    requires 1 < |s| == |t| && j < |s| && s[j] == t[|t| - 1]
    requires Shuffle(Swap(s, |s| - 1, j)[..|s| - 1], rest) == t[..|t| - 1]
    ensures Shuffle(s, [j] + rest) == t
  {
    ShuffleStep(s, j, rest);
    LastSplit(t);
  }

  /** Sequences of at most one element that are permutations are equal. */
  lemma SmallPermutation<T>(s: seq<T>, t: seq<T>)
    requires |s| <= 1 && multiset(s) == multiset(t)
    ensures s == t
  {
    PermutationLength(s, t);
    if |s| == 1 {
      assert s == [s[0]] && t == [t[0]];
      assert multiset{s[0]} == multiset{t[0]};
      assert s[0] in multiset{t[0]};
    }
  }

  /** Every permutation of `s` is a possible shuffle of `s`: together with the
      contract of `Shuffle`, the shuffles of `s` are exactly its permutations. */
  lemma {:induction false} ShuffleReachesEvery<T>(s: seq<T>, t: seq<T>)
    requires multiset(s) == multiset(t)
    ensures Shuffle(s, DrawsFor(s, t)) == t
    decreases |s|
  {
    PermutationLength(s, t);
    if |s| <= 1 {
      SmallPermutation(s, t);
    } else {
      var j := WantedIndex(s, t);
      var prefix := Swap(s, |s| - 1, j)[..|s| - 1];
      ShuffleReachesEvery(prefix, t[..|t| - 1]);
      Assemble(s, t, j, DrawsFor(prefix, t[..|t| - 1]));
    }
  }
}
