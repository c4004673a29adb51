/** Generic sequence helpers shared by the deck pipeline and the snapshot chunkers. */
module Seqs {

  /** Concatenation of a sequence of sequences (Python's `sum(xs, [])` or `"".join(xs)`). */
  function Concat<T>(xs: seq<seq<T>>): seq<T>
  {
    if xs == [] then [] else Concat(xs[..|xs| - 1]) + xs[|xs| - 1]
  }

  lemma ConcatAppend<T>(xs: seq<seq<T>>, x: seq<T>)
    ensures Concat(xs + [x]) == Concat(xs) + x
  {
    assert (xs + [x])[..|xs|] == xs;
  }

  /** Concatenation distributes over `+` of the outer sequence. */
  lemma {:induction false} ConcatSplit<T>(xs: seq<seq<T>>, ys: seq<seq<T>>)
    ensures Concat(xs + ys) == Concat(xs) + Concat(ys)
  {
    if ys == [] {
      assert xs + ys == xs;
    } else {
      var ys' := ys[..|ys| - 1];
      assert xs + ys == (xs + ys') + [ys[|ys| - 1]];
      ConcatAppend(xs + ys', ys[|ys| - 1]);
      ConcatSplit(xs, ys');
      ConcatAppend(ys', ys[|ys| - 1]);
      assert ys == ys' + [ys[|ys| - 1]];
    }
  }

  lemma ConcatCons<T>(xs: seq<seq<T>>)
    requires xs != []
    ensures Concat(xs) == xs[0] + Concat(xs[1..])
  {
    assert xs == [xs[0]] + xs[1..];
    ConcatSplit([xs[0]], xs[1..]);
    assert Concat([xs[0]]) == Concat([xs[0]][..0]) + xs[0];
  }

  /** The first element of a flattening is the first element of its first group. */
  lemma FirstOfConcat<T>(xs: seq<seq<T>>)
    requires xs != [] && xs[0] != []
    ensures Concat(xs) != [] && Concat(xs)[0] == xs[0][0]
  {
    ConcatCons(xs);
  }

  /** An element of a group is an element of the flattening. */
  lemma {:induction false} ConcatMember<T>(xs: seq<seq<T>>, k: nat, j: nat)
    requires k < |xs| && j < |xs[k]|
    ensures xs[k][j] in Concat(xs)
  {
    var n := |xs| - 1;
    assert Concat(xs) == Concat(xs[..n]) + xs[n];
    if k < n {
      ConcatMember(xs[..n], k, j);
    } else {
      assert Concat(xs)[|Concat(xs[..n])| + j] == xs[k][j];
    }
  }

  /** Flattening twice equals flattening the flattened groups. */
  lemma {:induction false} ConcatOfConcats<T>(groups: seq<seq<seq<T>>>)
    ensures Concat(seq(|groups|, i requires 0 <= i < |groups| => Concat(groups[i]))) == Concat(Concat(groups))
  {
    var inner := seq(|groups|, i requires 0 <= i < |groups| => Concat(groups[i]));
    if groups != [] {
      var n := |groups| - 1;
      var init := groups[..n];
      var inner' := seq(|init|, i requires 0 <= i < |init| => Concat(init[i]));
      assert inner == inner' + [Concat(groups[n])];
      ConcatAppend(inner', Concat(groups[n]));
      ConcatOfConcats(init);
      assert groups == init + [groups[n]];
      ConcatAppend(init, groups[n]);
      ConcatSplit(Concat(init), groups[n]);
    }
  }

  /** `a` is obtained from `b` by deleting elements, keeping the order of the rest. */
  predicate IsSubsequence<T(==)>(a: seq<T>, b: seq<T>)
  {
    if a == [] then true
    else if b == [] then false
    else (a[0] == b[0] && IsSubsequence(a[1..], b[1..])) || IsSubsequence(a, b[1..])
  }

  /** Appending one element adds one to its count and leaves every other count alone. */
  lemma CountSnoc<T>(a: seq<T>, x: T, y: T)
    ensures multiset(a + [x])[y] == multiset(a)[y] + (if x == y then 1 else 0)
  {
    assert multiset(a + [x]) == multiset(a) + multiset{x};
  }

  /** The count of `y` in a non-empty sequence: its count before the last element,
      plus one when the last element is `y`. */
  lemma CountLast<T>(s: seq<T>, y: T)
    requires s != []
    ensures multiset(s)[y] == multiset(s[..|s| - 1])[y] + (if s[|s| - 1] == y then 1 else 0)
  {
    assert s == s[..|s| - 1] + [s[|s| - 1]];
    CountSnoc(s[..|s| - 1], s[|s| - 1], y);
  }

  /** A prefix one element longer is the shorter prefix and that element. */
  lemma TakeSnoc<T>(s: seq<T>, i: nat)
    requires i < |s|
    ensures s[..i + 1] == s[..i] + [s[i]]
  {
  }

  /** Four appends to an empty sequence give the four parts in order. */
  lemma SumOfFour<T>(x0: seq<T>, x1: seq<T>, x2: seq<T>, x3: seq<T>, x4: seq<T>,
                     f0: seq<T>, f1: seq<T>, f2: seq<T>, f3: seq<T>)
    requires x0 == [] && x1 == x0 + f0 && x2 == x1 + f1 && x3 == x2 + f2 && x4 == x3 + f3
    ensures x4 == f0 + f1 + f2 + f3
  {
    assert x1 == f0;
  }

  /** A suffix is its first element followed by the suffix one further on. */
  lemma DropCons<T>(s: seq<T>, i: nat)
    requires i < |s|
    ensures s[i..] == [s[i]] + s[i + 1..]
  {
  }

  /** A non-empty sequence is its prefix without the last element, then that element. */
  lemma LastSplit<T>(s: seq<T>)
    requires s != []
    ensures s == s[..|s| - 1] + [s[|s| - 1]]
  {
  }

  /** An element of a concatenation is an element of one of its two parts. */
  lemma InConcat<T>(a: seq<T>, b: seq<T>, x: T)
    ensures x in a + b <==> x in a || x in b
  {
  }

  /** Dropping the head of a sequence takes one copy of it out of the multiset. */
  lemma MultisetTail<T>(s: seq<T>)
    requires s != []
    ensures multiset(s[1..]) == multiset(s) - multiset{s[0]}
  {
    assert s == [s[0]] + s[1..];
  }
}
