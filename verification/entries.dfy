/** The entries the codec sorts and merges: a leaf is a character with its
    number of occurrences, a group is the merge of two earlier entries and
    carries the sum of their counts. */
module Entries {

  /** A code word; `true` stands for the character '1', `false` for '0'. */
  type Code = seq<bool>

  datatype Entry =
    | Leaf(ch: char, count: nat)
    | Group(first: Entry, second: Entry, count: nat)

  /** The characters at the leaves below `e`, with repetition. */
  function Leaves(e: Entry): multiset<char>
  {
    match e
    case Leaf(c, _) => multiset{c}
    case Group(a, b, _) => Leaves(a) + Leaves(b)
  }

  /** The characters at the leaves below every entry of `xs`. */
  function LeavesOf(xs: seq<Entry>): multiset<char>
  {
    if xs == [] then multiset{} else Leaves(xs[0]) + LeavesOf(xs[1..])
  }

  /** The sum of the counts of the entries of `xs`. */
  function TotalCount(xs: seq<Entry>): nat
  {
    if xs == [] then 0 else xs[0].count + TotalCount(xs[1..])
  }

  predicate AllLeaves(xs: seq<Entry>)
  {
    forall e :: e in xs ==> e.Leaf?
  }

  /** Every group below `e` is counted the sum of its two children. */
  predicate WellCounted(e: Entry)
  {
    match e
    case Leaf(_, _) => true
    case Group(a, b, n) => WellCounted(a) && WellCounted(b) && n == a.count + b.count
  }

  lemma {:induction false} TotalsOfConcat(xs: seq<Entry>, ys: seq<Entry>)
    ensures TotalCount(xs + ys) == TotalCount(xs) + TotalCount(ys)
    ensures LeavesOf(xs + ys) == LeavesOf(xs) + LeavesOf(ys)
  {
    if xs == [] {
      assert xs + ys == ys;
    } else {
      assert (xs + ys)[1..] == xs[1..] + ys;
      TotalsOfConcat(xs[1..], ys);
    }
  }

  /** Counts and leaves do not depend on the order of the entries. */
  lemma {:induction false} TotalsOfPermutation(xs: seq<Entry>, ys: seq<Entry>)
    requires multiset(xs) == multiset(ys)
    ensures TotalCount(xs) == TotalCount(ys)
    ensures LeavesOf(xs) == LeavesOf(ys)
    decreases |xs|
  {
    if xs == [] {
      assert |ys| == |multiset(ys)| == 0;
    } else {
      var x := xs[0];
      assert x in multiset(ys);
      var i :| 0 <= i < |ys| && ys[i] == x;
      var rest := ys[..i] + ys[i + 1..];
      assert ys == ys[..i] + [x] + ys[i + 1..];
      assert multiset(ys) == multiset{x} + multiset(rest);
      assert xs == [x] + xs[1..];
      assert multiset(xs) == multiset{x} + multiset(xs[1..]);
      CancelOne(multiset(xs[1..]), multiset(rest), x);
      TotalsOfPermutation(xs[1..], rest);
      TotalsWithout(ys, i);
    }
  }

  /** Taking out the entry at `i` takes out its count and its leaves. */
  lemma {:induction false} TotalsWithout(ys: seq<Entry>, i: nat)
    requires i < |ys|
    ensures TotalCount(ys) == ys[i].count + TotalCount(ys[..i] + ys[i + 1..])
    ensures LeavesOf(ys) == Leaves(ys[i]) + LeavesOf(ys[..i] + ys[i + 1..])
  {
    var rest := ys[..i] + ys[i + 1..];
    if i == 0 {
      assert rest == ys[1..];
    } else {
      var tail := ys[1..];
      TotalsWithout(tail, i - 1);
      assert rest[0] == ys[0];
      assert rest[1..] == tail[..i - 1] + tail[i..];
      assert TotalCount(rest) == ys[0].count + TotalCount(rest[1..]);
      assert LeavesOf(rest) == Leaves(ys[0]) + LeavesOf(rest[1..]);
    }
  }

  lemma CancelOne(a: multiset<Entry>, b: multiset<Entry>, x: Entry)
    requires multiset{x} + a == multiset{x} + b
    ensures a == b
  {
    assert forall e :: a[e] == (multiset{x} + a)[e] - multiset{x}[e];
    assert forall e :: b[e] == (multiset{x} + b)[e] - multiset{x}[e];
  }

  /** Every entry's leaves are among the leaves of a list holding it. */
  lemma {:induction false} LeavesOfMembers(xs: seq<Entry>)
    ensures forall e :: e in xs ==> Leaves(e) <= LeavesOf(xs)
  {
    if xs != [] {
      LeavesOfMembers(xs[1..]);
      assert forall e :: e in xs ==> e == xs[0] || e in xs[1..];
    }
  }

  lemma TotalsOfSingleton(e: Entry)
    ensures TotalCount([e]) == e.count
    ensures LeavesOf([e]) == Leaves(e)
  {
  }

  /** Every entry stands for at least one leaf, and a group for at least
      two. */
  lemma {:induction false} LeavesCount(e: Entry)
    ensures |Leaves(e)| >= 1
    ensures e.Group? ==> |Leaves(e)| >= 2
  {
    match e
    case Leaf(_, _) =>
    case Group(a, b, _) =>
      LeavesCount(a);
      LeavesCount(b);
  }

  /** A list has no more entries than leaves. */
  lemma {:induction false} LeavesOfCount(xs: seq<Entry>)
    ensures |LeavesOf(xs)| >= |xs|
  {
    if xs != [] {
      LeavesCount(xs[0]);
      LeavesOfCount(xs[1..]);
    }
  }

  /** The only list whose leaves are the single character `c` is one leaf
      of `c`. */
  lemma OneLetterList(xs: seq<Entry>, c: char)
    requires LeavesOf(xs) == multiset{c}
    ensures |xs| == 1 && xs[0] == Leaf(c, xs[0].count)
  {
    LeavesOfCount(xs);
    assert xs != [];
    var e := xs[0];
    assert xs == [e];
    TotalsOfSingleton(e);
    LeavesCount(e);
    assert e.ch in Leaves(e);
  }
}
