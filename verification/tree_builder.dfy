/** The merge loop that turns the sorted frequency table into a binary
    list: at most two entries whose groups nest every leaf. */
module TreeBuilder {
  import opened Entries
  import opened CanonicalSort
  import opened Frequency

  /** The group that merges the last two entries. It stands for exactly
      what the two entries stood for: the counts and the leaves of the list
      are those of the entries it keeps plus those of the group, and it is
      counted the sum of its children whenever they are. */
  function LastPair(alpha: seq<Entry>): (g: Entry)
    requires |alpha| >= 2
    ensures g.Group? && g.first == alpha[|alpha| - 2] && g.second == alpha[|alpha| - 1]
    ensures TotalCount(alpha[..|alpha| - 2]) + g.count == TotalCount(alpha)
    ensures LeavesOf(alpha[..|alpha| - 2]) + Leaves(g) == LeavesOf(alpha)
    ensures WellCounted(g) <==> WellCounted(alpha[|alpha| - 2]) && WellCounted(alpha[|alpha| - 1])
  {
    var a, b := alpha[|alpha| - 2], alpha[|alpha| - 1];
    var g := Group(a, b, a.count + b.count);
    PairTotals(alpha, g);
    g
  }

  /** One pass of the merge loop: the last two entries are replaced by one
      group holding them, and the list is sorted again. */
  function MergeLastTwo(alpha: seq<Entry>): (r: seq<Entry>)
    requires |alpha| >= 2
    ensures |r| == |alpha| - 1
    ensures multiset(r) == multiset(alpha[..|alpha| - 2]) + multiset{LastPair(alpha)}
    ensures Canonical(r)
    ensures TotalCount(r) == TotalCount(alpha)
    ensures LeavesOf(r) == LeavesOf(alpha)
    ensures (forall e :: e in alpha ==> WellCounted(e)) ==> forall e :: e in r ==> WellCounted(e)
  {
    var r := SortedAlphabet(alpha[..|alpha| - 2] + [LastPair(alpha)]);
    MergeKeepsTotals(alpha, r);
    r
  }

  lemma MergeKeepsTotals(alpha: seq<Entry>, r: seq<Entry>)
    requires |alpha| >= 2
    requires multiset(r) == multiset(alpha[..|alpha| - 2] + [LastPair(alpha)])
    ensures |r| == |alpha| - 1
    ensures multiset(r) == multiset(alpha[..|alpha| - 2]) + multiset{LastPair(alpha)}
    ensures TotalCount(r) == TotalCount(alpha)
    ensures LeavesOf(r) == LeavesOf(alpha)
    ensures (forall e :: e in alpha ==> WellCounted(e)) ==> forall e :: e in r ==> WellCounted(e)
  {
    var kept, node := alpha[..|alpha| - 2], LastPair(alpha);
    assert |r| == |multiset(r)| == |kept + [node]|;
    TotalsOfPermutation(r, kept + [node]);
    TotalsOfConcat(kept, [node]);
    TotalsOfSingleton(node);
    MergeKeepsWellCounted(alpha, kept, node, r);
  }

  /** The last two entries contribute what a group of the two, counted the
      sum of their counts, does. */
  lemma PairTotals(alpha: seq<Entry>, g: Entry)
    requires |alpha| >= 2
    requires g == Group(alpha[|alpha| - 2], alpha[|alpha| - 1], alpha[|alpha| - 2].count + alpha[|alpha| - 1].count)
    ensures TotalCount(alpha) == TotalCount(alpha[..|alpha| - 2]) + g.count
    ensures LeavesOf(alpha) == LeavesOf(alpha[..|alpha| - 2]) + Leaves(g)
  {
    var n := |alpha|;
    var a, b := alpha[n - 2], alpha[n - 1];
    assert alpha == alpha[..n - 2] + ([a] + [b]);
    TotalsOfConcat(alpha[..n - 2], [a] + [b]);
    TotalsOfConcat([a], [b]);
    TotalsOfSingleton(a);
    TotalsOfSingleton(b);
  }

  lemma MergeKeepsWellCounted(alpha: seq<Entry>, kept: seq<Entry>, node: Entry, r: seq<Entry>)
    requires |alpha| >= 2 && kept == alpha[..|alpha| - 2]
    requires node == LastPair(alpha)
    requires multiset(r) == multiset(kept + [node])
    ensures (forall e :: e in alpha ==> WellCounted(e)) ==> forall e :: e in r ==> WellCounted(e)
  {
    if forall e :: e in alpha ==> WellCounted(e) {
      forall e | e in r ensures WellCounted(e) {
        assert e in multiset(kept + [node]);
        assert e in kept + [node];
        if e != node {
          assert e in kept;
        }
      }
    }
  }

  /** The merge loop: while more than two entries remain, merge the last two. */
  function BuildTree(alpha: seq<Entry>): (r: seq<Entry>)
    ensures |r| == if |alpha| <= 2 then |alpha| else 2
    ensures TotalCount(r) == TotalCount(alpha)
    ensures LeavesOf(r) == LeavesOf(alpha)
    ensures Canonical(alpha) ==> Canonical(r)
    ensures (forall e :: e in alpha ==> WellCounted(e)) ==> forall e :: e in r ==> WellCounted(e)
    decreases |alpha|
  {
    if |alpha| <= 2 then alpha else BuildTree(MergeLastTwo(alpha))
  }

  /** `binary_list`: the merge loop run on the sorted frequency table of `text`. */
  function BinaryList(text: string): (r: seq<Entry>)
    ensures |r| == if |FrequencyAlphabet(text)| <= 2 then |FrequencyAlphabet(text)| else 2
    ensures forall c :: LeavesOf(r)[c] == if c in text then 1 else 0
    ensures TotalCount(r) == |text|
    ensures Canonical(r)
    ensures forall e :: e in r ==> WellCounted(e)
  {
    var alpha := FrequencyAlphabet(text);
    var sorted := SortedAlphabet(alpha);
    SortedFrequencies(alpha, sorted);
    BuildTree(sorted)
  }

  lemma SortedFrequencies(alpha: seq<Entry>, sorted: seq<Entry>)
    requires AllLeaves(alpha) && multiset(sorted) == multiset(alpha)
    ensures |sorted| == |alpha|
    ensures TotalCount(sorted) == TotalCount(alpha) && LeavesOf(sorted) == LeavesOf(alpha)
    ensures forall e :: e in sorted ==> WellCounted(e)
  {
    TotalsOfPermutation(sorted, alpha);
    assert |sorted| == |multiset(sorted)| == |alpha|;
    forall e | e in sorted ensures WellCounted(e) {
      assert e in multiset(alpha);
    }
  }
}
