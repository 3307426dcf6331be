/** The canonical order the codec keeps its list of live entries in:
    descending count; within one count, leaves before groups; leaves by
    descending code point; groups in the order they were given. */
module CanonicalSort {
  import opened Entries

  /** `a` belongs strictly before `b` in the canonical order. */
  predicate Precedes(a: Entry, b: Entry)
  {
    || a.count > b.count
    || (a.count == b.count && a.Leaf? && b.Group?)
    || (a.count == b.count && a.Leaf? && b.Leaf? && a.ch > b.ch)
  }

  /** No entry of `xs` is followed by one that belongs before it. */
  predicate Canonical(xs: seq<Entry>)
  {
    forall i, j :: 0 <= i < j < |xs| ==> !Precedes(xs[j], xs[i])
  }

  predicate Descending(cs: seq<char>)
  {
    forall i, j :: 0 <= i < j < |cs| ==> cs[j] <= cs[i]
  }

  function MaxCount(xs: seq<Entry>): (m: nat)
    requires xs != []
    ensures forall e :: e in xs ==> e.count <= m
    ensures exists e :: e in xs && e.count == m
  {
    if |xs| == 1 then xs[0].count
    else
      var m := MaxCount(xs[1..]);
      assert forall e :: e in xs ==> e == xs[0] || e in xs[1..];
      if xs[0].count >= m then xs[0].count else m
  }

  /** The characters of the leaves counted `v`, in input order. */
  function LeafCharsWith(xs: seq<Entry>, v: nat): seq<char>
  {
    if xs == [] then []
    else (if xs[0].Leaf? && xs[0].count == v then [xs[0].ch] else []) + LeafCharsWith(xs[1..], v)
  }

  /** The groups counted `v`, in input order. */
  function GroupsWith(xs: seq<Entry>, v: nat): seq<Entry>
  {
    if xs == [] then []
    else (if xs[0].Group? && xs[0].count == v then [xs[0]] else []) + GroupsWith(xs[1..], v)
  }

  /** The entries counted less than `v`, in input order. */
  function Below(xs: seq<Entry>, v: nat): seq<Entry>
  {
    if xs == [] then []
    else (if xs[0].count < v then [xs[0]] else []) + Below(xs[1..], v)
  }

  lemma {:induction false} LeafCharsWithContents(xs: seq<Entry>, v: nat)
    ensures forall c :: multiset(LeafCharsWith(xs, v))[c] == multiset(xs)[Leaf(c, v)]
  {
    if xs != [] {
      LeafCharsWithContents(xs[1..], v);
      assert xs == [xs[0]] + xs[1..];
    }
  }

  lemma {:induction false} GroupsWithContents(xs: seq<Entry>, v: nat)
    ensures forall e :: multiset(GroupsWith(xs, v))[e] == if e.Group? && e.count == v then multiset(xs)[e] else 0
  {
    if xs != [] {
      GroupsWithContents(xs[1..], v);
      assert xs == [xs[0]] + xs[1..];
    }
  }

  lemma {:induction false} BelowContents(xs: seq<Entry>, v: nat)
    ensures forall e :: multiset(Below(xs, v))[e] == if e.count < v then multiset(xs)[e] else 0
  {
    if xs != [] {
      BelowContents(xs[1..], v);
      var h := if xs[0].count < v then [xs[0]] else [];
      var rest := Below(xs[1..], v);
      assert Below(xs, v) == h + rest;
      assert xs == [xs[0]] + xs[1..];
      forall e: Entry ensures multiset(h + rest)[e] == if e.count < v then multiset(xs)[e] else 0 {
        assert multiset(h + rest)[e] == multiset(h)[e] + multiset(rest)[e];
        assert multiset(xs)[e] == multiset([xs[0]])[e] + multiset(xs[1..])[e];
      }
    }
  }

  lemma {:induction false} BelowLength(xs: seq<Entry>, v: nat)
    ensures |Below(xs, v)| <= |xs|
    ensures |Below(xs, v)| == |xs| ==> forall e :: e in xs ==> e.count < v
  {
    if xs != [] {
      BelowLength(xs[1..], v);
      assert forall e :: e in xs ==> e == xs[0] || e in xs[1..];
    }
  }

  /** `cs` with `c` put before the first character not above it. */
  function InsertDescending(c: char, cs: seq<char>): (r: seq<char>)
    requires Descending(cs)
    ensures multiset(r) == multiset(cs) + multiset{c}
    ensures Descending(r)
  {
    if cs == [] || cs[0] <= c then [c] + cs
    else
      var tail := InsertDescending(c, cs[1..]);
      assert cs == [cs[0]] + cs[1..];
      TopBoundsRest(cs[0], cs[1..], c, tail);
      [cs[0]] + tail
  }

  lemma TopBoundsRest(top: char, cs: seq<char>, c: char, tail: seq<char>)
    requires Descending([top] + cs) && c < top
    requires Descending(tail) && multiset(tail) == multiset(cs) + multiset{c}
    ensures Descending([top] + tail)
  {
    forall x | x in tail ensures x <= top {
      assert x in multiset(tail);
      if x != c {
        assert x in cs;
        var k :| 0 <= k < |cs| && cs[k] == x;
        assert ([top] + cs)[k + 1] == x && ([top] + cs)[0] == top;
      }
    }
    var r := [top] + tail;
    forall i, j | 0 <= i < j < |r| ensures r[j] <= r[i] {
      assert r[j] == tail[j - 1] && tail[j - 1] in tail;
      if i > 0 {
        assert r[i] == tail[i - 1];
      }
    }
  }

  /** The characters by descending code point, as `sorted(key=ord, reverse=True)`. */
  function SortDescending(cs: seq<char>): (r: seq<char>)
    ensures multiset(r) == multiset(cs)
    ensures Descending(r)
  {
    if cs == [] then []
    else
      assert cs == [cs[0]] + cs[1..];
      InsertDescending(cs[0], SortDescending(cs[1..]))
  }

  /** Leaves for the characters `cs`, each counted `v`. */
  function AsLeaves(cs: seq<char>, v: nat): (r: seq<Entry>)
    ensures |r| == |cs|
    ensures forall i :: 0 <= i < |cs| ==> r[i] == Leaf(cs[i], v)
  {
    if cs == [] then [] else [Leaf(cs[0], v)] + AsLeaves(cs[1..], v)
  }

  lemma {:induction false} AsLeavesContents(cs: seq<char>, v: nat)
    ensures forall e :: multiset(AsLeaves(cs, v))[e] == if e.Leaf? && e.count == v then multiset(cs)[e.ch] else 0
  {
    if cs != [] {
      AsLeavesContents(cs[1..], v);
      assert cs == [cs[0]] + cs[1..];
      assert AsLeaves(cs, v) == [Leaf(cs[0], v)] + AsLeaves(cs[1..], v);
    }
  }

  /** The entries counted `v`, as the sort emits them: leaves by descending
      code point, then groups in input order. */
  function Bucket(xs: seq<Entry>, v: nat): (b: seq<Entry>)
    ensures forall e :: multiset(b)[e] == if e.count == v then multiset(xs)[e] else 0
    ensures forall e :: e in b ==> e.count == v
    ensures Canonical(b)
  {
    var cs := SortDescending(LeafCharsWith(xs, v));
    var ls, gs := AsLeaves(cs, v), GroupsWith(xs, v);
    LeafCharsWithContents(xs, v);
    GroupsWithContents(xs, v);
    AsLeavesContents(cs, v);
    BucketOrder(ls, gs, cs, v);
    ls + gs
  }

  lemma BucketOrder(ls: seq<Entry>, gs: seq<Entry>, cs: seq<char>, v: nat)
    requires ls == AsLeaves(cs, v) && Descending(cs)
    requires forall g :: g in gs ==> g.Group? && g.count == v
    ensures Canonical(ls + gs)
  {
  }

  lemma CanonicalConcat(xs: seq<Entry>, ys: seq<Entry>)
    requires Canonical(xs) && Canonical(ys)
    requires forall x, y :: x in xs && y in ys ==> !Precedes(y, x)
    ensures Canonical(xs + ys)
  {
  }

  /** `sorted_alphabet`: for each count from the largest down, the leaves of
      that count by descending code point and then its groups in input order. */
  function SortedAlphabet(xs: seq<Entry>): (r: seq<Entry>)
    ensures multiset(r) == multiset(xs)
    ensures Canonical(r)
    decreases |xs|
  {
    if xs == [] then []
    else
      var m := MaxCount(xs);
      BelowLength(xs, m);
      var rest := SortedAlphabet(Below(xs, m));
      SortStep(xs, m, rest);
      Bucket(xs, m) + rest
  }

  lemma SortStep(xs: seq<Entry>, m: nat, rest: seq<Entry>)
    requires forall e :: e in xs ==> e.count <= m
    requires multiset(rest) == multiset(Below(xs, m))
    requires Canonical(rest)
    ensures multiset(Bucket(xs, m) + rest) == multiset(xs)
    ensures Canonical(Bucket(xs, m) + rest)
  {
    var b := Bucket(xs, m);
    BelowContents(xs, m);
    forall e ensures multiset(b + rest)[e] == multiset(xs)[e] {
      if e.count > m {
        assert e !in xs;
      }
    }
    forall y | y in rest ensures y.count < m {
      assert multiset(rest)[y] > 0;
    }
    CanonicalConcat(b, rest);
  }

  lemma {:induction false} LeafCharsWithConcat(xs: seq<Entry>, ys: seq<Entry>, v: nat)
    ensures LeafCharsWith(xs + ys, v) == LeafCharsWith(xs, v) + LeafCharsWith(ys, v)
  {
    if xs == [] {
      assert xs + ys == ys;
    } else {
      assert (xs + ys)[1..] == xs[1..] + ys;
      LeafCharsWithConcat(xs[1..], ys, v);
    }
  }

  lemma {:induction false} GroupsWithConcat(xs: seq<Entry>, ys: seq<Entry>, v: nat)
    ensures GroupsWith(xs + ys, v) == GroupsWith(xs, v) + GroupsWith(ys, v)
  {
    if xs == [] {
      assert xs + ys == ys;
    } else {
      assert (xs + ys)[1..] == xs[1..] + ys;
      GroupsWithConcat(xs[1..], ys, v);
    }
  }

  lemma {:induction false} BelowConcat(xs: seq<Entry>, ys: seq<Entry>, v: nat)
    ensures Below(xs + ys, v) == Below(xs, v) + Below(ys, v)
  {
    if xs == [] {
      assert xs + ys == ys;
    } else {
      assert (xs + ys)[1..] == xs[1..] + ys;
      BelowConcat(xs[1..], ys, v);
    }
  }

  /** A filter that every entry passes, or none does. */
  lemma {:induction false} FiltersOfUniform(xs: seq<Entry>, v: nat)
    ensures (forall e :: e in xs ==> !(e.Leaf? && e.count == v)) ==> LeafCharsWith(xs, v) == []
    ensures (forall e :: e in xs ==> !(e.Group? && e.count == v)) ==> GroupsWith(xs, v) == []
    ensures (forall e :: e in xs ==> e.Group? && e.count == v) ==> GroupsWith(xs, v) == xs
    ensures (forall e :: e in xs ==> e.count >= v) ==> Below(xs, v) == []
    ensures (forall e :: e in xs ==> e.count < v) ==> Below(xs, v) == xs
  {
    if xs != [] {
      FiltersOfUniform(xs[1..], v);
      assert forall e :: e in xs[1..] ==> e in xs;
      assert xs == [xs[0]] + xs[1..];
    }
  }

  /** Filtering twice by groups, or groups after a count bound. */
  lemma {:induction false} FiltersCompose(xs: seq<Entry>, m: nat, v: nat)
    ensures GroupsWith(GroupsWith(xs, m), v) == if v == m then GroupsWith(xs, m) else []
    ensures GroupsWith(Below(xs, m), v) == if v < m then GroupsWith(xs, v) else []
  {
    if xs != [] {
      FiltersCompose(xs[1..], m, v);
      var h := xs[0];
      var g := if h.Group? && h.count == m then [h] else [];
      var b := if h.count < m then [h] else [];
      assert GroupsWith(xs, m) == g + GroupsWith(xs[1..], m);
      assert Below(xs, m) == b + Below(xs[1..], m);
      GroupsWithConcat(g, GroupsWith(xs[1..], m), v);
      GroupsWithConcat(b, Below(xs[1..], m), v);
      if g != [] {
        assert g[1..] == [];
      }
      if b != [] {
        assert b[1..] == [];
      }
    }
  }

  /** The sort keeps the groups of every count in their input order. */
  lemma {:induction false} SortKeepsGroupOrder(xs: seq<Entry>, v: nat)
    ensures GroupsWith(SortedAlphabet(xs), v) == GroupsWith(xs, v)
    decreases |xs|
  {
    if xs != [] {
      var m := MaxCount(xs);
      var cs := SortDescending(LeafCharsWith(xs, m));
      var ls, gs := AsLeaves(cs, m), GroupsWith(xs, m);
      var rest := SortedAlphabet(Below(xs, m));
      SortedAlphabetUnfold(xs);
      GroupsWithConcat(ls, gs, v);
      NoGroupsAmongLeaves(cs, m, v);
      assert GroupsWith(ls + gs, v) == [] + GroupsWith(gs, v) == GroupsWith(gs, v);
      GroupsWithConcat(ls + gs, rest, v);
      BelowMaxShrinks(xs);
      SortKeepsGroupOrder(Below(xs, m), v);
      FiltersCompose(xs, m, v);
      GroupsOfSortParts(xs, m, v);
    }
  }

  /** Taking away the top bucket leaves fewer entries. */
  lemma BelowMaxShrinks(xs: seq<Entry>)
    requires xs != []
    ensures |Below(xs, MaxCount(xs))| < |xs|
  {
    BelowLength(xs, MaxCount(xs));
  }

  /** How the groups counted `v` split between the top bucket and the rest. */
  lemma GroupsOfSortParts(xs: seq<Entry>, m: nat, v: nat)
    requires forall e :: e in xs ==> e.count <= m
    ensures GroupsWith(GroupsWith(xs, m), v) + GroupsWith(Below(xs, m), v) == GroupsWith(xs, v)
  {
    FiltersCompose(xs, m, v);
    if v > m {
      FiltersOfUniform(xs, v);
    } else if v == m {
      FiltersOfUniform(Below(xs, m), m);
    }
  }

  lemma NoGroupsAmongLeaves(cs: seq<char>, m: nat, v: nat)
    ensures GroupsWith(AsLeaves(cs, m), v) == []
  {
  }

  lemma SortedAlphabetUnfold(xs: seq<Entry>)
    requires xs != []
    ensures var m := MaxCount(xs);
            SortedAlphabet(xs)
            == AsLeaves(SortDescending(LeafCharsWith(xs, m)), m) + GroupsWith(xs, m) + SortedAlphabet(Below(xs, m))
  {
  }

  lemma {:induction false} SortDescendingFixesSorted(cs: seq<char>)
    requires Descending(cs)
    ensures SortDescending(cs) == cs
  {
    if cs != [] {
      SortDescendingFixesSorted(cs[1..]);
    }
  }

  /** Length of the longest prefix of `xs` whose entries are counted `v`. */
  ghost function RunOf(xs: seq<Entry>, v: nat): (k: nat)
    ensures k <= |xs|
    ensures forall i :: 0 <= i < k ==> xs[i].count == v
    ensures k < |xs| ==> xs[k].count != v
  {
    if xs == [] || xs[0].count != v then 0 else 1 + RunOf(xs[1..], v)
  }

  /** Length of the longest prefix of `xs` whose entries are leaves counted `v`. */
  ghost function LeafRunOf(xs: seq<Entry>, v: nat): (j: nat)
    ensures j <= |xs|
    ensures forall i :: 0 <= i < j ==> xs[i].Leaf? && xs[i].count == v
    ensures j < |xs| ==> !(xs[j].Leaf? && xs[j].count == v)
  {
    if xs == [] || !(xs[0].Leaf? && xs[0].count == v) then 0 else 1 + LeafRunOf(xs[1..], v)
  }

  lemma {:induction false} LeafCharsOfLeaves(ls: seq<Entry>, v: nat)
    requires forall i :: 0 <= i < |ls| ==> ls[i].Leaf? && ls[i].count == v
    ensures |LeafCharsWith(ls, v)| == |ls|
    ensures forall i :: 0 <= i < |ls| ==> LeafCharsWith(ls, v)[i] == ls[i].ch
  {
    if ls != [] {
      LeafCharsOfLeaves(ls[1..], v);
    }
  }

  /** A canonical run of leaves of one count is rebuilt unchanged by its bucket. */
  lemma LeafRunRebuilt(ls: seq<Entry>, v: nat)
    requires forall i :: 0 <= i < |ls| ==> ls[i].Leaf? && ls[i].count == v
    requires Canonical(ls)
    ensures AsLeaves(SortDescending(LeafCharsWith(ls, v)), v) == ls
  {
    var cs := LeafCharsWith(ls, v);
    LeafCharsOfLeaves(ls, v);
    forall i, j | 0 <= i < j < |cs| ensures cs[j] <= cs[i] {
      assert !Precedes(ls[j], ls[i]);
    }
    SortDescendingFixesSorted(cs);
    var r := AsLeaves(cs, v);
    assert forall i :: 0 <= i < |ls| ==> r[i] == ls[i];
  }

  /** In a canonical list the first entry carries the largest count. */
  lemma HeadIsMax(xs: seq<Entry>)
    requires xs != [] && Canonical(xs)
    ensures MaxCount(xs) == xs[0].count
  {
  }

  /** The bucket of the largest count of leaves `ls`, groups `gs` and
      lower entries `tail` is `ls + gs`, and what is left is `tail`. */
  lemma BucketOfRuns(xs: seq<Entry>, ls: seq<Entry>, gs: seq<Entry>, tail: seq<Entry>, m: nat)
    requires xs == ls + gs + tail
    requires forall i :: 0 <= i < |ls| ==> ls[i].Leaf? && ls[i].count == m
    requires Canonical(ls)
    requires forall e :: e in gs ==> e.Group? && e.count == m
    requires forall e :: e in tail ==> e.count < m
    ensures AsLeaves(SortDescending(LeafCharsWith(xs, m)), m) == ls
    ensures GroupsWith(xs, m) == gs
    ensures Below(xs, m) == tail
  {
    assert forall e :: e in ls ==> e.Leaf? && e.count == m;
    LeafCharsOfRuns(ls, gs, tail, m);
    LeafRunRebuilt(ls, m);
    GroupsOfRuns(ls, gs, tail, m);
    BelowOfRuns(ls, gs, tail, m);
  }

  lemma LeafCharsOfRuns(ls: seq<Entry>, gs: seq<Entry>, tail: seq<Entry>, m: nat)
    requires forall e :: e in gs ==> e.Group?
    requires forall e :: e in tail ==> e.count < m
    ensures LeafCharsWith(ls + gs + tail, m) == LeafCharsWith(ls, m)
  {
    LeafCharsWithConcat(ls + gs, tail, m);
    LeafCharsWithConcat(ls, gs, m);
    FiltersOfUniform(gs, m);
    FiltersOfUniform(tail, m);
  }

  lemma GroupsOfRuns(ls: seq<Entry>, gs: seq<Entry>, tail: seq<Entry>, m: nat)
    requires forall e :: e in ls ==> e.Leaf?
    requires forall e :: e in gs ==> e.Group? && e.count == m
    requires forall e :: e in tail ==> e.count < m
    ensures GroupsWith(ls + gs + tail, m) == gs
  {
    GroupsWithConcat(ls + gs, tail, m);
    GroupsWithConcat(ls, gs, m);
    FiltersOfUniform(ls, m);
    FiltersOfUniform(gs, m);
    FiltersOfUniform(tail, m);
  }

  lemma BelowOfRuns(ls: seq<Entry>, gs: seq<Entry>, tail: seq<Entry>, m: nat)
    requires forall e :: e in ls ==> e.count == m
    requires forall e :: e in gs ==> e.count == m
    requires forall e :: e in tail ==> e.count < m
    ensures Below(ls + gs + tail, m) == tail
  {
    BelowConcat(ls + gs, tail, m);
    BelowConcat(ls, gs, m);
    FiltersOfUniform(ls, m);
    FiltersOfUniform(gs, m);
    FiltersOfUniform(tail, m);
  }

  /** A canonical list is its own canonical sort. */
  lemma {:induction false} CanonicalIsFixpoint(xs: seq<Entry>)
    requires Canonical(xs)
    ensures SortedAlphabet(xs) == xs
    decreases |xs|
  {
    if xs != [] {
      var ls, gs, tail := SplitRuns(xs);
      CanonicalIsFixpoint(tail);
      FixpointStep(xs, ls, gs, tail);
    }
  }

  /** A non-empty canonical list is its top bucket (leaves, then groups, all
      counted the largest count) followed by a canonical rest. */
  lemma SplitRuns(xs: seq<Entry>) returns (ls: seq<Entry>, gs: seq<Entry>, tail: seq<Entry>)
    requires xs != [] && Canonical(xs)
    ensures xs == ls + gs + tail && |tail| < |xs| && Canonical(tail)
    ensures AsLeaves(SortDescending(LeafCharsWith(xs, MaxCount(xs))), MaxCount(xs)) == ls
    ensures GroupsWith(xs, MaxCount(xs)) == gs
    ensures Below(xs, MaxCount(xs)) == tail
  {
    var m := MaxCount(xs);
    HeadIsMax(xs);
    var k := RunOf(xs, m);
    var j := LeafRunOf(xs, m);
    CanonicalRuns(xs, m, k, j);
    ls, gs, tail := xs[..j], xs[j..k], xs[k..];
    SliceThree(xs, j, k);
    RunSlices(xs, m, k, j);
    BucketOfRuns(xs, ls, gs, tail, m);
  }

  lemma SliceThree(xs: seq<Entry>, j: nat, k: nat)
    requires j <= k <= |xs|
    ensures xs == xs[..j] + xs[j..k] + xs[k..]
  {
  }

  /** A list that is its own top bucket followed by a sorted rest is sorted. */
  lemma FixpointStep(xs: seq<Entry>, ls: seq<Entry>, gs: seq<Entry>, tail: seq<Entry>)
    requires xs != [] && xs == ls + gs + tail
    requires AsLeaves(SortDescending(LeafCharsWith(xs, MaxCount(xs))), MaxCount(xs)) == ls
    requires GroupsWith(xs, MaxCount(xs)) == gs
    requires Below(xs, MaxCount(xs)) == tail
    requires SortedAlphabet(tail) == tail
    ensures SortedAlphabet(xs) == xs
  {
    SortedAlphabetUnfold(xs);
  }

  /** The three runs of a canonical list, as slices. */
  lemma RunSlices(xs: seq<Entry>, m: nat, k: nat, j: nat)
    requires Canonical(xs) && j <= k <= |xs|
    requires forall i :: 0 <= i < j ==> xs[i].Leaf? && xs[i].count == m
    requires forall i :: j <= i < k ==> xs[i].Group? && xs[i].count == m
    requires forall i :: k <= i < |xs| ==> xs[i].count < m
    ensures forall i :: 0 <= i < |xs[..j]| ==> xs[..j][i].Leaf? && xs[..j][i].count == m
    ensures Canonical(xs[..j])
    ensures forall e :: e in xs[j..k] ==> e.Group? && e.count == m
    ensures forall e :: e in xs[k..] ==> e.count < m
    ensures Canonical(xs[k..])
  {
  }

  lemma CanonicalSlice(xs: seq<Entry>, a: nat, b: nat)
    requires Canonical(xs) && a <= b <= |xs|
    ensures Canonical(xs[a..b])
  {
  }

  /** A canonical list opens with the leaves of its largest count, then that
      count's groups, then entries of smaller counts. */
  lemma CanonicalRuns(xs: seq<Entry>, m: nat, k: nat, j: nat)
    requires Canonical(xs) && xs != [] && m == xs[0].count
    requires k == RunOf(xs, m) && j == LeafRunOf(xs, m)
    ensures 1 <= k && j <= k
    ensures forall i :: 0 <= i < j ==> xs[i].Leaf? && xs[i].count == m
    ensures forall i :: j <= i < k ==> xs[i].Group? && xs[i].count == m
    ensures forall i :: k <= i < |xs| ==> xs[i].count < m
  {
  }

  /** Sorting a sorted list changes nothing. */
  lemma SortIsIdempotent(xs: seq<Entry>)
    ensures SortedAlphabet(SortedAlphabet(xs)) == SortedAlphabet(xs)
  {
    CanonicalIsFixpoint(SortedAlphabet(xs));
  }
}
