/** The frequency table of a text: one leaf per distinct character, counted
    by its number of occurrences, in order of first occurrence. */
module Frequency {
  import opened Entries

  /** One more occurrence of `c`: the first entry for `c` goes up by one, or
      a new entry `c` with count one is appended, as a dictionary update does. */
  function Tally(alpha: seq<Entry>, c: char): (r: seq<Entry>)
    requires AllLeaves(alpha)
    ensures AllLeaves(r)
    ensures TotalCount(r) == TotalCount(alpha) + 1
    ensures LeavesOf(r) == if c in LeavesOf(alpha) then LeavesOf(alpha) else LeavesOf(alpha) + multiset{c}
  {
    if alpha == [] then [Leaf(c, 1)]
    else if alpha[0].ch == c then
      assert [Leaf(c, alpha[0].count + 1)][1..] == [];
      [Leaf(c, alpha[0].count + 1)] + alpha[1..]
    else
      var r := [alpha[0]] + Tally(alpha[1..], c);
      assert r[1..] == Tally(alpha[1..], c);
      r
  }

  /** Entries for other letters survive a tally. */
  lemma {:induction false} TallyKeeps(alpha: seq<Entry>, c: char)
    requires AllLeaves(alpha)
    ensures forall e :: e in alpha && e.ch != c ==> e in Tally(alpha, c)
  {
    if alpha != [] && alpha[0].ch != c {
      TallyKeeps(alpha[1..], c);
    }
  }

  /** A tally adds nothing but an entry for the tallied letter. */
  lemma {:induction false} TallyAdds(alpha: seq<Entry>, c: char)
    requires AllLeaves(alpha)
    ensures forall e :: e in Tally(alpha, c) ==> (e in alpha && e.ch != c) || e.ch == c
  {
    if alpha != [] && alpha[0].ch != c {
      TallyAdds(alpha[1..], c);
    }
  }

  /** When `c` has at most one entry, a tally leaves exactly one, counted one
      more than before (one when it was absent). */
  lemma {:induction false} TallyBumps(alpha: seq<Entry>, c: char)
    requires AllLeaves(alpha)
    requires LeavesOf(alpha)[c] <= 1
    ensures forall e :: e in Tally(alpha, c) && e.ch == c ==>
              || (e.count == 1 && c !in LeavesOf(alpha))
              || (e.count >= 1 && Leaf(c, e.count - 1) in alpha)
  {
    if alpha != [] {
      var r := Tally(alpha, c);
      if alpha[0].ch == c {
        var tail := alpha[1..];
        LeavesOfMembers(tail);
        forall e | e in r && e.ch == c ensures e == r[0] {
          assert e == r[0] || e in tail;
        }
      } else {
        TallyBumps(alpha[1..], c);
      }
    }
  }

  /** The list of (letter, count) pairs built by one pass over `text`. */
  function FrequencyAlphabet(text: string): (r: seq<Entry>)
    ensures AllLeaves(r)
    ensures forall e :: e in r ==> e.count == multiset(text)[e.ch]
    ensures forall c :: LeavesOf(r)[c] == if c in text then 1 else 0
    ensures TotalCount(r) == |text|
  {
    if text == [] then []
    else
      var prefix, c := text[..|text| - 1], text[|text| - 1];
      var alpha := FrequencyAlphabet(prefix);
      assert text == prefix + [c];
      TallyCounts(alpha, prefix, c);
      Tally(alpha, c)
  }

  /** Tallying the next letter keeps the table exact for the longer text. */
  lemma TallyCounts(alpha: seq<Entry>, prefix: string, c: char)
    requires AllLeaves(alpha)
    requires forall e :: e in alpha ==> e.count == multiset(prefix)[e.ch]
    requires forall d :: LeavesOf(alpha)[d] == if d in prefix then 1 else 0
    ensures forall e :: e in Tally(alpha, c) ==> e.count == multiset(prefix + [c])[e.ch]
    ensures forall d :: LeavesOf(Tally(alpha, c))[d] == if d in prefix + [c] then 1 else 0
  {
    var r := Tally(alpha, c);
    var text := prefix + [c];
    assert multiset(text) == multiset(prefix) + multiset{c};
    TallyKeeps(alpha, c);
    TallyAdds(alpha, c);
    TallyBumps(alpha, c);
    forall e | e in r ensures e.count == multiset(text)[e.ch] {
      if e.ch != c {
        assert e in alpha;
      } else if c !in LeavesOf(alpha) {
        assert c !in prefix;
      } else {
        assert Leaf(c, e.count - 1) in alpha;
      }
    }
    forall d ensures LeavesOf(r)[d] == if d in text then 1 else 0 {
      assert d in text <==> d in prefix || d == c;
    }
  }
}
